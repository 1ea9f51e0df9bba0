/** The inverted-index job: the mapper's term statistics for one document
    row and their serialisation as `url:tc:tt:cc:ct`, and the reducer's
    parse of those values back into one column update per document. The
    idf/tf score itself (floating point) is not modelled: each update
    carries the four counts the score is computed from. */
module InvertedIndex {
  import opened Wrappers
  import opened Chars
  import opened Strings
  import Dedup

  // ---------------------------------------------------------------------
  // Java string operations

  /** `s.trim().split("\\s+")`: the whitespace-separated tokens, and the
      single empty token for a blank string. */
  function SplitTokens(s: string): seq<string>
  {
    var t := Strip(s);
    if t == [] then [""] else Words(t)
  }

  /** `titleTotal` / `contentTotal`. */
  function TokenTotal(s: string): nat
  {
    if Strip(s) == [] then 0 else |SplitTokens(s)|
  }

  /** The pieces of `s` between the occurrences of `c`, empty ones included. */
  function SplitAll(s: string, c: char): (ps: seq<string>)
    ensures ps != []
    decreases |s|
  {
    var j := LastIndexOf(s, c);
    if j < 0 then [s] else SplitAll(s[..j], c) + [s[j + 1..]]
  }

  function DropTrailingEmpty(ps: seq<string>): seq<string>
  {
    if ps == [] then []
    else if ps[|ps| - 1] == "" then DropTrailingEmpty(ps[..|ps| - 1])
    else ps
  }

  /** Java's `s.split(":")` with a one-character pattern: the string itself
      when `c` does not occur, and otherwise the pieces with trailing empty
      pieces removed. */
  function JavaSplit(s: string, c: char): seq<string>
  {
    if c !in s then [s] else DropTrailingEmpty(SplitAll(s, c))
  }

  /** Decimal digits of `n` (`%d` of a non-negative number). */
  function Decimal(n: nat): (d: string)
    ensures d != [] && forall i :: 0 <= i < |d| ==> IsDigit(d[i])
  {
    if n < 10 then [DigitChar(n)] else Decimal(n / 10) + [DigitChar(n % 10)]
  }

  function DigitChar(n: nat): (c: char)
    requires n < 10
    ensures IsDigit(c)
  {
    (48 + n) as char
  }

  function DigitValue(c: char): nat
    requires IsDigit(c)
  {
    c as int - 48
  }

  predicate AllDigits(s: string)
  {
    forall i :: 0 <= i < |s| ==> IsDigit(s[i])
  }

  function DigitsValue(s: string): nat
    requires AllDigits(s)
  {
    if s == [] then 0 else DigitsValue(s[..|s| - 1]) * 10 + DigitValue(s[|s| - 1])
  }

  const IntMax: int := 0x7fff_ffff
  const IntMin: int := -0x8000_0000

  /** `Integer.parseInt`: an optional sign and at least one digit, within
      the 32-bit range; anything else is a `NumberFormatException`. */
  function ParseInt(s: string): Option<int>
  {
    if s == [] then None
    else
      var signed := s[0] == '-' || s[0] == '+';
      var digits := if signed then s[1..] else s;
      if digits == [] || !AllDigits(digits) then None
      else
        var v: int := if s[0] == '-' then 0 - DigitsValue(digits) as int else DigitsValue(digits);
        if IntMin <= v <= IntMax then Some(v) else None
  }

  // ---------------------------------------------------------------------
  // Counting

  /** The per-word counts of the non-empty tokens. */
  function CountMap(ts: seq<string>): map<string, nat>
  {
    if ts == [] then map[]
    else
      var m := CountMap(ts[..|ts| - 1]);
      var t := ts[|ts| - 1];
      if t == "" then m else m[t := (if t in m then m[t] else 0) + 1]
  }

  /** The counting loop over one token array. */
  method CountTokens(tokens: seq<string>) returns (counts: map<string, nat>)
    ensures counts == CountMap(tokens)
  {
    counts := map[];
    var i := 0;
    while i < |tokens|
      invariant 0 <= i <= |tokens|
      invariant counts == CountMap(tokens[..i])
    {
      assert tokens[..i + 1][..i] == tokens[..i];
      var t := tokens[i];
      if t != "" {
        counts := counts[t := (if t in counts then counts[t] else 0) + 1];
      }
      i := i + 1;
    }
    assert tokens[..i] == tokens;
  }

  function NonEmpty(ts: seq<string>): seq<string>
  {
    if ts == [] then []
    else NonEmpty(ts[..|ts| - 1]) + (if ts[|ts| - 1] != "" then [ts[|ts| - 1]] else [])
  }

  /** Each non-empty token is counted as often as it occurs, and nothing
      else is counted. */
  lemma {:induction false} CountMapSpec(ts: seq<string>, w: string)
    ensures w in CountMap(ts) <==> w != "" && w in ts
    ensures w in CountMap(ts) ==> CountMap(ts)[w] == multiset(ts)[w] >= 1
    decreases |ts|
  {
    if ts != [] {
      var init := ts[..|ts| - 1];
      CountMapSpec(init, w);
      assert ts == init + [ts[|ts| - 1]];
    }
  }

  function Self(w: string): string
  {
    w
  }

  /** The distinct non-empty tokens in order of first occurrence. */
  function Distinct(ts: seq<string>): seq<string>
  {
    Dedup.FirstByKey(ts, Self)
  }

  /** The sum of the counts of the words `ws`. */
  function SumOver(ws: seq<string>, m: map<string, nat>): nat
  {
    if ws == [] then 0
    else SumOver(ws[..|ws| - 1], m) + (var w := ws[|ws| - 1]; if w in m then m[w] else 0)
  }

  lemma {:induction false} SumOverAbsent(ws: seq<string>, m: map<string, nat>, t: string, v: nat)
    requires t !in ws
    ensures SumOver(ws, m[t := v]) == SumOver(ws, m)
    decreases |ws|
  {
    if ws != [] {
      assert ws[|ws| - 1] != t;
      SumOverAbsent(ws[..|ws| - 1], m, t, v);
    }
  }

  lemma {:induction false} SumOverOnce(ws: seq<string>, m: map<string, nat>, t: string)
    requires t in m && t in ws && Dedup.DistinctKeys(ws, Self)
    ensures SumOver(ws, m[t := m[t] + 1]) == SumOver(ws, m) + 1
    decreases |ws|
  {
    var init := ws[..|ws| - 1];
    assert forall i :: 0 <= i < |init| ==> init[i] == ws[i];
    if ws[|ws| - 1] == t {
      assert t !in init by {
        forall i | 0 <= i < |init| ensures init[i] != t {
          assert Self(ws[i]) != Self(ws[|ws| - 1]);
        }
      }
      SumOverAbsent(init, m, t, m[t] + 1);
    } else {
      assert ws == init + [ws[|ws| - 1]];
      SumOverOnce(init, m, t);
    }
  }

  lemma {:induction false} CountMapKeys(ts: seq<string>)
    ensures CountMap(ts).Keys == Dedup.Keys(ts, Self)
    decreases |ts|
  {
    if ts != [] {
      CountMapKeys(ts[..|ts| - 1]);
    }
  }

  /** The counts add up to the number of non-empty tokens. */
  lemma {:induction false} CountSum(ts: seq<string>)
    ensures SumOver(Distinct(ts), CountMap(ts)) == |NonEmpty(ts)|
    decreases |ts|
  {
    if ts != [] {
      var init := ts[..|ts| - 1];
      var t := ts[|ts| - 1];
      CountSum(init);
      var d := Distinct(init);
      var m := CountMap(init);
      CountMapKeys(init);
      Dedup.FirstByKeyKeys(init, Self);
      Dedup.KeysMember(d, Self, t);
      assert NonEmpty(ts) == NonEmpty(init) + (if t != "" then [t] else []);
      if t != "" && t !in Dedup.Keys(init, Self) {
        assert Distinct(ts) == d + [t] && CountMap(ts) == m[t := 1];
        assert t !in d;
        SumOverAbsent(d, m, t, 1);
        assert (d + [t])[..|d|] == d;
      } else if t != "" {
        assert Distinct(ts) == d && CountMap(ts) == m[t := m[t] + 1];
        Dedup.FirstByKeyDistinct(init, Self);
        SumOverOnce(d, m, t);
      }
    }
  }

  /** The tokens of a non-blank string are non-empty. */
  lemma TokensNonEmpty(s: string)
    ensures Strip(s) != [] ==> NonEmpty(SplitTokens(s)) == SplitTokens(s)
    ensures Strip(s) == [] ==> NonEmpty(SplitTokens(s)) == []
  {
    if Strip(s) != [] {
      AllNonEmpty(SplitTokens(s));
    }
  }

  lemma {:induction false} AllNonEmpty(ts: seq<string>)
    requires forall i :: 0 <= i < |ts| ==> ts[i] != ""
    ensures NonEmpty(ts) == ts
    decreases |ts|
  {
    if ts != [] {
      AllNonEmpty(ts[..|ts| - 1]);
    }
  }

  /** `titleTotal` (and `contentTotal`) is the sum of the per-word counts. */
  lemma TotalIsSumOfCounts(s: string)
    ensures TokenTotal(s) == SumOver(Distinct(SplitTokens(s)), CountMap(SplitTokens(s)))
  {
    TokensNonEmpty(s);
    CountSum(SplitTokens(s));
  }

  // ---------------------------------------------------------------------
  // The mapper

  function Get(m: map<string, nat>, w: string): nat
  {
    if w in m then m[w] else 0
  }

  /** `url:titleCount:titleTotal:contentCount:contentTotal`. */
  function FormatValue(url: string, tc: nat, tt: nat, cc: nat, ct: nat): string
  {
    Join([url, Decimal(tc), Decimal(tt), Decimal(cc), Decimal(ct)], ":")
  }

  /** The value emitted for `w`, from the two count maps and totals. */
  function ValueOf(url: string, tcs: map<string, nat>, tt: nat, ccs: map<string, nat>, ct: nat, w: string): string
  {
    FormatValue(url, Get(tcs, w), tt, Get(ccs, w), ct)
  }

  /** The value emitted for `w` from a row with these token strings. */
  function ValueFor(url: string, title: string, content: string, w: string): string
  {
    ValueOf(url, CountMap(SplitTokens(title)), TokenTotal(title), CountMap(SplitTokens(content)), TokenTotal(content), w)
  }

  /** The words of a row: every word counted in the title or the content. */
  function RowWords(title: string, content: string): set<string>
  {
    CountMap(SplitTokens(title)).Keys + CountMap(SplitTokens(content)).Keys
  }

  /** `out` emits each word of `words` once, with the value `value` gives it. */
  predicate EmitsOnce(out: seq<(string, string)>, words: set<string>, value: string -> string)
  {
    (forall i, j :: 0 <= i < j < |out| ==> out[i].0 != out[j].0) &&
    (forall i :: 0 <= i < |out| ==> out[i].0 in words && out[i].1 == value(out[i].0)) &&
    (forall w :: w in words ==> exists i :: 0 <= i < |out| && out[i].0 == w)
  }

  /** The loop invariant of the emission: the words of `words` not in
      `rest` have been emitted once each. */
  predicate EmitInv(out: seq<(string, string)>, words: set<string>, rest: set<string>, value: string -> string)
  {
    rest <= words &&
    (forall i, j :: 0 <= i < j < |out| ==> out[i].0 != out[j].0) &&
    (forall i :: 0 <= i < |out| ==> out[i].0 in words && out[i].0 !in rest && out[i].1 == value(out[i].0)) &&
    (forall w :: w in words && w !in rest ==> exists i :: 0 <= i < |out| && out[i].0 == w)
  }

  lemma EmitStep(out: seq<(string, string)>, words: set<string>, rest: set<string>, value: string -> string, w: string)
    requires EmitInv(out, words, rest, value) && w in rest
    ensures EmitInv(out + [(w, value(w))], words, rest - {w}, value)
  {
    var out' := out + [(w, value(w))];
    forall u | u in words && u !in rest - {w} ensures exists i :: 0 <= i < |out'| && out'[i].0 == u {
      if u == w {
        assert out'[|out|].0 == u;
      } else {
        var i :| 0 <= i < |out| && out[i].0 == u;
        assert out'[i].0 == u;
      }
    }
  }

  /** The emission loop over `allWords`, whose iteration order (a hash
      map's) the model leaves open: any order may come out. */
  method EmitWords(url: string, titleCounts: map<string, nat>, titleTotal: nat,
                   contentCounts: map<string, nat>, contentTotal: nat)
    returns (out: seq<(string, string)>)
    ensures EmitsOnce(out, titleCounts.Keys + contentCounts.Keys,
                      w => ValueOf(url, titleCounts, titleTotal, contentCounts, contentTotal, w))
  {
    var allWords := titleCounts.Keys + contentCounts.Keys;
    ghost var words := allWords;
    ghost var value := w => ValueOf(url, titleCounts, titleTotal, contentCounts, contentTotal, w);
    out := [];
    while allWords != {}
      invariant EmitInv(out, words, allWords, value)
      decreases |allWords|
    {
      var word :| word in allWords;
      var tCount := if word in titleCounts then titleCounts[word] else 0;
      var cCount := if word in contentCounts then contentCounts[word] else 0;
      var v := FormatValue(url, tCount, titleTotal, cCount, contentTotal);
      assert v == value(word);
      EmitStep(out, words, allWords, value, word);
      out := out + [(word, v)];
      allWords := allWords - {word};
    }
  }

  /** `map` for one row, given its url and its two token strings (a missing
      column is ""): one value per distinct word of the row. */
  method MapRow(url: string, title: string, content: string) returns (out: seq<(string, string)>)
    ensures EmitsOnce(out, RowWords(title, content), w => ValueFor(url, title, content, w))
  {
    var titleTokens := SplitTokens(title);
    var contentTokens := SplitTokens(content);
    var titleTotal := if Strip(title) == [] then 0 else |titleTokens|;
    var contentTotal := if Strip(content) == [] then 0 else |contentTokens|;
    var titleCounts := CountTokens(titleTokens);
    var contentCounts := CountTokens(contentTokens);
    out := EmitWords(url, titleCounts, titleTotal, contentCounts, contentTotal);
  }

  /** The emitted words are exactly the distinct non-empty tokens of the
      title and the content, and each occurs in at least one of them. */
  lemma RowWordsSpec(title: string, content: string, w: string)
    ensures w in RowWords(title, content) <==> w != "" && (w in SplitTokens(title) || w in SplitTokens(content))
    ensures w in RowWords(title, content) ==>
      Get(CountMap(SplitTokens(title)), w) + Get(CountMap(SplitTokens(content)), w) >= 1
  {
    CountMapSpec(SplitTokens(title), w);
    CountMapSpec(SplitTokens(content), w);
  }

  // ---------------------------------------------------------------------
  // Parsing back

  lemma {:induction false} SplitAllColonFree(s: string, c: char)
    requires c !in s
    ensures SplitAll(s, c) == [s]
  {
  }

  /** The last separator of `a c b`, when `b` has none, is the one
      between them. */
  lemma {:induction false} LastIndexOfSuffix(a: string, b: string, c: char)
    requires c !in b
    ensures LastIndexOf(a + [c] + b, c) == |a|
    decreases |b|
  {
    var s := a + [c] + b;
    if b != [] {
      var b' := b[..|b| - 1];
      assert s[..|s| - 1] == a + [c] + b';
      assert s[|s| - 1] == b[|b| - 1];
      LastIndexOfSuffix(a, b', c);
    }
  }

  /** Splitting a join of separator-free parts gives the parts back. */
  lemma {:induction false} SplitJoin(parts: seq<string>, c: char)
    requires parts != []
    requires forall i :: 0 <= i < |parts| ==> c !in parts[i]
    ensures SplitAll(Join(parts, [c]), c) == parts
    decreases |parts|
  {
    if |parts| > 1 {
      var init := parts[..|parts| - 1];
      var last := parts[|parts| - 1];
      var j := Join(init, [c]);
      var s := j + [c] + last;
      SplitJoin(init, c);
      LastIndexOfSuffix(j, last, c);
      assert s[..|j|] == j && s[|j| + 1..] == last;
      assert parts == init + [last];
    } else {
      SplitAllColonFree(parts[0], c);
    }
  }

  /** `JavaSplit` undoes `Join` when the parts are separator-free and the
      last is not empty. */
  lemma JavaSplitJoin(parts: seq<string>, c: char)
    requires parts != [] && parts[|parts| - 1] != ""
    requires forall i :: 0 <= i < |parts| ==> c !in parts[i]
    ensures JavaSplit(Join(parts, [c]), c) == parts
  {
    SplitJoin(parts, c);
    var s := Join(parts, [c]);
    if c !in s {
      SplitAllColonFree(s, c);
    }
  }

  lemma {:induction false} DecimalValue(n: nat)
    ensures DigitsValue(Decimal(n)) == n
  {
    if n >= 10 {
      DecimalValue(n / 10);
      var d := Decimal(n);
      assert d[..|d| - 1] == Decimal(n / 10);
    }
  }

  /** Parsing a formatted count gives it back. */
  lemma ParseDecimal(n: nat)
    requires n <= IntMax
    ensures ParseInt(Decimal(n)) == Some(n)
  {
    DecimalValue(n);
  }

  /** One column update: row `word`, column family "p", qualifier `url`,
      with the counts the score is computed from. */
  datatype Put = Put(row: string, family: string, qualifier: string,
                     titleCount: int, titleTotal: int, contentCount: int, contentTotal: int)

  /** A value that does not parse aborts the reduce task. */
  datatype ReduceError = NumberFormat(value: string)

  /** One value: skipped with fewer than five parts, a failure if one of
      the four counts does not parse, and otherwise an update. */
  function ParseValue(word: string, v: string): Result<Option<Put>, ReduceError>
  {
    var parts := JavaSplit(v, ':');
    if |parts| < 5 then Ok(None)
    else
      var tc, tt, cc, ct := ParseInt(parts[1]), ParseInt(parts[2]), ParseInt(parts[3]), ParseInt(parts[4]);
      if tc.None? || tt.None? || cc.None? || ct.None? then Err(NumberFormat(v))
      else Ok(Some(Put(word, "p", parts[0], tc.value, tt.value, cc.value, ct.value)))
  }

  function ReduceSpec(word: string, values: seq<string>): Result<seq<Put>, ReduceError>
  {
    if values == [] then Ok([])
    else
      match ReduceSpec(word, values[..|values| - 1])
      case Err(e) => Err(e)
      case Ok(puts) =>
        match ParseValue(word, values[|values| - 1])
        case Err(e) => Err(e)
        case Ok(None) => Ok(puts)
        case Ok(Some(p)) => Ok(puts + [p])
  }

  /** The reduction of one more value, after a prefix that reduced to `puts`. */
  lemma ReduceSnoc(word: string, values: seq<string>, j: nat, puts: seq<Put>)
    requires j < |values| && ReduceSpec(word, values[..j]) == Ok(puts)
    ensures ReduceSpec(word, values[..j + 1]) ==
      match ParseValue(word, values[j])
      case Err(e) => Err(e)
      case Ok(None) => Ok(puts)
      case Ok(Some(p)) => Ok(puts + [p])
  {
    assert values[..j + 1][..j] == values[..j];
  }

  /** `reduce` for one word: the values are first copied into a list, then
      each is parsed. */
  method Reduce(word: string, values: seq<string>) returns (r: Result<seq<Put>, ReduceError>)
    ensures r == ReduceSpec(word, values)
  {
    var cache: seq<string> := [];
    var i := 0;
    while i < |values|
      invariant 0 <= i <= |values| && cache == values[..i]
    {
      cache := cache + [values[i]];
      i := i + 1;
    }
    assert cache == values;
    var puts: seq<Put> := [];
    var j := 0;
    while j < |cache|
      invariant 0 <= j <= |cache|
      invariant ReduceSpec(word, cache[..j]) == Ok(puts)
    {
      var parsed := ParseValue(word, cache[j]);
      ReduceSnoc(word, cache, j, puts);
      if parsed.Err? {
        ReduceErrSticks(word, cache, j + 1);
        return Err(parsed.error);
      }
      if parsed.value.Some? {
        puts := puts + [parsed.value.value];
      }
      j := j + 1;
    }
    assert cache[..j] == cache;
    return Ok(puts);
  }

  /** Once a value fails, the whole reduction fails with that error. */
  lemma {:induction false} ReduceErrSticks(word: string, values: seq<string>, k: nat)
    requires k <= |values| && ReduceSpec(word, values[..k]).Err?
    ensures ReduceSpec(word, values) == ReduceSpec(word, values[..k])
    decreases |values| - k
  {
    if k < |values| {
      assert values[..k + 1][..k] == values[..k];
      ReduceErrSticks(word, values, k + 1);
    } else {
      assert values[..k] == values;
    }
  }

  /** The values with at least five `:`-pieces, in order: the ones the
      reducer turns into updates. */
  function LongValues(values: seq<string>): seq<string>
  {
    if values == [] then []
    else
      var v := values[|values| - 1];
      LongValues(values[..|values| - 1]) + (if |JavaSplit(v, ':')| >= 5 then [v] else [])
  }

  /** All four counts of a value with at least five pieces parse. */
  predicate CountsParse(v: string)
  {
    var parts := JavaSplit(v, ':');
    |parts| >= 5 && ParseInt(parts[1]).Some? && ParseInt(parts[2]).Some? &&
    ParseInt(parts[3]).Some? && ParseInt(parts[4]).Some?
  }

  /** `p` is the update value `v` asks for: row `word`, column `p:<url>`
      with the url the first piece, and the four counts that follow. */
  predicate Describes(word: string, v: string, p: Put)
  {
    var parts := JavaSplit(v, ':');
    |parts| >= 5 && p.row == word && p.family == "p" && p.qualifier == parts[0] &&
    ParseInt(parts[1]) == Some(p.titleCount) && ParseInt(parts[2]) == Some(p.titleTotal) &&
    ParseInt(parts[3]) == Some(p.contentCount) && ParseInt(parts[4]) == Some(p.contentTotal)
  }

  /** A successful reduction makes one update per value with at least five
      pieces, in the order of those values, the k-th described by the k-th
      such value. */
  lemma {:induction false} ReduceShape(word: string, values: seq<string>)
    ensures ReduceSpec(word, values).Ok? ==>
      var puts := ReduceSpec(word, values).value;
      var long := LongValues(values);
      |puts| == |long| && forall k :: 0 <= k < |puts| ==> Describes(word, long[k], puts[k])
    decreases |values|
  {
    if values != [] && ReduceSpec(word, values).Ok? {
      var init := values[..|values| - 1];
      var v := values[|values| - 1];
      ReduceShape(word, init);
      var puts := ReduceSpec(word, init).value;
      var long := LongValues(init);
      match ParseValue(word, v)
      case Ok(None) =>
      case Ok(Some(p)) =>
        assert Describes(word, v, p);
        var r := puts + [p];
        var l := long + [v];
        assert forall k :: 0 <= k < |puts| ==> r[k] == puts[k] && l[k] == long[k];
    }
  }

  /** The reduction fails exactly when some value with at least five
      pieces has a count that does not parse. */
  lemma {:induction false} ReduceFails(word: string, values: seq<string>)
    ensures ReduceSpec(word, values).Err? <==>
      exists k :: 0 <= k < |LongValues(values)| && !CountsParse(LongValues(values)[k])
    decreases |values|
  {
    if values != [] {
      var init := values[..|values| - 1];
      var v := values[|values| - 1];
      var long := LongValues(init);
      ReduceFails(word, init);
      var l := LongValues(values);
      assert forall k :: 0 <= k < |long| ==> l[k] == long[k];
      if |JavaSplit(v, ':')| >= 5 {
        assert l == long + [v];
        assert ParseValue(word, v).Err? <==> !CountsParse(v);
        if ReduceSpec(word, values).Err? && ReduceSpec(word, init).Ok? {
          assert !CountsParse(l[|long|]);
        }
      } else {
        assert l == long;
      }
    }
  }

  /** The reducer reads back exactly what the mapper wrote, for a
      colon-free url and counts in the 32-bit range. */
  lemma RoundTrip(word: string, url: string, tc: nat, tt: nat, cc: nat, ct: nat)
    requires ':' !in url
    requires tc <= IntMax && tt <= IntMax && cc <= IntMax && ct <= IntMax
    ensures ParseValue(word, FormatValue(url, tc, tt, cc, ct)) == Ok(Some(Put(word, "p", url, tc, tt, cc, ct)))
  {
    var parts := [url, Decimal(tc), Decimal(tt), Decimal(cc), Decimal(ct)];
    forall i | 0 <= i < |parts| ensures ':' !in parts[i] {
      if i > 0 {
        assert forall k :: 0 <= k < |parts[i]| ==> IsDigit(parts[i][k]);
      }
    }
    JavaSplitJoin(parts, ':');
    ParseDecimal(tc);
    ParseDecimal(tt);
    ParseDecimal(cc);
    ParseDecimal(ct);
  }
}
