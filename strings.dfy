/**
 * String operations shared by the models: stripping, regular-expression
 * run replacement, joining and splitting.
 */
module Strings {
  import opened Chars

  predicate AllSpace(s: string)
  {
    forall i :: 0 <= i < |s| ==> IsSpace(s[i])
  }

  /** Number of whitespace characters at the front. */
  function LeadingSpaces(s: string): (n: nat)
    ensures n <= |s|
    ensures forall i :: 0 <= i < n ==> IsSpace(s[i])
    ensures n < |s| ==> !IsSpace(s[n])
  {
    if s != [] && IsSpace(s[0]) then 1 + LeadingSpaces(s[1..]) else 0
  }

  /** Number of whitespace characters at the end. */
  function TrailingSpaces(s: string): (n: nat)
    ensures n <= |s|
    ensures forall i :: |s| - n <= i < |s| ==> IsSpace(s[i])
    ensures n < |s| ==> !IsSpace(s[|s| - n - 1])
  {
    if s != [] && IsSpace(s[|s| - 1]) then 1 + TrailingSpaces(s[..|s| - 1]) else 0
  }

  /** Python's `rstrip(c)` for a single character `c`. */
  function TrimRightChar(s: string, c: char): (r: string)
    ensures |r| <= |s| && r == s[..|r|]
    ensures r == [] || r[|r| - 1] != c
    ensures forall i :: |r| <= i < |s| ==> s[i] == c
  {
    if s != [] && s[|s| - 1] == c then TrimRightChar(s[..|s| - 1], c) else s
  }

  /** Number of whitespace characters `strip` removes at the front. */
  function StripStart(s: string): nat
  {
    LeadingSpaces(s)
  }

  /** Python's `strip()` (and, over the shared whitespace predicate, Java's `trim()`). */
  function Strip(s: string): (r: string)
    ensures StripStart(s) + |r| <= |s| && r == s[StripStart(s)..StripStart(s) + |r|]
    ensures r == [] || (!IsSpace(r[0]) && !IsSpace(r[|r| - 1]))
  {
    var lo := LeadingSpaces(s);
    if lo == |s| then []
    else
      var n := TrailingSpaces(s);
      assert |s| - n > lo by {
        assert !IsSpace(s[lo]);
      }
      s[lo..|s| - n]
  }

  /** `strip` removes whitespace only, and gives "" exactly for blank input. */
  lemma StripRemovesSpaces(s: string)
    ensures forall i :: 0 <= i < StripStart(s) ==> IsSpace(s[i])
    ensures forall i :: StripStart(s) + |Strip(s)| <= i < |s| ==> IsSpace(s[i])
    ensures Strip(s) == [] <==> AllSpace(s)
  {
  }

  /** A property of every character survives `strip`. */
  lemma StripKeepsAll(s: string, p: char -> bool)
    requires forall i :: 0 <= i < |s| ==> p(s[i])
    ensures forall i :: 0 <= i < |Strip(s)| ==> p(Strip(s)[i])
  {
    var r := Strip(s);
    var lo := StripStart(s);
    forall i | 0 <= i < |r| ensures p(r[i]) {
      assert r[i] == s[lo + i];
    }
  }

  lemma StripNoEdge(s: string)
    requires s == [] || (!IsSpace(s[0]) && !IsSpace(s[|s| - 1]))
    ensures Strip(s) == s
  {
  }

  /** The character classes whose runs the cleaners replace. */
  datatype RunKind = Underscores | Dots | Spaces

  predicate InRun(k: RunKind, c: char)
  {
    match k
    case Underscores => c == '_'
    case Dots => c == '.'
    case Spaces => IsSpace(c)
  }

  /** Length of the maximal run of `k` characters that starts `s`. */
  function RunLen(s: string, k: RunKind): (n: nat)
    ensures n <= |s|
    ensures forall i :: 0 <= i < n ==> InRun(k, s[i])
    ensures n < |s| ==> !InRun(k, s[n])
  {
    if s != [] && InRun(k, s[0]) then 1 + RunLen(s[1..], k) else 0
  }

  /**
   * `re.sub(C{min,}, ' ', s)` for the class C of `k`: scanning left to right,
   * a run of at least `min` characters of the class starting at the scan
   * position is consumed whole and becomes one space; otherwise one
   * character is kept and the scan moves on (a suffix of a short run is
   * short as well).
   */
  function ReplaceRuns(s: string, k: RunKind, min: nat): (r: string)
    requires min >= 1
    ensures |r| <= |s| && (r == [] <==> s == [])
    ensures s != [] ==> r[0] == (if RunLen(s, k) >= min then ' ' else s[0])
    decreases |s|
  {
    if s == [] then []
    else
      var n := RunLen(s, k);
      if n >= min then [' '] + ReplaceRuns(s[n..], k, min)
      else [s[0]] + ReplaceRuns(s[1..], k, min)
  }

  /** `re.sub(r'\s+', ' ', s)`. */
  function CollapseSpaces(s: string): string
  {
    ReplaceRuns(s, Spaces, 1)
  }

  /** No two adjacent characters of class `k`. */
  predicate NoPair(s: string, k: RunKind)
    decreases |s|
  {
    |s| < 2 || (!(InRun(k, s[0]) && InRun(k, s[1])) && NoPair(s[1..], k))
  }

  /** No three adjacent characters of class `k`. */
  predicate NoTriple(s: string, k: RunKind)
    decreases |s|
  {
    |s| < 3 || (!(InRun(k, s[0]) && InRun(k, s[1]) && InRun(k, s[2])) && NoTriple(s[1..], k))
  }

  /** Every whitespace character is a plain space. */
  predicate PlainSpaces(s: string)
  {
    forall i :: 0 <= i < |s| ==> IsSpace(s[i]) ==> s[i] == ' '
  }

  /** Whitespace is normalised: plain spaces, no two of them adjacent. */
  predicate SpacesNormal(s: string)
  {
    PlainSpaces(s) && NoPair(s, Spaces)
  }

  predicate StartsWith(s: string, p: string)
  {
    |p| <= |s| && s[..|p|] == p
  }

  predicate EndsWith(s: string, p: string)
  {
    |p| <= |s| && s[|s| - |p|..] == p
  }

  /** Python's `sub in s`. */
  predicate Contains(s: string, sub: string)
    decreases |s|
  {
    StartsWith(s, sub) || (s != [] && Contains(s[1..], sub))
  }

  /** `lower()` over ASCII. */
  function LowerStr(s: string): (r: string)
    ensures |r| == |s| && forall i :: 0 <= i < |s| ==> r[i] == Lower(s[i])
  {
    seq(|s|, i requires 0 <= i < |s| => Lower(s[i]))
  }

  /** Python's `s.replace(c, "")` for one character `c`. */
  function RemoveAll(s: string, c: char): (r: string)
    ensures |r| <= |s|
  {
    if s == [] then [] else (if s[0] == c then [] else [s[0]]) + RemoveAll(s[1..], c)
  }

  lemma {:induction false} RemoveAllAppend(a: string, b: string, c: char)
    ensures RemoveAll(a + b, c) == RemoveAll(a, c) + RemoveAll(b, c)
    decreases |a|
  {
    if a == [] {
      assert a + b == b;
    } else {
      assert (a + b)[1..] == a[1..] + b;
      RemoveAllAppend(a[1..], b, c);
    }
  }

  /** Python's `sep.join(parts)`. */
  function Join(parts: seq<string>, sep: string): string
  {
    if |parts| == 0 then ""
    else if |parts| == 1 then parts[0]
    else Join(parts[..|parts| - 1], sep) + sep + parts[|parts| - 1]
  }

  /** Python's `"".join(parts)`. */
  function Concat(parts: seq<string>): string
  {
    if |parts| == 0 then "" else Concat(parts[..|parts| - 1]) + parts[|parts| - 1]
  }

  lemma JoinSnoc(parts: seq<string>, p: string, sep: string)
    requires parts != []
    ensures Join(parts + [p], sep) == Join(parts, sep) + sep + p
  {
    assert (parts + [p])[..|parts|] == parts;
  }

  lemma ConcatSnoc(parts: seq<string>, p: string)
    ensures Concat(parts + [p]) == Concat(parts) + p
  {
    assert (parts + [p])[..|parts|] == parts;
  }

  /** Length of the maximal prefix without whitespace. */
  function TokenLen(s: string): (n: nat)
    ensures n <= |s|
    ensures forall i :: 0 <= i < n ==> !IsSpace(s[i])
    ensures n < |s| ==> IsSpace(s[n])
  {
    if s != [] && !IsSpace(s[0]) then 1 + TokenLen(s[1..]) else 0
  }

  predicate NoSpace(s: string)
  {
    forall i :: 0 <= i < |s| ==> !IsSpace(s[i])
  }

  /** The maximal runs of non-whitespace characters, in order (Python's
      `split()` with no argument). */
  function Words(s: string): (ws: seq<string>)
    ensures forall i :: 0 <= i < |ws| ==> ws[i] != [] && NoSpace(ws[i])
    ensures ws == [] <==> AllSpace(s)
    decreases |s|
  {
    if s == [] then []
    else if IsSpace(s[0]) then Words(s[1..])
    else
      var n := TokenLen(s);
      [s[..n]] + Words(s[n..])
  }

  /** Length of the maximal prefix without a line boundary. */
  function LineLen(s: string): (n: nat)
    ensures n <= |s|
    ensures forall i :: 0 <= i < n ==> !IsLineBreak(s[i])
    ensures n < |s| ==> IsLineBreak(s[n])
  {
    if s != [] && !IsLineBreak(s[0]) then 1 + LineLen(s[1..]) else 0
  }

  /** Python's `str.splitlines()`: "\r\n" is one boundary, and a final
      boundary does not start an empty line. */
  function SplitLines(s: string): (lines: seq<string>)
    ensures forall i :: 0 <= i < |lines| ==> forall j :: 0 <= j < |lines[i]| ==> !IsLineBreak(lines[i][j])
    ensures lines == [] <==> s == []
    decreases |s|
  {
    if s == [] then []
    else
      var n := LineLen(s);
      if n == |s| then [s]
      else
        var b := if s[n] == '\r' && n + 1 < |s| && s[n + 1] == '\n' then 2 else 1;
        [s[..n]] + SplitLines(s[n + b..])
  }

  /** Index of the first `c` in `s`, or `|s|` if there is none. */
  function IndexOf(s: string, c: char): (n: nat)
    ensures n <= |s|
    ensures forall i :: 0 <= i < n ==> s[i] != c
    ensures n < |s| ==> s[n] == c
  {
    if s == [] then 0 else if s[0] == c then 0 else 1 + IndexOf(s[1..], c)
  }

  /** Index of the last `c` in `s`, or -1 if there is none (Python's `rfind`). */
  function LastIndexOf(s: string, c: char): (n: int)
    ensures -1 <= n < |s|
    ensures n >= 0 ==> s[n] == c
    ensures forall i :: n < i < |s| ==> s[i] != c
  {
    if s == [] then -1
    else if s[|s| - 1] == c then |s| - 1
    else LastIndexOf(s[..|s| - 1], c)
  }
}
