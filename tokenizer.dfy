/**
 * `TextTokenizer` of the extractor: a stop-word set, built once, and the
 * filter `tokenize` applies to the part-of-speech tagger's output. The
 * tagger (jieba's `posseg.cut`) is a parameter: a function from text to
 * `(word, flag)` pairs.
 */
module Tokenizer {
  import opened Wrappers
  import opened Strings

  /** The built-in stop words. */
  const DefaultStopWords: set<string> := {
    "\U{7684}", "\U{4e86}", "\U{548c}", "\U{662f}", "\U{5c31}", "\U{90fd}", "\U{800c}", "\U{53ca}", "\U{4e0e}", "\U{7740}", "\U{6216}",
    "\U{4e00}\U{4e2a}", "\U{6ca1}\U{6709}", "\U{6211}\U{4eec}", "\U{4f60}\U{4eec}", "\U{4ed6}\U{4eec}", "\U{5b83}", "\U{5b83}\U{4eec}",
    "\U{5728}", "\U{4ece}", "\U{5bf9}", "\U{5bf9}\U{4e8e}", "\U{628a}", "\U{88ab}", "\U{8ba9}", "\U{5411}", "\U{5f80}",
    "\U{867d}\U{7136}", "\U{4f46}\U{662f}", "\U{56e0}\U{4e3a}", "\U{6240}\U{4ee5}", "\U{5982}\U{679c}", "\U{90a3}\U{4e48}", "\U{4ee5}\U{53ca}",
    "\U{4ec0}\U{4e48}", "\U{600e}\U{4e48}", "\U{54ea}\U{91cc}", "\U{54ea}\U{4e2a}", "\U{8fd9}\U{91cc}", "\U{90a3}\U{91cc}",
    "\U{5efa}\U{8bae}", "\U{610f}\U{89c1}", "\U{529e}\U{6cd5}", "\U{60c5}\U{51b5}",
    "\n", "\t", " ", "\U{3000}", "\U{a0}"
  }

  /** The first letters of the part-of-speech flags that are dropped:
      numerals, measure words, non-words, punctuation, prepositions,
      conjunctions, particles, pronouns and time words. */
  const DroppedFlagHeads: set<char> := {'m', 'q', 'x', 'w', 'p', 'c', 'u', 'r', 't'}

  predicate DroppedFlag(flag: string)
  {
    flag != [] && flag[0] in DroppedFlagHeads
  }

  /** Whether one tagged word survives, judged on its stripped form. */
  predicate Keeps(stop: set<string>, word: string, flag: string)
  {
    var w := Strip(word);
    |w| >= 2 && w !in stop && !DroppedFlag(flag)
  }

  /** The surviving words, stripped, in order. */
  function Filter(stop: set<string>, tagged: seq<(string, string)>): seq<string>
  {
    if tagged == [] then []
    else
      var init := Filter(stop, tagged[..|tagged| - 1]);
      var last := tagged[|tagged| - 1];
      if Keeps(stop, last.0, last.1) then init + [Strip(last.0)] else init
  }

  /** What `tokenize` returns: nothing for empty text; otherwise the
      filtered tagging of the text with its whitespace runs collapsed. */
  function Tokens(stop: set<string>, text: string, tagger: string -> seq<(string, string)>): seq<string>
  {
    if text == [] then [] else Filter(stop, tagger(CollapseSpaces(text)))
  }

  class TextTokenizer {
    var stopWords: set<string>

    /** The default set, extended with the stripped lines of the stop-word
        file when one was read (`external` is `None` when no path was given,
        the file does not exist or reading it failed). */
    constructor (external: Option<seq<string>>)
      ensures stopWords == DefaultStopWords +
        (if external.Some? then set i | 0 <= i < |external.value| :: Strip(external.value[i]) else {})
    {
      stopWords := DefaultStopWords;
      if external.Some? {
        var lines := external.value;
        var fromFile := set i | 0 <= i < |lines| :: Strip(lines[i]);
        stopWords := stopWords + fromFile;
      }
    }

    /** `tokenize`: empty text gives no tokens; otherwise whitespace runs
        are collapsed, the text is tagged, and the tagged words filtered. */
    method Tokenize(text: string, tagger: string -> seq<(string, string)>) returns (tokens: seq<string>)
      ensures tokens == Tokens(stopWords, text, tagger)
    {
      if text == [] {
        return [];
      }
      var words := tagger(CollapseSpaces(text));
      tokens := [];
      var i := 0;
      while i < |words|
        invariant 0 <= i <= |words|
        invariant tokens == Filter(stopWords, words[..i])
      {
        assert words[..i + 1][..i] == words[..i];
        var (word, flag) := words[i];
        var w := Strip(word);
        if |w| < 2 {
        } else if w in stopWords {
        } else if DroppedFlag(flag) {
        } else {
          tokens := tokens + [w];
        }
        i := i + 1;
      }
      assert words[..i] == words;
    }
  }

  // -----------------------------------------------------------------------
  // Properties of the filter

  /** Every token is a stripped word of at least two characters that is
      not a stop word. */
  lemma {:induction false} FilterSound(stop: set<string>, tagged: seq<(string, string)>)
    ensures forall k :: 0 <= k < |Filter(stop, tagged)| ==>
      var t := Filter(stop, tagged)[k];
      |t| >= 2 && t !in stop && Strip(t) == t
  {
    if tagged != [] {
      FilterSound(stop, tagged[..|tagged| - 1]);
      var (word, flag) := tagged[|tagged| - 1];
      StripIdempotent(word);
    }
  }

  lemma StripIdempotent(s: string)
    ensures Strip(Strip(s)) == Strip(s)
  {
    StripNoEdge(Strip(s));
  }

  /** The filter works word by word: it distributes over concatenation. */
  lemma {:induction false} FilterAppend(stop: set<string>, a: seq<(string, string)>, b: seq<(string, string)>)
    ensures Filter(stop, a + b) == Filter(stop, a) + Filter(stop, b)
    decreases |b|
  {
    if b == [] {
      assert a + b == a;
    } else {
      var b1 := b[..|b| - 1];
      assert (a + b)[..|a + b| - 1] == a + b1;
      FilterAppend(stop, a, b1);
    }
  }

  /** The tagged word `p` survives and strips to `t`. */
  predicate Yields(stop: set<string>, p: (string, string), t: string)
  {
    Keeps(stop, p.0, p.1) && Strip(p.0) == t
  }

  /** Every token comes from a tagged word that survives. */
  lemma {:induction false} FilterFrom(stop: set<string>, tagged: seq<(string, string)>, t: string)
    requires t in Filter(stop, tagged)
    ensures exists i :: 0 <= i < |tagged| && Yields(stop, tagged[i], t)
  {
    var n := |tagged| - 1;
    var init := tagged[..n];
    if t in Filter(stop, init) {
      FilterFrom(stop, init, t);
      var i :| 0 <= i < |init| && Yields(stop, init[i], t);
      assert tagged[i] == init[i];
    } else {
      assert Yields(stop, tagged[n], t);
    }
  }

  /** Every tagged word that survives gives its token. */
  lemma {:induction false} FilterHas(stop: set<string>, tagged: seq<(string, string)>, i: nat)
    requires i < |tagged| && Keeps(stop, tagged[i].0, tagged[i].1)
    ensures Strip(tagged[i].0) in Filter(stop, tagged)
  {
    var n := |tagged| - 1;
    if i == n {
      FilterLast(stop, tagged);
    } else {
      var init := tagged[..n];
      assert init[i] == tagged[i];
      FilterHas(stop, init, i);
      FilterGrows(stop, tagged, Strip(tagged[i].0));
    }
  }

  /** The last tagged word is in the filter when it survives. */
  lemma FilterLast(stop: set<string>, tagged: seq<(string, string)>)
    requires tagged != [] && Keeps(stop, tagged[|tagged| - 1].0, tagged[|tagged| - 1].1)
    ensures Strip(tagged[|tagged| - 1].0) in Filter(stop, tagged)
  {
    var rest := Filter(stop, tagged[..|tagged| - 1]);
    var last := Strip(tagged[|tagged| - 1].0);
    assert Filter(stop, tagged) == rest + [last];
    assert (rest + [last])[|rest|] == last;
  }

  /** A word in the filter stays there when one more word is tagged. */
  lemma FilterGrows(stop: set<string>, tagged: seq<(string, string)>, t: string)
    requires tagged != [] && t in Filter(stop, tagged[..|tagged| - 1])
    ensures t in Filter(stop, tagged)
  {
  }

  /** A token is produced exactly when some tagged word survives and strips
      to it. */
  lemma FilterMembers(stop: set<string>, tagged: seq<(string, string)>, t: string)
    ensures t in Filter(stop, tagged) <==> exists i :: 0 <= i < |tagged| && Yields(stop, tagged[i], t)
  {
    if t in Filter(stop, tagged) {
      FilterFrom(stop, tagged, t);
    }
    if exists i :: 0 <= i < |tagged| && Yields(stop, tagged[i], t) {
      var i :| 0 <= i < |tagged| && Yields(stop, tagged[i], t);
      FilterHas(stop, tagged, i);
    }
  }

  /** Stop words, short words and dropped flags contribute nothing. */
  lemma {:induction false} FilterDropsAll(stop: set<string>, tagged: seq<(string, string)>)
    requires forall i :: 0 <= i < |tagged| ==> !Keeps(stop, tagged[i].0, tagged[i].1)
    ensures Filter(stop, tagged) == []
  {
    if tagged != [] {
      FilterDropsAll(stop, tagged[..|tagged| - 1]);
    }
  }

  /** A stop word, whether built in or read from the file, is never a
      token. */
  lemma StopWordNeverToken(stop: set<string>, tagged: seq<(string, string)>, t: string)
    requires t in stop
    ensures t !in Filter(stop, tagged)
  {
    FilterSound(stop, tagged);
  }
}
