/**
 * The filename heuristics of the extractor: `_clean_filename_as_title`,
 * `_is_meaningful_filename`, and the title-resolution branch of `extract`.
 */
module FilenameTitle {
  import opened Chars
  import opened Strings
  import opened PathNames
  import NoiseCleaner

  predicate IsSeparator(c: char)
  {
    c == '-' || c == '_' || c == '.'
  }

  /** `re.sub(r'[-_.]', ' ', s)`. */
  function SeparatorsToSpaces(s: string): (r: string)
    ensures |r| == |s|
    ensures forall i :: 0 <= i < |s| ==> r[i] == if IsSeparator(s[i]) then ' ' else s[i]
  {
    seq(|s|, i requires 0 <= i < |s| => if IsSeparator(s[i]) then ' ' else s[i])
  }

  /** The text both filename functions work on: the name without its
      extension, separators turned into spaces, stripped. */
  function CleanText(filename: string): string
  {
    Strip(SeparatorsToSpaces(Root(filename)))
  }

  /** `_clean_filename_as_title`. */
  function CleanFilenameAsTitle(filename: string): string
  {
    CleanText(filename)
  }

  /** The cleaned title contains no separator, comes from the name by
      turning separators into spaces (character for character), and has
      nothing left to strip. */
  lemma CleanTitleShape(filename: string)
    ensures var r := CleanFilenameAsTitle(filename);
      && (forall i :: 0 <= i < |r| ==> !IsSeparator(r[i]))
      && (r == [] || (!IsSpace(r[0]) && !IsSpace(r[|r| - 1])))
      && |r| <= |Root(filename)|
  {
    var t := SeparatorsToSpaces(Root(filename));
    var r := Strip(t);
    var lo := StripStart(t);
    forall i | 0 <= i < |r| ensures !IsSeparator(r[i]) {
      assert r[i] == t[lo + i];
    }
  }

  // ---------------------------------------------------------------------
  // The regular-expression guards

  /** `re.match(r'^\d+$', s)`. */
  predicate AllDigits(s: string)
  {
    s != [] && forall i :: 0 <= i < |s| ==> IsDigit(s[i])
  }

  /** `re.match(r'^[\d\s/-]+$', s)`. */
  predicate DateLike(s: string)
  {
    s != [] && forall i :: 0 <= i < |s| ==> IsDigit(s[i]) || IsSpace(s[i]) || s[i] == '/' || s[i] == '-'
  }

  /** `re.match(r'^[\W_]+$', s)`: no letter or digit at all. */
  predicate AllNonWord(s: string)
  {
    s != [] && forall i :: 0 <= i < |s| ==> !IsAlnum(s[i])
  }

  predicate HasUnifiedIdeograph(w: string)
  {
    exists i :: 0 <= i < |w| && IsUnifiedIdeograph(w[i])
  }

  predicate AllAlpha(w: string)
  {
    w != [] && forall i :: 0 <= i < |w| ==> IsAlpha(w[i])
  }

  const GenericWords: set<string> := {"scan", "img", "doc", "file", "temp", "untitled", "screenshot"}

  /** What one segmented word adds to the semantic length: its stripped
      length if it holds an ideograph, or if it is alphabetic, longer than
      two and not a generic word; nothing otherwise. */
  function WordWeight(word: string): (n: nat)
    ensures n <= |word|
  {
    var w := Strip(word);
    if w == [] then 0
    else if HasUnifiedIdeograph(w) then |w|
    else if AllAlpha(w) && |w| > 2 && LowerStr(w) !in GenericWords then |w|
    else 0
  }

  function SemanticLen(words: seq<string>): nat
  {
    if words == [] then 0
    else SemanticLen(words[..|words| - 1]) + WordWeight(words[|words| - 1])
  }

  /** `_is_meaningful_filename`, given the segmentation `words` of the
      cleaned text; the ratio test `semantic / total >= 0.4` in integers. */
  predicate Meaningful(filename: string, words: seq<string>)
  {
    var name := Root(filename);
    var clean := CleanText(filename);
    var compact := RemoveAll(clean, ' ');
    && |name| >= 2
    && !AllDigits(compact)
    && !DateLike(clean)
    && !AllNonWord(compact)
    && |compact| != 0
    && 5 * SemanticLen(words) >= 2 * |compact|
  }

  /** The accumulation loop of the scorer. */
  method SemanticLength(words: seq<string>) returns (semantic: nat)
    ensures semantic == SemanticLen(words)
  {
    semantic := 0;
    var i := 0;
    while i < |words|
      invariant 0 <= i <= |words|
      invariant semantic == SemanticLen(words[..i])
    {
      assert words[..i + 1][..i] == words[..i];
      var w := Strip(words[i]);
      if w == [] {
      } else if HasUnifiedIdeograph(w) {
        semantic := semantic + |w|;
      } else if AllAlpha(w) && |w| > 2 {
        if LowerStr(w) !in GenericWords {
          semantic := semantic + |w|;
        }
      }
      i := i + 1;
    }
    assert words[..i] == words;
  }

  /** The scorer as the source writes it: the guards in order, then the
      segmenter is called and the semantic length compared with the number
      of non-space characters. */
  method IsMeaningfulFilename(filename: string, lcut: string -> seq<string>) returns (good: bool)
    ensures good == Meaningful(filename, lcut(CleanText(filename)))
  {
    var name := Root(filename);
    if |name| < 2 {
      return false;
    }
    var clean := CleanText(filename);
    var compact := RemoveAll(clean, ' ');
    if AllDigits(compact) {
      return false;
    }
    if DateLike(clean) {
      return false;
    }
    if AllNonWord(compact) {
      return false;
    }
    var words := lcut(clean);
    var total := |compact|;
    if total == 0 {
      return false;
    }
    var semantic := SemanticLength(words);
    good := 5 * semantic >= 2 * total;
  }

  // ---------------------------------------------------------------------
  // Properties of the scorer

  /** A name of fewer than two characters is never meaningful. */
  lemma ShortNameRejected(filename: string, words: seq<string>)
    requires |Root(filename)| < 2
    ensures !Meaningful(filename, words)
  {
  }

  /** A name made of digits and separators only (a date, a serial number)
      is never meaningful, whatever the segmenter returns. */
  lemma NumericNameRejected(filename: string, words: seq<string>)
    requires forall i :: 0 <= i < |Root(filename)| ==> IsDigit(Root(filename)[i]) || IsSeparator(Root(filename)[i])
    ensures !Meaningful(filename, words)
  {
    var clean := CleanText(filename);
    NumericClean(Root(filename));
    if clean == [] {
      assert RemoveAll(clean, ' ') == [];
    } else {
      assert DateLike(clean);
    }
  }

  predicate DigitOrSpace(c: char)
  {
    IsDigit(c) || c == ' '
  }

  lemma NumericClean(name: string)
    requires forall i :: 0 <= i < |name| ==> IsDigit(name[i]) || IsSeparator(name[i])
    ensures var clean := Strip(SeparatorsToSpaces(name));
      forall i :: 0 <= i < |clean| ==> DigitOrSpace(clean[i])
  {
    var t := SeparatorsToSpaces(name);
    assert forall i :: 0 <= i < |t| ==> DigitOrSpace(t[i]);
    StripKeepsAll(t, DigitOrSpace);
  }

  lemma {:induction false} SemanticLenAppend(a: seq<string>, b: seq<string>)
    ensures SemanticLen(a + b) == SemanticLen(a) + SemanticLen(b)
    decreases |b|
  {
    if b != [] {
      var b1 := b[..|b| - 1];
      assert (a + b)[..|a + b| - 1] == a + b1;
      SemanticLenAppend(a, b1);
    } else {
      assert a + b == a;
    }
  }

  /** A word of ideographs counts in full; a word of spaces not at all. */
  lemma IdeographWord(w: string)
    requires IdeographToken(w)
    ensures WordWeight(w) == |RemoveAll(w, ' ')|
  {
    if w != [] && w[0] != ' ' {
      StripNoEdge(w);
      assert IsUnifiedIdeograph(w[0]);
      IdeographsKept(w);
    } else {
      SpacesRemoved(w);
    }
  }

  lemma {:induction false} IdeographsKept(w: string)
    requires forall i :: 0 <= i < |w| ==> w[i] != ' '
    ensures RemoveAll(w, ' ') == w
    decreases |w|
  {
    if w != [] {
      IdeographsKept(w[1..]);
    }
  }

  lemma {:induction false} SpacesRemoved(w: string)
    requires forall i :: 0 <= i < |w| ==> w[i] == ' '
    ensures RemoveAll(w, ' ') == [] && AllSpace(w)
    decreases |w|
  {
    if w != [] {
      SpacesRemoved(w[1..]);
    }
  }

  /** A segmentation into ideograph words and space words gives a semantic
      length equal to the number of non-space characters. */
  lemma {:induction false} IdeographWords(words: seq<string>)
    requires forall k :: 0 <= k < |words| ==> IdeographToken(words[k])
    ensures SemanticLen(words) == |RemoveAll(Concat(words), ' ')|
    decreases |words|
  {
    if words != [] {
      var init, w := words[..|words| - 1], words[|words| - 1];
      IdeographWords(init);
      IdeographWord(w);
      RemoveAllAppend(Concat(init), w, ' ');
    }
  }

  /** The first character of a string survives `replace(' ', '')` if it is
      not a space. */
  lemma RemoveAllFirst(s: string)
    requires s != [] && s[0] != ' '
    ensures RemoveAll(s, ' ') != [] && RemoveAll(s, ' ')[0] == s[0]
  {
  }

  predicate IdeographOrSpace(s: string)
  {
    forall i :: 0 <= i < |s| ==> s[i] == ' ' || IsUnifiedIdeograph(s[i])
  }

  /** A word in ideographs, or a word of spaces only. */
  predicate IdeographToken(w: string)
  {
    IdeographOrSpace(w) && ((forall i :: 0 <= i < |w| ==> w[i] == ' ') || (forall i :: 0 <= i < |w| ==> w[i] != ' '))
  }

  /** None of the regular-expression guards fires on text in ideographs
      and spaces that starts with an ideograph. */
  lemma IdeographGuards(clean: string)
    requires clean != [] && IdeographOrSpace(clean) && !IsSpace(clean[0])
    ensures var compact := RemoveAll(clean, ' ');
      !AllDigits(compact) && !DateLike(clean) && !AllNonWord(compact) && |compact| != 0
  {
    RemoveAllFirst(clean);
    assert IsUnifiedIdeograph(clean[0]);
  }

  /** A name in ideographs (with separators) that the segmenter splits into
      ideograph words and space words is meaningful: every counted
      character is semantic. */
  lemma IdeographNameAccepted(filename: string, words: seq<string>)
    requires |Root(filename)| >= 2
    requires CleanText(filename) != [] && IdeographOrSpace(CleanText(filename))
    requires Concat(words) == CleanText(filename)
    requires forall k :: 0 <= k < |words| ==> IdeographToken(words[k])
    ensures Meaningful(filename, words)
  {
    var clean := CleanText(filename);
    IdeographWords(words);
    StripShape(SeparatorsToSpaces(Root(filename)));
    IdeographGuards(clean);
  }

  lemma StripShape(s: string)
    ensures Strip(s) == [] || !IsSpace(Strip(s)[0])
  {
  }

  // ---------------------------------------------------------------------
  // Title resolution in `extract`

  /** A meaningful filename wins; otherwise the cleaned document title if it
      is longer than one character; otherwise no title. */
  function ResolveTitle(filenameGood: bool, cleanFilename: string, docTitle: string): string
  {
    var extra := NoiseCleaner.RemoveNoise(docTitle);
    if filenameGood then cleanFilename
    else if extra != [] && |Strip(extra)| > 1 then extra
    else ""
  }

  /** The three outcomes of title resolution. */
  lemma ResolveTitleCases(filenameGood: bool, cleanFilename: string, docTitle: string)
    ensures filenameGood ==> ResolveTitle(filenameGood, cleanFilename, docTitle) == cleanFilename
    ensures !filenameGood && |NoiseCleaner.RemoveNoise(docTitle)| > 1 ==>
      ResolveTitle(filenameGood, cleanFilename, docTitle) == NoiseCleaner.RemoveNoise(docTitle)
    ensures !filenameGood && |NoiseCleaner.RemoveNoise(docTitle)| <= 1 ==>
      ResolveTitle(filenameGood, cleanFilename, docTitle) == ""
  {
    var extra := NoiseCleaner.RemoveNoise(docTitle);
    NoiseCleaner.RemoveNoiseIsClean(docTitle);
    StripNoEdge(extra);
  }

  /** With a meaningful filename the document's own title is irrelevant. */
  lemma GoodFilenameIgnoresDocTitle(cleanFilename: string, t1: string, t2: string)
    ensures ResolveTitle(true, cleanFilename, t1) == ResolveTitle(true, cleanFilename, t2)
  {
  }

  /** A title taken from the document is clean and at least two characters
      long. */
  lemma DocTitleClean(cleanFilename: string, docTitle: string)
    ensures var r := ResolveTitle(false, cleanFilename, docTitle);
      r == [] || (|r| >= 2 && NoiseCleaner.IsClean(r))
  {
    NoiseCleaner.RemoveNoiseIsClean(docTitle);
  }
}
