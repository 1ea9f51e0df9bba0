/**
 * `_smart_merge_segments` of the extractor: the text segments of a document
 * (lines, paragraphs, cells) are cleaned and glued into one string. A
 * segment ending in '-' followed by one starting with a Latin letter is
 * joined as a hyphenated word, two CJK ends are joined directly, and
 * anything else is joined with one space.
 */
module SegmentMerger {
  import opened Wrappers
  import opened Chars
  import opened Strings
  import opened Patterns

  /** `re.sub(r'\s+', ' ', segment.strip())`. */
  function CleanSegment(seg: string): (c: string)
    ensures c == [] <==> AllSpace(seg)
  {
    CollapseSpaces(Strip(seg))
  }

  /** A cleaned, non-blank segment: whitespace normalised, none at the ends. */
  predicate Tidy(s: string)
  {
    s != [] && SpacesNormal(s) && !IsSpace(s[0]) && !IsSpace(s[|s| - 1])
  }

  lemma CleanSegmentTidy(seg: string)
    requires !AllSpace(seg)
    ensures Tidy(CleanSegment(seg))
  {
    var t := Strip(seg);
    CollapseNormal(t);
    CollapseKeepsLast(t);
  }

  /** The segments the loop keeps, cleaned, in order. */
  function Cleaned(segs: seq<string>): (cs: seq<string>)
    ensures |cs| <= |segs|
    ensures forall i :: 0 <= i < |cs| ==> cs[i] != []
  {
    if segs == [] then []
    else
      var init := Cleaned(segs[..|segs| - 1]);
      var last := segs[|segs| - 1];
      if AllSpace(last) then init else init + [CleanSegment(last)]
  }

  lemma {:induction false} CleanedTidy(segs: seq<string>)
    ensures forall i :: 0 <= i < |Cleaned(segs)| ==> Tidy(Cleaned(segs)[i])
    decreases |segs|
  {
    if segs != [] {
      var last := segs[|segs| - 1];
      CleanedTidy(segs[..|segs| - 1]);
      if !AllSpace(last) {
        CleanSegmentTidy(last);
      }
    }
  }

  function LastChar(s: string): char
    requires s != []
  {
    s[|s| - 1]
  }

  /** The hyphenation test: the previous segment ends in '-' and this one
      starts with a character whose lower case begins with an ASCII letter. */
  predicate Hyphenates(last: char, first: char)
  {
    last == '-' && LowerIsAsciiLetter(first)
  }

  predicate CjkAdjacent(last: char, first: char)
  {
    IsCjk(last) && IsCjk(first)
  }

  /** Appending the cleaned segment `c` to the text so far, whose last
      segment ended in `last`. */
  function Glue(acc: string, last: char, c: string): string
    requires c != []
  {
    if Hyphenates(last, c[0]) then TrimRightChar(acc, '-') + c
    else if CjkAdjacent(last, c[0]) then acc + c
    else acc + " " + c
  }

  /** The merge of cleaned segments, one glue step per segment. */
  function Merged(cs: seq<string>): string
    requires forall i :: 0 <= i < |cs| ==> cs[i] != []
  {
    if |cs| == 0 then ""
    else if |cs| == 1 then cs[0]
    else
      var init := cs[..|cs| - 1];
      Glue(Merged(init), LastChar(init[|init| - 1]), cs[|cs| - 1])
  }

  /** What `_smart_merge_segments` returns. */
  function MergeSpec(segs: seq<string>): string
  {
    Merged(Cleaned(segs))
  }

  // ---------------------------------------------------------------------
  // The loop of the source

  lemma CleanedStep(segs: seq<string>, i: nat)
    requires i < |segs|
    ensures Cleaned(segs[..i + 1]) ==
      Cleaned(segs[..i]) + (if AllSpace(segs[i]) then [] else [CleanSegment(segs[i])])
  {
    assert segs[..i + 1][..i] == segs[..i];
  }

  lemma MergedStep(cs: seq<string>, c: string)
    requires forall i :: 0 <= i < |cs| ==> cs[i] != []
    requires c != []
    ensures Merged(cs + [c]) == if cs == [] then c else Glue(Merged(cs), LastChar(cs[|cs| - 1]), c)
  {
    assert (cs + [c])[..|cs|] == cs;
  }

  /** `rstrip('-')` on the last buffer entry is `rstrip('-')` on the whole
      text when the entry does not start with '-'. */
  lemma {:induction false} TrimRightCharAppend(a: string, x: string, ch: char)
    requires x != [] && x[0] != ch
    ensures TrimRightChar(a + x, ch) == a + TrimRightChar(x, ch)
    decreases |x|
  {
    if x[|x| - 1] == ch {
      var y := x[..|x| - 1];
      assert (a + x)[..|a + x| - 1] == a + y;
      TrimRightCharAppend(a, y, ch);
    }
  }

  lemma TrimRightCharKeepsFirst(x: string, ch: char)
    requires x != [] && x[0] != ch
    ensures TrimRightChar(x, ch) != [] && TrimRightChar(x, ch)[0] == x[0]
  {
  }

  /** The buffer's shape: every piece after the first is non-empty and
      does not start with '-'. */
  predicate Pieces(buffer: seq<string>)
  {
    forall j :: 1 <= j < |buffer| ==> buffer[j] != [] && buffer[j][0] != '-'
  }

  /** The hyphen branch: stripping '-' from the last piece strips it from
      the whole text. */
  lemma HyphenStep(buffer: seq<string>, clean: string)
    requires buffer != [] && Pieces(buffer) && clean != [] && clean[0] != '-'
    ensures var n := |buffer| - 1;
      var b := buffer[..n] + [TrimRightChar(buffer[n], '-')] + [clean];
      Concat(b) == TrimRightChar(Concat(buffer), '-') + clean && Pieces(b)
  {
    var n := |buffer| - 1;
    var init := buffer[..n];
    var trimmed := TrimRightChar(buffer[n], '-');
    assert buffer == init + [buffer[n]];
    ConcatSnoc(init, buffer[n]);
    if n > 0 {
      TrimRightCharAppend(Concat(init), buffer[n], '-');
      TrimRightCharKeepsFirst(buffer[n], '-');
    } else {
      assert Concat(init) + buffer[n] == buffer[n];
      assert Concat(init) + trimmed == trimmed;
    }
    ConcatSnoc(init, trimmed);
    ConcatSnoc(init + [trimmed], clean);
  }

  predicate NonEmpty(cs: seq<string>)
  {
    forall i :: 0 <= i < |cs| ==> cs[i] != []
  }

  /** What the loop keeps: the buffer concatenates to the merge of the
      segments kept so far, and `lastChar` is the last character of the
      last of them. */
  predicate MergeInv(buffer: seq<string>, kept: seq<string>, lastChar: Option<char>)
  {
    && NonEmpty(kept)
    && Concat(buffer) == Merged(kept)
    && (buffer == [] <==> kept == [])
    && (kept != [] ==> lastChar == Some(LastChar(kept[|kept| - 1])))
    && Pieces(buffer)
  }

  lemma FirstStep(clean: string)
    requires clean != []
    ensures MergeInv([clean], [clean], Some(LastChar(clean)))
  {
    assert Concat([clean]) == Concat([]) + clean;
  }

  lemma HyphenBranch(buffer: seq<string>, kept: seq<string>, last: char, clean: string)
    requires MergeInv(buffer, kept, Some(last)) && buffer != []
    requires clean != [] && Hyphenates(last, clean[0])
    ensures var n := |buffer| - 1;
      MergeInv(buffer[..n] + [TrimRightChar(buffer[n], '-')] + [clean], kept + [clean], Some(LastChar(clean)))
  {
    MergedStep(kept, clean);
    HyphenStep(buffer, clean);
  }

  lemma AppendBranch(buffer: seq<string>, kept: seq<string>, last: char, clean: string, piece: string)
    requires MergeInv(buffer, kept, Some(last)) && buffer != []
    requires clean != [] && !Hyphenates(last, clean[0])
    requires piece == if CjkAdjacent(last, clean[0]) then clean else " " + clean
    ensures MergeInv(buffer + [piece], kept + [clean], Some(LastChar(clean)))
  {
    MergedStep(kept, clean);
    ConcatSnoc(buffer, piece);
    assert Merged(kept) + " " + clean == Concat(buffer) + piece || CjkAdjacent(last, clean[0]);
    assert piece != [] && piece[0] != '-';
    PiecesSnoc(buffer, piece);
    NonEmptySnoc(kept, clean);
  }

  lemma PiecesSnoc(buffer: seq<string>, piece: string)
    requires Pieces(buffer) && piece != [] && piece[0] != '-'
    ensures Pieces(buffer + [piece])
  {
    forall j | 1 <= j < |buffer + [piece]|
      ensures (buffer + [piece])[j] != [] && (buffer + [piece])[j][0] != '-'
    {
      if j < |buffer| {
        assert (buffer + [piece])[j] == buffer[j];
      }
    }
  }

  lemma NonEmptySnoc(kept: seq<string>, clean: string)
    requires NonEmpty(kept) && clean != []
    ensures NonEmpty(kept + [clean])
  {
    forall i | 0 <= i < |kept + [clean]|
      ensures (kept + [clean])[i] != []
    {
      if i < |kept| {
        assert (kept + [clean])[i] == kept[i];
      }
    }
  }

  /** One iteration of the source's loop for a non-blank cleaned segment:
      the first one is stored as it is; after a hyphen and before a letter,
      trailing hyphens are stripped from the last piece and the segment is
      appended; between two CJK characters it is appended; otherwise it is
      appended after one space. `lastChar` becomes its last character. */
  method Push(buffer: seq<string>, lastChar: Option<char>, clean: string, ghost kept: seq<string>)
      returns (buffer': seq<string>, lastChar': Option<char>)
    requires MergeInv(buffer, kept, lastChar) && clean != []
    ensures MergeInv(buffer', kept + [clean], lastChar')
  {
    var first := clean[0];
    if buffer == [] {
      FirstStep(clean);
      buffer' := [clean];
    } else if lastChar == Some('-') && LowerIsAsciiLetter(first) {
      HyphenBranch(buffer, kept, '-', clean);
      var n := |buffer| - 1;
      buffer' := buffer[..n] + [TrimRightChar(buffer[n], '-')] + [clean];
    } else if lastChar.Some? && IsCjk(lastChar.value) && IsCjk(first) {
      AppendBranch(buffer, kept, lastChar.value, clean, clean);
      buffer' := buffer + [clean];
    } else {
      AppendBranch(buffer, kept, lastChar.value, clean, " " + clean);
      buffer' := buffer + [" " + clean];
    }
    lastChar' := Some(clean[|clean| - 1]);
  }

  /** The source's loop: a buffer of pieces whose concatenation is the
      result, and the last character of the last kept segment; blank
      segments are skipped. */
  method SmartMerge(segments: seq<string>) returns (r: string)
    ensures r == MergeSpec(segments)
  {
    if segments == [] {
      return "";
    }
    var buffer: seq<string> := [];
    var lastChar: Option<char> := None;
    ghost var kept: seq<string> := [];
    var i := 0;
    while i < |segments|
      invariant 0 <= i <= |segments|
      invariant kept == Cleaned(segments[..i])
      invariant MergeInv(buffer, kept, lastChar)
    {
      CleanedStep(segments, i);
      var clean := CleanSegment(segments[i]);
      if clean != [] {
        buffer, lastChar := Push(buffer, lastChar, clean, kept);
        kept := kept + [clean];
      }
      i := i + 1;
    }
    assert segments[..i] == segments;
    r := Concat(buffer);
  }

  // ---------------------------------------------------------------------
  // Properties of the merge

  /** Blank segments are dropped: no input, or only blank segments, merge
      to "". */
  lemma {:induction false} MergeBlank(segs: seq<string>)
    requires forall i :: 0 <= i < |segs| ==> AllSpace(segs[i])
    ensures Cleaned(segs) == [] && MergeSpec(segs) == ""
  {
    if segs != [] {
      MergeBlank(segs[..|segs| - 1]);
    }
  }

  lemma {:induction false} CleanedAppend(a: seq<string>, b: seq<string>)
    ensures Cleaned(a + b) == Cleaned(a) + Cleaned(b)
    decreases |b|
  {
    if b == [] {
      assert a + b == a;
    } else {
      var b1 := b[..|b| - 1];
      assert (a + b)[..|a + b| - 1] == a + b1;
      CleanedAppend(a, b1);
    }
  }

  /** Inserting a blank segment anywhere does not change the result. */
  lemma BlankSegmentIgnored(a: seq<string>, x: string, b: seq<string>)
    requires AllSpace(x)
    ensures MergeSpec(a + [x] + b) == MergeSpec(a + b)
  {
    CleanedAppend(a + [x], b);
    CleanedAppend(a, [x]);
    CleanedAppend(a, b);
    assert Cleaned([x]) == [] by { assert [x][..0] == []; }
  }

  /** Where no two neighbours hyphenate or are both CJK, the merge is the
      segments joined by one space. */
  lemma {:induction false} MergedIsSpaceJoin(cs: seq<string>)
    requires forall i :: 0 <= i < |cs| ==> cs[i] != []
    requires forall i :: 0 < i < |cs| ==>
      !Hyphenates(LastChar(cs[i - 1]), cs[i][0]) && !CjkAdjacent(LastChar(cs[i - 1]), cs[i][0])
    ensures Merged(cs) == Join(cs, " ")
  {
    if |cs| >= 2 {
      var init := cs[..|cs| - 1];
      MergedIsSpaceJoin(init);
      assert Merged(cs) == Merged(init) + " " + cs[|cs| - 1];
    }
  }

  /** Segments that start and end with CJK characters are concatenated. */
  lemma {:induction false} MergedIsConcat(cs: seq<string>)
    requires forall i :: 0 <= i < |cs| ==> cs[i] != [] && IsCjk(cs[i][0]) && IsCjk(LastChar(cs[i]))
    ensures Merged(cs) == Concat(cs)
  {
    if |cs| >= 2 {
      var init := cs[..|cs| - 1];
      MergedIsConcat(init);
      assert Concat(init) == Concat(init[..|init| - 1]) + init[|init| - 1];
      assert !Hyphenates(LastChar(init[|init| - 1]), cs[|cs| - 1][0]);
    } else if |cs| == 1 {
      assert Concat(cs) == Concat(cs[..0]) + cs[0];
    }
  }

  /** The merge keeps whitespace normalised: single plain spaces, none at
      either end. */
  lemma {:induction false} MergedTidy(cs: seq<string>)
    requires forall i :: 0 <= i < |cs| ==> cs[i] != [] && Tidy(cs[i])
    ensures cs != [] ==> Tidy(Merged(cs))
  {
    if |cs| >= 2 {
      var init := cs[..|cs| - 1];
      MergedTidy(init);
      GlueTidy(Merged(init), LastChar(init[|init| - 1]), cs[|cs| - 1]);
    }
  }

  /** One glue step keeps the merge tidy. */
  lemma GlueTidy(acc: string, last: char, c: string)
    requires Tidy(acc) && Tidy(c)
    ensures Tidy(Glue(acc, last, c))
  {
    if Hyphenates(last, c[0]) {
      GlueTidyHyphen(acc, c);
    } else if CjkAdjacent(last, c[0]) {
      AppendPair(acc, c, Spaces);
      AppendPlain(acc, c);
      assert (acc + c)[|acc + c| - 1] == c[|c| - 1];
    } else {
      GlueTidySpace(acc, c);
    }
  }

  lemma GlueTidyHyphen(acc: string, c: string)
    requires Tidy(acc) && Tidy(c)
    ensures Tidy(TrimRightChar(acc, '-') + c)
  {
    var t := TrimRightChar(acc, '-');
    PairPrefix(acc, |t|, Spaces);
    assert PlainSpaces(t) by {
      assert forall i :: 0 <= i < |t| ==> t[i] == acc[i];
    }
    AppendPair(t, c, Spaces);
    AppendPlain(t, c);
    assert (t + c)[|t + c| - 1] == c[|c| - 1];
    if t != [] { assert (t + c)[0] == acc[0]; } else { assert t + c == c; }
  }

  lemma GlueTidySpace(acc: string, c: string)
    requires Tidy(acc) && Tidy(c)
    ensures Tidy(acc + " " + c)
  {
    var sc := " " + c;
    ConsPair(' ', c, Spaces);
    ConsPlain(' ', c);
    AppendPair(acc, sc, Spaces);
    AppendPlain(acc, sc);
    assert acc + " " + c == acc + sc;
    assert (acc + sc)[|acc + sc| - 1] == c[|c| - 1];
  }


  /** The merged text of any segments is "" or has normalised whitespace. */
  lemma MergeSpecTidy(segs: seq<string>)
    ensures var r := MergeSpec(segs); r == [] || Tidy(r)
  {
    CleanedTidy(segs);
    MergedTidy(Cleaned(segs));
  }

  /** A hyphenated line break is rejoined without the hyphen; CJK text is
      joined directly; other text with one space. */
  lemma GlueExamples()
    ensures Merged(["inter-", "national"]) == "international"
    ensures Merged(["\U{4e2d}\U{6587}", "\U{5185}\U{5bb9}"]) == "\U{4e2d}\U{6587}\U{5185}\U{5bb9}"
    ensures Merged(["Hello", "World"]) == "Hello World"
  {
    assert ["inter-", "national"][..1] == ["inter-"];
    assert TrimRightChar("inter-", '-') == "inter";
    assert ["\U{4e2d}\U{6587}", "\U{5185}\U{5bb9}"][..1] == ["\U{4e2d}\U{6587}"];
    assert ["Hello", "World"][..1] == ["Hello"];
  }
}
