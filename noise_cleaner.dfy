/**
 * `_remove_noise_chars` of the extractor: underscore runs, dot leaders,
 * full-width parentheses and irregular whitespace are normalised, applied
 * to the merged content and to the title candidate alike.
 */
module NoiseCleaner {
  import opened Chars
  import opened Strings
  import opened Patterns

  const FullWidthLeft: char := '\U{ff08}'
  const FullWidthRight: char := '\U{ff09}'

  function AsciiParen(c: char): char
  {
    if c == FullWidthLeft then '(' else if c == FullWidthRight then ')' else c
  }

  /** The two `replace` calls: full-width parentheses become ASCII ones. */
  function NormaliseParens(s: string): (r: string)
    ensures |r| == |s|
    ensures s != [] ==> r[0] == AsciiParen(s[0])
  {
    if s == [] then [] else [AsciiParen(s[0])] + NormaliseParens(s[1..])
  }

  /** The cleaner: `_{2,}` and `\.{3,}` runs become a space, full-width
      parentheses become ASCII, whitespace runs become one space, and the
      ends are stripped. Empty input is returned as the empty string. */
  function RemoveNoise(text: string): (r: string)
    ensures |r| <= |text|
  {
    if text == [] then []
    else
      var s1 := ReplaceRuns(text, Underscores, 2);
      var s2 := ReplaceRuns(s1, Dots, 3);
      var s3 := NormaliseParens(s2);
      var s4 := CollapseSpaces(s3);
      Strip(s4)
  }

  /** What the cleaner's output looks like. */
  predicate IsClean(r: string)
  {
    && NoPair(r, Underscores)
    && NoTriple(r, Dots)
    && FullWidthLeft !in r && FullWidthRight !in r
    && SpacesNormal(r)
    && (r == [] || (!IsSpace(r[0]) && !IsSpace(r[|r| - 1])))
  }

  /** What `strip` keeps of a string it keeps clean. */
  lemma StripKeepsClean(s: string)
    requires NoPair(s, Underscores) && NoTriple(s, Dots) && SpacesNormal(s)
    requires FullWidthLeft !in s && FullWidthRight !in s
    ensures IsClean(Strip(s))
  {
    StripKeepsPatterns(s, Underscores);
    StripKeepsPatterns(s, Dots);
    StripKeepsPatterns(s, Spaces);
    StripKeepsPlain(s);
    StripKeepsAbsent(s, FullWidthLeft);
    StripKeepsAbsent(s, FullWidthRight);
  }

  // ---------------------------------------------------------------------
  // What each step establishes

  /** Replacement only ever inserts spaces. */
  lemma {:induction false} ReplaceKeepsAbsent(s: string, k: RunKind, m: nat, c: char)
    requires m >= 1 && c != ' ' && c !in s
    ensures c !in ReplaceRuns(s, k, m)
    decreases |s|
  {
    if s != [] {
      var n := RunLen(s, k);
      var rest := if n >= m then s[n..] else s[1..];
      assert c !in rest by {
        assert forall i :: 0 <= i < |rest| ==> rest[i] == s[|s| - |rest| + i];
      }
      ReplaceKeepsAbsent(rest, k, m, c);
    }
  }

  lemma {:induction false} ReplaceMakesNoPair(s: string, k: RunKind)
    requires !InRun(k, ' ')
    ensures NoPair(ReplaceRuns(s, k, 2), k)
    decreases |s|
  {
    if s != [] {
      var n := RunLen(s, k);
      if n >= 2 {
        ReplaceMakesNoPair(s[n..], k);
        ConsPair(' ', ReplaceRuns(s[n..], k, 2), k);
      } else {
        ReplaceMakesNoPair(s[1..], k);
        ConsPair(s[0], ReplaceRuns(s[1..], k, 2), k);
      }
    }
  }

  lemma {:induction false} ReplaceMakesNoTriple(s: string, k: RunKind)
    requires !InRun(k, ' ')
    ensures NoTriple(ReplaceRuns(s, k, 3), k)
    decreases |s|
  {
    if s != [] {
      var n := RunLen(s, k);
      if n >= 3 {
        ReplaceMakesNoTriple(s[n..], k);
        ConsTriple(' ', ReplaceRuns(s[n..], k, 3), k);
      } else {
        var t := s[1..];
        ReplaceMakesNoTriple(t, k);
        if n == 2 && |t| >= 2 {
          // the run of two is s[0], s[1] and s[2] ends it
          assert ReplaceRuns(t, k, 3) == [t[0]] + ReplaceRuns(t[1..], k, 3);
          assert t[1..] == s[2..];
        }
        ConsTriple(s[0], ReplaceRuns(t, k, 3), k);
      }
    }
  }

  /** Replacing runs of `k` keeps a class `j` disjoint from it and from
      the space pair-free: only characters of `k` are removed and only
      spaces inserted. */
  lemma {:induction false} ReplaceKeepsNoPair(s: string, j: RunKind, k: RunKind, m: nat)
    requires m >= 1 && j != k && !InRun(j, ' ') && NoPair(s, j)
    ensures NoPair(ReplaceRuns(s, k, m), j)
    decreases |s|
  {
    if s != [] {
      var n := RunLen(s, k);
      if n >= m {
        PairSuffix(s, n, j);
        ReplaceKeepsNoPair(s[n..], j, k, m);
        ConsPair(' ', ReplaceRuns(s[n..], k, m), j);
      } else {
        PairSuffix(s, 1, j);
        ReplaceKeepsNoPair(s[1..], j, k, m);
        ConsPair(s[0], ReplaceRuns(s[1..], k, m), j);
      }
    }
  }

  lemma {:induction false} ReplaceKeepsNoTriple(s: string, j: RunKind, k: RunKind, m: nat)
    requires m >= 1 && j != k && !InRun(j, ' ') && NoTriple(s, j)
    ensures NoTriple(ReplaceRuns(s, k, m), j)
    decreases |s|
  {
    if s != [] {
      var n := RunLen(s, k);
      if n >= m {
        TripleSuffix(s, n, j);
        ReplaceKeepsNoTriple(s[n..], j, k, m);
        ConsTriple(' ', ReplaceRuns(s[n..], k, m), j);
      } else {
        var t := s[1..];
        TripleSuffix(s, 1, j);
        ReplaceKeepsNoTriple(t, j, k, m);
        if |t| >= 2 && InRun(j, t[0]) {
          OtherRunKept(t, j, k, m);
          assert t[1..] == s[2..];
        }
        ConsTriple(s[0], ReplaceRuns(t, k, m), j);
      }
    }
  }
  /** A character of another run kind starts no run of `k`, so it is kept. */
  lemma OtherRunKept(t: string, j: RunKind, k: RunKind, m: nat)
    requires m >= 1 && j != k && t != [] && InRun(j, t[0])
    ensures ReplaceRuns(t, k, m) == [t[0]] + ReplaceRuns(t[1..], k, m)
  {
    assert RunLen(t, k) == 0;
  }


  lemma {:induction false} ParensKeepClasses(s: string, k: RunKind)
    ensures NoPair(NormaliseParens(s), k) == NoPair(s, k)
    ensures NoTriple(NormaliseParens(s), k) == NoTriple(s, k)
    decreases |s|
  {
    if s != [] {
      ParensKeepClasses(s[1..], k);
      if |s| >= 2 {
        assert NormaliseParens(s)[1] == AsciiParen(s[1]);
      }
      if |s| >= 3 {
        assert NormaliseParens(s)[2] == NormaliseParens(s[1..])[1] == NormaliseParens(s[2..])[0];
      }
      ConsPair(AsciiParen(s[0]), NormaliseParens(s[1..]), k);
      ConsPair(s[0], s[1..], k);
      ConsTriple(AsciiParen(s[0]), NormaliseParens(s[1..]), k);
      ConsTriple(s[0], s[1..], k);
      assert s == [s[0]] + s[1..];
    }
  }

  lemma {:induction false} ParensRemoveFullWidth(s: string)
    ensures FullWidthLeft !in NormaliseParens(s) && FullWidthRight !in NormaliseParens(s)
    decreases |s|
  {
    if s != [] {
      ParensRemoveFullWidth(s[1..]);
    }
  }

  // ---------------------------------------------------------------------
  // Clean strings are fixed by each step

  lemma {:induction false} PairIdentity(s: string, k: RunKind)
    requires NoPair(s, k)
    ensures ReplaceRuns(s, k, 2) == s
    decreases |s|
  {
    if s != [] {
      assert RunLen(s, k) < 2 by {
        if |s| >= 2 && InRun(k, s[0]) { assert RunLen(s[1..], k) == 0; }
      }
      PairIdentity(s[1..], k);
      assert s == [s[0]] + s[1..];
    }
  }

  lemma {:induction false} TripleIdentity(s: string, k: RunKind)
    requires NoTriple(s, k)
    ensures ReplaceRuns(s, k, 3) == s
    decreases |s|
  {
    if s != [] {
      assert RunLen(s, k) < 3 by {
        if |s| >= 3 && InRun(k, s[0]) && InRun(k, s[1]) {
          assert RunLen(s[1..], k) == 1 + RunLen(s[2..], k);
          assert RunLen(s[2..], k) == 0;
        }
      }
      TripleIdentity(s[1..], k);
      assert s == [s[0]] + s[1..];
    }
  }

  lemma {:induction false} CollapseIdentity(s: string)
    requires SpacesNormal(s)
    ensures CollapseSpaces(s) == s
    decreases |s|
  {
    if s != [] {
      ConsPlain(s[0], s[1..]);
      assert s == [s[0]] + s[1..];
      if IsSpace(s[0]) {
        assert RunLen(s[1..], Spaces) == 0;
      }
      CollapseIdentity(s[1..]);
    }
  }

  lemma {:induction false} ParensIdentity(s: string)
    requires FullWidthLeft !in s && FullWidthRight !in s
    ensures NormaliseParens(s) == s
    decreases |s|
  {
    if s != [] {
      assert s[0] in s;
      assert forall c :: c in s[1..] ==> c in s;
      ParensIdentity(s[1..]);
      assert s == [s[0]] + s[1..];
    }
  }

  // ---------------------------------------------------------------------
  // The properties of the cleaner

  /** Every output of the cleaner is clean. */
  lemma RemoveNoiseIsClean(text: string)
    ensures IsClean(RemoveNoise(text))
  {
    if text != [] {
      var s1 := ReplaceRuns(text, Underscores, 2);
      var s2 := ReplaceRuns(s1, Dots, 3);
      var s3 := NormaliseParens(s2);
      var s4 := CollapseSpaces(s3);
      ReplaceMakesNoPair(text, Underscores);
      ReplaceMakesNoTriple(s1, Dots);
      ReplaceKeepsNoPair(s1, Underscores, Dots, 3);
      ParensKeepClasses(s2, Underscores);
      ParensKeepClasses(s2, Dots);
      ParensRemoveFullWidth(s2);
      ReplaceKeepsNoPair(s3, Underscores, Spaces, 1);
      ReplaceKeepsNoTriple(s3, Dots, Spaces, 1);
      CollapseNormal(s3);
      ReplaceKeepsAbsent(s3, Spaces, 1, FullWidthLeft);
      ReplaceKeepsAbsent(s3, Spaces, 1, FullWidthRight);
      StripKeepsClean(s4);
    }
  }

  /** Clean strings are exactly the fixed points of the cleaner. */
  lemma FixedPointsAreClean(r: string)
    ensures RemoveNoise(r) == r <==> IsClean(r)
  {
    RemoveNoiseIsClean(r);
    if IsClean(r) && r != [] {
      PairIdentity(r, Underscores);
      TripleIdentity(r, Dots);
      ParensIdentity(r);
      CollapseIdentity(r);
      StripNoEdge(r);
    }
  }

  /** Cleaning twice is cleaning once. */
  lemma RemoveNoiseIdempotent(text: string)
    ensures RemoveNoise(RemoveNoise(text)) == RemoveNoise(text)
  {
    RemoveNoiseIsClean(text);
    FixedPointsAreClean(RemoveNoise(text));
  }

  lemma {:induction false} PairSubstring(s: string)
    ensures Contains(s, "__") ==> !NoPair(s, Underscores)
    decreases |s|
  {
    if Contains(s, "__") {
      if StartsWith(s, "__") {
        assert s[0] == s[..2][0] && s[1] == s[..2][1];
      } else {
        PairSubstring(s[1..]);
      }
    }
  }

  lemma {:induction false} TripleSubstring(s: string)
    ensures Contains(s, "...") ==> !NoTriple(s, Dots)
    decreases |s|
  {
    if Contains(s, "...") {
      if StartsWith(s, "...") {
        assert s[0] == s[..3][0] && s[1] == s[..3][1] && s[2] == s[..3][2];
      } else {
        TripleSubstring(s[1..]);
      }
    }
  }

  lemma {:induction false} PairAdjacent(s: string, k: RunKind)
    requires NoPair(s, k)
    ensures forall i, j :: 0 <= i < j < |s| && j == i + 1 ==> !(InRun(k, s[i]) && InRun(k, s[j]))
    decreases |s|
  {
    if |s| >= 2 {
      PairAdjacent(s[1..], k);
      forall i, j | 0 < i < j < |s| && j == i + 1 ensures s[i] == s[1..][i - 1] && s[j] == s[1..][j - 1] {
      }
    }
  }

  /** A clean string in the terms of the source: no "__", no "...", no
      full-width parentheses, no whitespace other than single spaces, and
      nothing to strip at either end. */
  lemma CleanMeans(r: string)
    requires IsClean(r)
    ensures !Contains(r, "__") && !Contains(r, "...")
    ensures FullWidthLeft !in r && FullWidthRight !in r
    ensures forall i :: 0 <= i < |r| ==> IsSpace(r[i]) ==> r[i] == ' '
    ensures forall i, j :: 0 <= i < j < |r| && j == i + 1 ==> !(IsSpace(r[i]) && IsSpace(r[j]))
    ensures Strip(r) == r
  {
    PairSubstring(r);
    TripleSubstring(r);
    PairAdjacent(r, Spaces);
    StripNoEdge(r);
  }

  /** The cleaner's output has all of these properties; empty input gives "". */
  lemma RemoveNoiseOutput(text: string)
    ensures var r := RemoveNoise(text);
      && !Contains(r, "__") && !Contains(r, "...")
      && FullWidthLeft !in r && FullWidthRight !in r
      && (forall i :: 0 <= i < |r| ==> IsSpace(r[i]) ==> r[i] == ' ')
      && (forall i, j :: 0 <= i < j < |r| && j == i + 1 ==> !(IsSpace(r[i]) && IsSpace(r[j])))
      && Strip(r) == r
    ensures text == [] ==> RemoveNoise(text) == []
  {
    RemoveNoiseIsClean(text);
    CleanMeans(RemoveNoise(text));
  }
}
