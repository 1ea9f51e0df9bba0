/**
 * Facts about the pattern predicates of `Strings`: how they behave under
 * prepending a character, appending, slicing, `strip` and whitespace
 * collapsing.
 */
module Patterns {
  import opened Chars
  import opened Strings

  // ---------------------------------------------------------------------
  // The pattern predicates on a character followed by a string

  lemma ConsPair(c: char, t: string, k: RunKind)
    ensures NoPair([c] + t, k) <==> (t == [] || !(InRun(k, c) && InRun(k, t[0]))) && NoPair(t, k)
  {
    assert ([c] + t)[1..] == t;
  }

  lemma ConsTriple(c: char, t: string, k: RunKind)
    ensures NoTriple([c] + t, k) <==>
      (|t| < 2 || !(InRun(k, c) && InRun(k, t[0]) && InRun(k, t[1]))) && NoTriple(t, k)
  {
    assert ([c] + t)[1..] == t;
  }

  lemma ConsPlain(c: char, t: string)
    ensures PlainSpaces([c] + t) <==> (IsSpace(c) ==> c == ' ') && PlainSpaces(t)
  {
    var s := [c] + t;
    assert forall i :: 0 < i < |s| ==> s[i] == t[i - 1];
    if (IsSpace(c) ==> c == ' ') && PlainSpaces(t) {
      forall i | 0 <= i < |s| && IsSpace(s[i]) ensures s[i] == ' ' {
        if i > 0 { assert s[i] == t[i - 1]; }
      }
    }
    if PlainSpaces(s) {
      assert s[0] == c;
      forall i | 0 <= i < |t| ensures IsSpace(t[i]) ==> t[i] == ' ' {
        assert t[i] == s[i + 1];
        assert IsSpace(s[i + 1]) ==> s[i + 1] == ' ';
      }
    }
  }

  // ---------------------------------------------------------------------
  // Slices keep the patterns absent

  lemma {:induction false} PairSuffix(s: string, lo: nat, k: RunKind)
    requires lo <= |s| && NoPair(s, k)
    ensures NoPair(s[lo..], k)
    decreases lo
  {
    if lo > 0 {
      PairSuffix(s[1..], lo - 1, k);
      assert s[1..][lo - 1..] == s[lo..];
    }
  }

  lemma {:induction false} PairPrefix(s: string, hi: nat, k: RunKind)
    requires hi <= |s| && NoPair(s, k)
    ensures NoPair(s[..hi], k)
    decreases hi
  {
    if hi >= 2 {
      var t := s[..hi];
      assert t[0] == s[0] && t[1] == s[1];
      assert t[1..] == s[1..][..hi - 1];
      PairPrefix(s[1..], hi - 1, k);
    }
  }

  lemma {:induction false} TripleSuffix(s: string, lo: nat, k: RunKind)
    requires lo <= |s| && NoTriple(s, k)
    ensures NoTriple(s[lo..], k)
    decreases lo
  {
    if lo > 0 {
      assert s[lo..] == s[1..][lo - 1..];
      TripleSuffix(s[1..], lo - 1, k);
    }
  }

  lemma {:induction false} TriplePrefix(s: string, hi: nat, k: RunKind)
    requires hi <= |s| && NoTriple(s, k)
    ensures NoTriple(s[..hi], k)
    decreases hi
  {
    if hi >= 3 {
      var t := s[..hi];
      assert t[0] == s[0] && t[1] == s[1] && t[2] == s[2];
      assert t[1..] == s[1..][..hi - 1];
      TriplePrefix(s[1..], hi - 1, k);
    }
  }

  lemma StripKeepsPatterns(s: string, k: RunKind)
    ensures NoPair(s, k) ==> NoPair(Strip(s), k)
    ensures NoTriple(s, k) ==> NoTriple(Strip(s), k)
  {
    var lo := StripStart(s);
    var r := Strip(s);
    assert r == s[lo..][..|r|];
    if NoPair(s, k) {
      PairSuffix(s, lo, k);
      PairPrefix(s[lo..], |r|, k);
    }
    if NoTriple(s, k) {
      TripleSuffix(s, lo, k);
      TriplePrefix(s[lo..], |r|, k);
    }
  }

  lemma StripKeepsPlain(s: string)
    requires PlainSpaces(s)
    ensures PlainSpaces(Strip(s))
  {
    var lo := StripStart(s);
    var r := Strip(s);
    forall i | 0 <= i < |r| ensures IsSpace(r[i]) ==> r[i] == ' ' {
      assert r[i] == s[lo + i];
    }
  }

  lemma StripKeepsAbsent(s: string, c: char)
    requires c !in s
    ensures c !in Strip(s)
  {
    var lo := StripStart(s);
    var r := Strip(s);
    assert forall i :: 0 <= i < |r| ==> r[i] == s[lo + i];
  }

  lemma {:induction false} CollapseNormal(s: string)
    ensures SpacesNormal(CollapseSpaces(s))
    decreases |s|
  {
    if s != [] {
      var n := RunLen(s, Spaces);
      if n >= 1 {
        CollapseNormal(s[n..]);
        ConsPair(' ', CollapseSpaces(s[n..]), Spaces);
        ConsPlain(' ', CollapseSpaces(s[n..]));
      } else {
        CollapseNormal(s[1..]);
        ConsPair(s[0], CollapseSpaces(s[1..]), Spaces);
        ConsPlain(s[0], CollapseSpaces(s[1..]));
      }
    }
  }


  lemma {:induction false} CollapseKeepsLast(s: string)
    requires s != [] && !IsSpace(s[|s| - 1])
    ensures var r := CollapseSpaces(s); r != [] && r[|r| - 1] == s[|s| - 1]
    decreases |s|
  {
    var n := RunLen(s, Spaces);
    if n >= 1 {
      CollapseKeepsLast(s[n..]);
    } else if |s| >= 2 {
      CollapseKeepsLast(s[1..]);
    }
  }

  /** A pattern-free string followed by another stays pattern-free when the
      junction is not a pair. */
  lemma {:induction false} AppendPair(a: string, b: string, k: RunKind)
    requires NoPair(a, k) && NoPair(b, k)
    requires a != [] && b != [] ==> !(InRun(k, a[|a| - 1]) && InRun(k, b[0]))
    ensures NoPair(a + b, k)
    decreases |a|
  {
    if a == [] {
      assert a + b == b;
    } else {
      var t := a[1..];
      PairSuffix(a, 1, k);
      AppendPair(t, b, k);
      assert a + b == [a[0]] + (t + b);
      ConsPair(a[0], t + b, k);
    }
  }

  lemma AppendPlain(a: string, b: string)
    requires PlainSpaces(a) && PlainSpaces(b)
    ensures PlainSpaces(a + b)
  {
    var s := a + b;
    forall i | 0 <= i < |s| ensures IsSpace(s[i]) ==> s[i] == ' ' {
      if i < |a| { assert s[i] == a[i]; } else { assert s[i] == b[i - |a|]; }
    }
  }
}
