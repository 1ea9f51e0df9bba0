/**
 * The two `os.path` functions the extractor relies on, with POSIX
 * separators: `basename` and `splitext`.
 */
module PathNames {
  import opened Strings

  /** `os.path.basename`: everything after the last '/'. */
  function Basename(p: string): (b: string)
    ensures |b| <= |p| && b == p[|p| - |b|..]
    ensures '/' !in b
    ensures |b| < |p| ==> p[|p| - |b| - 1] == '/'
  {
    if p == [] || p[|p| - 1] == '/' then []
    else Basename(p[..|p| - 1]) + [p[|p| - 1]]
  }

  predicate AllDots(s: string)
  {
    forall i :: 0 <= i < |s| ==> s[i] == '.'
  }

  /** Length of the extension `splitext` splits off: it starts at the last
      '.' of the last path component, unless every character of that
      component before it is a '.' as well (".bashrc" has none). */
  function ExtLen(p: string): (n: nat)
    ensures n <= |p|
  {
    if p == [] then 0
    else
      var c, init := p[|p| - 1], p[..|p| - 1];
      if c == '/' then 0
      else if c == '.' then (if AllDots(Basename(init)) then 0 else 1)
      else
        var e := ExtLen(init);
        if e == 0 then 0 else e + 1
  }

  /** `os.path.splitext(p)[0]`. */
  function Root(p: string): string
  {
    p[..|p| - ExtLen(p)]
  }

  /** `os.path.splitext(p)[1]`. */
  function Ext(p: string): string
  {
    p[|p| - ExtLen(p)..]
  }

  /** The extension is empty, or a '.' followed by characters that are
      neither '.' nor '/' and preceded by a component that is not all dots. */
  lemma ExtShape(p: string)
    ensures Root(p) + Ext(p) == p
    ensures var e := Ext(p);
      e == [] || (e[0] == '.' && forall i :: 1 <= i < |e| ==> e[i] != '.' && e[i] != '/')
    ensures Ext(p) != [] ==> !AllDots(Basename(Root(p)))
  {
    assert Root(p) + Ext(p) == p;
    ExtChars(p);
    ExtAfterName(p);
  }

  lemma {:induction false} ExtChars(p: string)
    ensures var e := Ext(p);
      e == [] || (e[0] == '.' && forall i :: 1 <= i < |e| ==> e[i] != '.' && e[i] != '/')
  {
    if p != [] {
      var c, init := p[|p| - 1], p[..|p| - 1];
      if c != '/' && c != '.' {
        ExtChars(init);
        if ExtLen(init) > 0 {
          assert Ext(p) == Ext(init) + [c];
        }
      }
    }
  }

  lemma {:induction false} ExtAfterName(p: string)
    ensures Ext(p) != [] ==> !AllDots(Basename(Root(p)))
  {
    if p != [] {
      var c, init := p[|p| - 1], p[..|p| - 1];
      if c != '/' && c != '.' {
        if ExtLen(init) > 0 {
          ExtAfterName(init);
          RootSnoc(p);
        }
      } else if c == '.' && !AllDots(Basename(init)) {
        assert Root(p) == init;
      }
    }
  }

  /** A character other than '/' and '.' after an extension lengthens the
      extension and leaves the root alone. */
  lemma RootSnoc(p: string)
    requires p != [] && p[|p| - 1] != '/' && p[|p| - 1] != '.' && ExtLen(p[..|p| - 1]) > 0
    ensures Root(p) == Root(p[..|p| - 1]) && Ext(p[..|p| - 1]) != []
  {
    var init := p[..|p| - 1];
    assert ExtLen(p) == ExtLen(init) + 1;
    assert p[..|p| - ExtLen(p)] == init[..|init| - ExtLen(init)];
  }

  /** A name without '.' has no extension. */
  lemma {:induction false} NoDotNoExt(p: string)
    requires forall i :: 0 <= i < |p| ==> p[i] != '.'
    ensures Ext(p) == []
  {
    if p != [] {
      NoDotNoExt(p[..|p| - 1]);
    }
  }
}
