/** Keeping the first item for each non-empty key, in order: the shape of
    both the extraction driver's url-or-path de-duplication and the
    crawler's path de-duplication. */
module Dedup {

  /** The non-empty keys of `xs`. */
  function Keys<T>(xs: seq<T>, key: T -> string): set<string>
  {
    if xs == [] then {}
    else
      var k := key(xs[|xs| - 1]);
      Keys(xs[..|xs| - 1], key) + (if k != "" then {k} else {})
  }

  /** The items whose key is non-empty and is not the key of an earlier
      item, in their original order. */
  function FirstByKey<T>(xs: seq<T>, key: T -> string): seq<T>
  {
    if xs == [] then []
    else
      var init := xs[..|xs| - 1];
      var x := xs[|xs| - 1];
      var k := key(x);
      if k != "" && k !in Keys(init, key) then FirstByKey(init, key) + [x] else FirstByKey(init, key)
  }

  /** `a` is `b` with some items left out. */
  predicate Subseq<T(==)>(a: seq<T>, b: seq<T>)
    decreases |b|
  {
    if a == [] then true
    else if b == [] then false
    else if a[|a| - 1] == b[|b| - 1] then Subseq(a[..|a| - 1], b[..|b| - 1])
    else Subseq(a, b[..|b| - 1])
  }

  predicate DistinctKeys<T>(xs: seq<T>, key: T -> string)
  {
    forall i, j :: 0 <= i < j < |xs| ==> key(xs[i]) != key(xs[j])
  }

  predicate KeysNonEmpty<T>(xs: seq<T>, key: T -> string)
  {
    forall i :: 0 <= i < |xs| ==> key(xs[i]) != ""
  }

  lemma {:induction false} KeysMember<T>(xs: seq<T>, key: T -> string, k: string)
    ensures k in Keys(xs, key) <==> k != "" && exists i :: 0 <= i < |xs| && key(xs[i]) == k
    decreases |xs|
  {
    if xs != [] {
      var init := xs[..|xs| - 1];
      KeysMember(init, key, k);
      if k in Keys(init, key) {
        var i :| 0 <= i < |init| && key(init[i]) == k;
        assert xs[i] == init[i];
      }
      if k != "" && k !in Keys(init, key) && k != key(xs[|xs| - 1]) {
        forall i | 0 <= i < |xs| ensures key(xs[i]) != k {
          if i < |init| { assert xs[i] == init[i]; }
        }
      }
    }
  }

  /** The kept items carry exactly the non-empty keys of the input. */
  lemma {:induction false} FirstByKeyKeys<T>(xs: seq<T>, key: T -> string)
    ensures Keys(FirstByKey(xs, key), key) == Keys(xs, key)
    decreases |xs|
  {
    if xs != [] {
      var init := xs[..|xs| - 1];
      FirstByKeyKeys(init, key);
      var out := FirstByKey(init, key);
      var x := xs[|xs| - 1];
      if key(x) != "" && key(x) !in Keys(init, key) {
        assert (out + [x])[..|out|] == out;
      }
    }
  }

  /** No two kept items share a key, and every kept key is non-empty. */
  lemma {:induction false} FirstByKeyDistinct<T>(xs: seq<T>, key: T -> string)
    ensures DistinctKeys(FirstByKey(xs, key), key) && KeysNonEmpty(FirstByKey(xs, key), key)
    decreases |xs|
  {
    if xs != [] {
      var init := xs[..|xs| - 1];
      FirstByKeyDistinct(init, key);
      var out := FirstByKey(init, key);
      var x := xs[|xs| - 1];
      if key(x) != "" && key(x) !in Keys(init, key) {
        FirstByKeyKeys(init, key);
        forall i | 0 <= i < |out| ensures key(out[i]) != key(x) {
          KeysMember(out, key, key(out[i]));
        }
        var r := out + [x];
        assert forall i :: 0 <= i < |out| ==> r[i] == out[i];
      }
    }
  }

  /** The kept items appear in the input, in the same order. */
  lemma {:induction false} FirstByKeySubseq<T>(xs: seq<T>, key: T -> string)
    ensures Subseq(FirstByKey(xs, key), xs)
    decreases |xs|
  {
    if xs != [] {
      var init := xs[..|xs| - 1];
      FirstByKeySubseq(init, key);
      var out := FirstByKey(init, key);
      var x := xs[|xs| - 1];
      if key(x) != "" && key(x) !in Keys(init, key) {
        assert (out + [x])[..|out|] == out;
      } else if out != [] && out[|out| - 1] == x {
        SubseqDropLast(out, init);
      }
    }
  }

  lemma {:induction false} SubseqDropLast<T>(a: seq<T>, b: seq<T>)
    requires a != [] && Subseq(a, b)
    ensures Subseq(a[..|a| - 1], b)
    decreases |b|, 1
  {
    if b != [] {
      if a[|a| - 1] == b[|b| - 1] {
        SubseqWeaken(a[..|a| - 1], b);
      } else {
        SubseqDropLast(a, b[..|b| - 1]);
        SubseqWeaken(a[..|a| - 1], b);
      }
    }
  }

  lemma {:induction false} SubseqWeaken<T>(a: seq<T>, b: seq<T>)
    requires b != [] && Subseq(a, b[..|b| - 1])
    ensures Subseq(a, b)
    decreases |b|, 0
  {
    if a != [] && a[|a| - 1] == b[|b| - 1] {
      SubseqDropLast(a, b[..|b| - 1]);
    }
  }

  /** The first item with each non-empty key is kept. */
  lemma {:induction false} FirstOccurrenceKept<T>(xs: seq<T>, key: T -> string, i: nat)
    requires i < |xs| && key(xs[i]) != ""
    requires forall j :: 0 <= j < i ==> key(xs[j]) != key(xs[i])
    ensures exists m :: 0 <= m < |FirstByKey(xs, key)| && FirstByKey(xs, key)[m] == xs[i]
    decreases |xs|
  {
    var init := xs[..|xs| - 1];
    if i == |xs| - 1 {
      forall j | 0 <= j < |init| ensures key(init[j]) != key(xs[i]) {
        assert init[j] == xs[j];
      }
      KeysMember(init, key, key(xs[i]));
      var out := FirstByKey(init, key);
      assert FirstByKey(xs, key) == out + [xs[i]];
      assert FirstByKey(xs, key)[|out|] == xs[i];
    } else {
      assert init[i] == xs[i];
      FirstOccurrenceKept(init, key, i);
      var out := FirstByKey(init, key);
      var m :| 0 <= m < |out| && out[m] == xs[i];
      var x := xs[|xs| - 1];
      if key(x) != "" && key(x) !in Keys(init, key) {
        assert FirstByKey(xs, key) == out + [x];
        assert FirstByKey(xs, key)[m] == xs[i];
      } else {
        assert FirstByKey(xs, key) == out;
      }
    }
  }

  /** Input that already has distinct non-empty keys is kept whole. */
  lemma {:induction false} DistinctKept<T>(xs: seq<T>, key: T -> string)
    requires DistinctKeys(xs, key) && KeysNonEmpty(xs, key)
    ensures FirstByKey(xs, key) == xs
    decreases |xs|
  {
    if xs != [] {
      var init := xs[..|xs| - 1];
      var x := xs[|xs| - 1];
      forall i | 0 <= i < |init| ensures init[i] == xs[i] && key(init[i]) != key(x) { }
      assert DistinctKeys(init, key);
      DistinctKept(init, key);
      KeysMember(init, key, key(x));
      assert xs == init + [x];
    }
  }

  /** De-duplicating twice is de-duplicating once. */
  lemma FirstByKeyIdempotent<T>(xs: seq<T>, key: T -> string)
    ensures FirstByKey(FirstByKey(xs, key), key) == FirstByKey(xs, key)
  {
    FirstByKeyDistinct(xs, key);
    DistinctKept(FirstByKey(xs, key), key);
  }
}
