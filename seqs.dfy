/** Sequence helpers: keep-and-transform in one pass, and its behaviour on
    concatenation and on permutations. */
module Seqs {
  import opened Wrappers

  /** The images `u` of the elements `x` of `s` with `f(x) == Some(u)`, in order. */
  function FilterMap<T, U>(s: seq<T>, f: T -> Option<U>): (r: seq<U>)
    ensures |r| <= |s|
  {
    if s == [] then []
    else
      var rest := FilterMap(s[1..], f);
      match f(s[0])
      case Some(u) => [u] + rest
      case None => rest
  }

  lemma {:induction false} FilterMapAppend<T, U>(a: seq<T>, b: seq<T>, f: T -> Option<U>)
    ensures FilterMap(a + b, f) == FilterMap(a, f) + FilterMap(b, f)
  {
    if a != [] {
      assert (a + b)[1..] == a[1..] + b;
      FilterMapAppend(a[1..], b, f);
    } else {
      assert a + b == b;
    }
  }

  /** The first element's image, then the images of the rest. */
  lemma FilterMapCons<T, U>(s: seq<T>, f: T -> Option<U>)
    requires s != []
    ensures FilterMap(s, f) == FilterMap([s[0]], f) + FilterMap(s[1..], f)
  {
    assert [s[0]][1..] == [];
  }

  /** Reordering the input only reorders the output. */
  lemma {:induction false} FilterMapPermutation<T, U>(a: seq<T>, b: seq<T>, f: T -> Option<U>)
    requires multiset(a) == multiset(b)
    ensures multiset(FilterMap(a, f)) == multiset(FilterMap(b, f))
    decreases |a|
  {
    if a == [] {
      assert |b| == |multiset(b)| == 0;
    } else {
      var x := a[0];
      assert x in multiset(b);
      var i :| 0 <= i < |b| && b[i] == x;
      var b' := b[..i] + b[i + 1..];
      assert b == b[..i] + [x] + b[i + 1..];
      assert a == [x] + a[1..];
      assert multiset(a) == multiset{x} + multiset(a[1..]);
      assert multiset(b) == multiset(b[..i]) + multiset{x} + multiset(b[i + 1..]);
      assert multiset(b') == multiset(b[..i]) + multiset(b[i + 1..]);
      assert multiset(a[1..]) == multiset(a) - multiset{x};
      assert multiset(b') == multiset(b) - multiset{x};
      FilterMapPermutation(a[1..], b', f);
      FilterMapAppend(b[..i] + [x], b[i + 1..], f);
      FilterMapAppend(b[..i], [x], f);
      FilterMapAppend(b[..i], b[i + 1..], f);
      FilterMapAppend([x], a[1..], f);
    }
  }
}
