/**
 * Weighted counting over sequences: the sum of a weight over the elements.
 * Used to count endpoints below a key, and shown to depend only on the
 * multiset of elements.
 */
module Counting {

  /** The sum of `w` over the elements of `s`, taken from the back. */
  function Total<T>(s: seq<T>, w: T -> nat): nat
  {
    if s == [] then 0 else Total(s[..|s| - 1], w) + w(s[|s| - 1])
  }

  lemma {:induction false} TotalAppend<T>(a: seq<T>, b: seq<T>, w: T -> nat)
    ensures Total(a + b, w) == Total(a, w) + Total(b, w)
    decreases |b|
  {
    if b == [] {
      assert a + b == a;
    } else {
      assert (a + b)[..|a + b| - 1] == a + b[..|b| - 1];
      TotalAppend(a, b[..|b| - 1], w);
    }
  }

  /** A weight that is nowhere larger on the elements of `s` gives a total that is no larger. */
  lemma {:induction false} TotalMonotone<T>(s: seq<T>, v: T -> nat, w: T -> nat)
    requires forall i :: 0 <= i < |s| ==> v(s[i]) <= w(s[i])
    ensures Total(s, v) <= Total(s, w)
  {
    if s != [] {
      TotalMonotone(s[..|s| - 1], v, w);
    }
  }

  /** The total is a function of the multiset of elements: reordering does not change it. */
  lemma {:induction false} TotalPermutation<T>(a: seq<T>, b: seq<T>, w: T -> nat)
    requires multiset(a) == multiset(b)
    ensures Total(a, w) == Total(b, w)
    decreases |a|
  {
    if a == [] {
      assert |b| == |multiset(b)| == 0;
    } else {
      var x := a[|a| - 1];
      var a' := a[..|a| - 1];
      assert a == a' + [x];
      assert x in multiset(b);
      var i :| 0 <= i < |b| && b[i] == x;
      var b' := b[..i] + b[i + 1..];
      assert b == b[..i] + [x] + b[i + 1..];
      assert multiset(a') == multiset(a) - multiset{x};
      assert multiset(b') == multiset(b) - multiset{x};
      TotalPermutation(a', b', w);
      TotalRemove(b, i, w);
      TotalAppend(a', [x], w);
      assert [x][..0] == [];
    }
  }

  /** Taking element `i` out of `s` lowers the total by exactly its weight. */
  lemma TotalRemove<T>(s: seq<T>, i: nat, w: T -> nat)
    requires i < |s|
    ensures Total(s, w) == Total(s[..i] + s[i + 1..], w) + w(s[i])
  {
    assert s == s[..i] + [s[i]] + s[i + 1..];
    TotalAppend(s[..i] + [s[i]], s[i + 1..], w);
    TotalAppend(s[..i], [s[i]], w);
    TotalAppend(s[..i], s[i + 1..], w);
    assert [s[i]][..0] == [];
  }

  lemma TotalOfThree<T>(a: T, b: T, c: T, w: T -> nat)
    ensures Total([a, b, c], w) == w(a) + w(b) + w(c)
  {
    assert [a][..0] == [];
    assert Total([a], w) == w(a);
    assert [a, b][..1] == [a];
    assert Total([a, b], w) == w(a) + w(b);
    assert [a, b, c][..2] == [a, b];
  }
}
