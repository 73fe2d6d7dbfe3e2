/**
 * The two in-place sorts the node constructor relies on: `endPoints.Sort()`
 * over keys and `_items.Sort(comparer)` over items, with the comparer fixed
 * to `Ranges.CompareTo` on the items' ranges. Any sorted permutation will do,
 * so each is modelled by insertion into a sorted prefix.
 */
module Sorting {
  import opened Ranges

  /** Keys in ascending order. */
  predicate KeysInOrder(x: int, y: int)
  {
    x <= y
  }

  ghost predicate KeysSorted(s: seq<int>)
  {
    forall i, j :: 0 <= i < j < |s| ==> KeysInOrder(s[i], s[j])
  }

  /** The item comparer: `a` sorts no later than `b`. */
  predicate InOrder(a: Item, b: Item)
  {
    CompareTo(a.range, b.range) <= 0
  }

  /** Sorted ascending by the item comparer. */
  ghost predicate ItemsSorted(s: seq<Item>)
  {
    forall i, j :: 0 <= i < j < |s| ==> InOrder(s[i], s[j])
  }

  method InsertKey(s: seq<int>, x: int) returns (t: seq<int>)
    requires KeysSorted(s)
    ensures KeysSorted(t)
    ensures multiset(t) == multiset(s) + multiset{x}
  {
    var j := 0;
    while j < |s| && s[j] <= x
      invariant 0 <= j <= |s|
      invariant forall k :: 0 <= k < j ==> s[k] <= x
    {
      j := j + 1;
    }
    t := s[..j] + [x] + s[j..];
    assert s == s[..j] + s[j..];
    KeyInsertionKeepsOrder(s, j, x);
  }

  /** Placing `x` after every key not above it and before the rest keeps the list ascending. */
  lemma KeyInsertionKeepsOrder(s: seq<int>, j: nat, x: int)
    requires KeysSorted(s) && j <= |s|
    requires forall k :: 0 <= k < j ==> s[k] <= x
    requires j < |s| ==> s[j] > x
    ensures KeysSorted(s[..j] + [x] + s[j..])
  {
    var t := s[..j] + [x] + s[j..];
    forall a, b | 0 <= a < b < |t|
      ensures KeysInOrder(t[a], t[b])
    {
      if b < j {
        assert t[a] == s[a] && t[b] == s[b];
      } else if b == j {
        assert t[a] == s[a] && t[b] == x;
      } else if a < j {
        assert t[a] == s[a] && t[b] == s[b - 1];
      } else if a == j {
        assert t[a] == x && t[b] == s[b - 1];
        assert b - 1 == j || KeysInOrder(s[j], s[b - 1]);
      } else {
        assert t[a] == s[a - 1] && t[b] == s[b - 1];
      }
    }
  }

  /** Sorts a list of keys ascending. */
  method SortKeys(s: seq<int>) returns (r: seq<int>)
    ensures KeysSorted(r)
    ensures multiset(r) == multiset(s)
  {
    r := [];
    for i := 0 to |s|
      invariant KeysSorted(r)
      invariant multiset(r) == multiset(s[..i])
    {
      r := InsertKey(r, s[i]);
      assert s[..i + 1] == s[..i] + [s[i]];
    }
    assert s[..|s|] == s;
  }

  method InsertItem(s: seq<Item>, x: Item) returns (t: seq<Item>)
    requires ItemsSorted(s)
    ensures ItemsSorted(t)
    ensures multiset(t) == multiset(s) + multiset{x}
  {
    var j := 0;
    while j < |s| && CompareTo(s[j].range, x.range) <= 0
      invariant 0 <= j <= |s|
      invariant forall k :: 0 <= k < j ==> CompareTo(s[k].range, x.range) <= 0
    {
      j := j + 1;
    }
    t := s[..j] + [x] + s[j..];
    assert s == s[..j] + s[j..];
    InsertionKeepsOrder(s, j, x);
  }

  /** Placing `x` after every item not above it and before the rest keeps the list sorted. */
  lemma InsertionKeepsOrder(s: seq<Item>, j: nat, x: Item)
    requires ItemsSorted(s) && j <= |s|
    requires forall k :: 0 <= k < j ==> CompareTo(s[k].range, x.range) <= 0
    requires j < |s| ==> CompareTo(s[j].range, x.range) > 0
    ensures ItemsSorted(s[..j] + [x] + s[j..])
  {
    var t := s[..j] + [x] + s[j..];
    forall a, b | 0 <= a < b < |t|
      ensures InOrder(t[a], t[b])
    {
      if b < j {
        assert t[a] == s[a] && t[b] == s[b];
      } else if b == j {
        assert t[a] == s[a] && t[b] == x;
      } else if a < j {
        assert t[a] == s[a] && t[b] == s[b - 1];
        CompareToTotalOrder(s[a].range, x.range, s[b - 1].range);
      } else if a == j {
        assert t[a] == x && t[b] == s[b - 1];
        CompareToTotalOrder(x.range, s[j].range, s[b - 1].range);
        CompareToTotalOrder(s[j].range, x.range, s[b - 1].range);
      } else {
        assert t[a] == s[a - 1] && t[b] == s[b - 1];
      }
    }
  }

  /** Sorts items ascending by the range comparer. */
  method SortItems(s: seq<Item>) returns (r: seq<Item>)
    ensures ItemsSorted(r)
    ensures multiset(r) == multiset(s)
    ensures |r| == |s| && forall x :: x in r <==> x in s
  {
    r := [];
    for i := 0 to |s|
      invariant ItemsSorted(r)
      invariant multiset(r) == multiset(s[..i])
    {
      r := InsertItem(r, s[i]);
      assert s[..i + 1] == s[..i] + [s[i]];
    }
    assert s[..|s|] == s;
    assert |multiset(r)| == |multiset(s)|;
    assert forall x :: x in r <==> x in multiset(s);
  }
}
