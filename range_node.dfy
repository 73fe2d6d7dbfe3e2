/**
 * The recursive node of the centered interval tree (src/IntervalTree/RangeNode.cs).
 * A node is built once and never changed, so it is a datatype value; the
 * constructor, `Query` and `Exists` are methods that fill lists with loops, as
 * the source does. Every node's own list is sorted by `Ranges.CompareTo`, the
 * only comparer the repository supplies.
 */
module RangeNode {
  import opened Wrappers
  import opened Ranges
  import opened Counting
  import opened Sorting

  /** `_center`, `_items`, `_leftNode` and `_rightNode`; an absent child is `None`. */
  datatype Node = Node(center: int, items: seq<Item>, left: Option<Node>, right: Option<Node>)

  /** The constructor indexes an empty endpoint list when it is given no items. */
  datatype BuildError = NoItems

  // ----- reference definitions -----

  /** Every item stored in the subtree: the node's own list, then the left subtree, then the right one. */
  ghost function Elements(n: Node): seq<Item>
    decreases n, 1
  {
    n.items + LeftElements(n) + RightElements(n)
  }

  /** The items of the left subtree, if there is one. */
  ghost function LeftElements(n: Node): seq<Item>
    decreases n, 0
  {
    if n.left.Some? then Elements(n.left.value) else []
  }

  /** The items of the right subtree, if there is one. */
  ghost function RightElements(n: Node): seq<Item>
    decreases n, 0
  {
    if n.right.Some? then Elements(n.right.value) else []
  }

  /**
   * The partition invariant: the own list is non-empty, sorted, and every item in
   * it contains the center; everything on the left ends before the center and
   * everything on the right starts after it.
   */
  ghost predicate Valid(n: Node)
    decreases n
  {
    && n.items != []
    && ItemsSorted(n.items)
    && (forall it :: it in n.items ==> it.range.from <= n.center <= it.range.to)
    && (n.left.Some? ==> Valid(n.left.value))
    && (n.right.Some? ==> Valid(n.right.value))
    && (forall it :: it in LeftElements(n) ==> it.range.to < n.center)
    && (forall it :: it in RightElements(n) ==> it.range.from > n.center)
  }

  /** The brute-force answer: the items of `s` whose range intersects `q`, in order. */
  ghost function Matching(s: seq<Item>, q: Range): seq<Item>
  {
    if s == [] then []
    else Matching(s[..|s| - 1], q) + (if Intersects(s[|s| - 1].range, q) then [s[|s| - 1]] else [])
  }

  /** The endpoint list the constructor collects: `From` then `To` of every item, in order. */
  ghost function Endpoints(s: seq<Item>): (e: seq<int>)
    ensures |e| == 2 * |s|
  {
    if s == [] then [] else Endpoints(s[..|s| - 1]) + [s[|s| - 1].range.from, s[|s| - 1].range.to]
  }

  /** Weight 1 for a key below `c` (or at `c`, when `inclusive`). */
  function KeysUpTo(c: int, inclusive: bool): int -> nat
  {
    x => if x < c || (inclusive && x == c) then 1 else 0
  }

  /** The number of an item's two endpoints below `c` (or at `c`, when `inclusive`). */
  function EndsUpTo(c: int, inclusive: bool): Item -> nat
  {
    (it: Item) =>
      (if it.range.from < c || (inclusive && it.range.from == c) then 1 else 0)
      + (if it.range.to < c || (inclusive && it.range.to == c) then 1 else 0)
  }

  /**
   * `c` is element `|s|` of the ascending list of the `2|s|` endpoints of `s`:
   * at most `|s|` endpoints are below `c`, and more than `|s|` are at or below it.
   */
  ghost predicate IsMedian(c: int, s: seq<Item>)
  {
    Total(s, EndsUpTo(c, false)) <= |s| < Total(s, EndsUpTo(c, true))
  }

  /** Every center in the subtree is the median endpoint of the items below it. */
  ghost predicate Centered(n: Node)
    decreases n
  {
    && IsMedian(n.center, Elements(n))
    && (n.left.Some? ==> Centered(n.left.value))
    && (n.right.Some? ==> Centered(n.right.value))
  }

  // ----- lemmas about the brute-force answer -----

  lemma {:induction false} MatchingAppend(a: seq<Item>, b: seq<Item>, q: Range)
    ensures Matching(a + b, q) == Matching(a, q) + Matching(b, q)
    decreases |b|
  {
    if b == [] {
      assert a + b == a;
    } else {
      assert (a + b)[..|a + b| - 1] == a + b[..|b| - 1];
      MatchingAppend(a, b[..|b| - 1], q);
    }
  }

  lemma {:induction false} MatchingNone(s: seq<Item>, q: Range)
    requires forall it :: it in s ==> !Intersects(it.range, q)
    ensures Matching(s, q) == []
  {
    if s != [] {
      assert s[|s| - 1] in s;
      MatchingNone(s[..|s| - 1], q);
    }
  }

  lemma {:induction false} MatchingMember(s: seq<Item>, x: Item, q: Range)
    requires x in s && Intersects(x.range, q)
    ensures x in Matching(s, q)
  {
    if s[|s| - 1] != x {
      assert s == s[..|s| - 1] + [s[|s| - 1]];
      MatchingMember(s[..|s| - 1], x, q);
    }
  }

  /** The brute-force answer keeps every intersecting item with its multiplicity and drops the rest. */
  lemma {:induction false} MatchingMultiplicity(s: seq<Item>, q: Range, x: Item)
    ensures multiset(Matching(s, q))[x] == if Intersects(x.range, q) then multiset(s)[x] else 0
  {
    if s != [] {
      var s' := s[..|s| - 1];
      assert s == s' + [s[|s| - 1]];
      MatchingMultiplicity(s', q, x);
    }
  }

  /** Reordering the stored items does not change the answer, as a multiset. */
  lemma MatchingPermutation(a: seq<Item>, b: seq<Item>, q: Range)
    requires multiset(a) == multiset(b)
    ensures multiset(Matching(a, q)) == multiset(Matching(b, q))
  {
    forall x
      ensures multiset(Matching(a, q))[x] == multiset(Matching(b, q))[x]
    {
      MatchingMultiplicity(a, q, x);
      MatchingMultiplicity(b, q, x);
    }
  }

  /** In a list sorted by the comparer, nothing from an item starting after `q` onwards can intersect `q`. */
  lemma SortedTailMisses(s: seq<Item>, i: nat, q: Range)
    requires ItemsSorted(s) && i < |s| && s[i].range.from > q.to
    ensures Matching(s, q) == Matching(s[..i], q)
  {
    forall it | it in s[i..]
      ensures !Intersects(it.range, q)
    {
      var k :| i <= k < |s| && s[k] == it;
      assert k == i || InOrder(s[i], s[k]);
      CompareToTotalOrder(s[i].range, s[k].range, s[k].range);
    }
    MatchingNone(s[i..], q);
    assert s == s[..i] + s[i..];
    MatchingAppend(s[..i], s[i..], q);
  }

  /** The brute-force answer over a node splits into its own list and its two subtrees. */
  lemma MatchingOfNode(n: Node, q: Range)
    ensures Matching(Elements(n), q) == Matching(n.items, q) + Matching(LeftElements(n), q) + Matching(RightElements(n), q)
  {
    MatchingAppend(n.items, LeftElements(n), q);
    MatchingAppend(n.items + LeftElements(n), RightElements(n), q);
  }

  /** When `q` does not start before the center, nothing on the left can intersect it. */
  lemma LeftMisses(n: Node, q: Range)
    requires Valid(n) && (n.left.None? || q.from >= n.center)
    ensures Matching(LeftElements(n), q) == []
  {
    MatchingNone(LeftElements(n), q);
  }

  /** When `q` does not end after the center, nothing on the right can intersect it. */
  lemma RightMisses(n: Node, q: Range)
    requires Valid(n) && (n.right.None? || q.to <= n.center)
    ensures Matching(RightElements(n), q) == []
  {
    MatchingNone(RightElements(n), q);
  }

  // ----- lemmas about the median -----

  lemma {:induction false} CountAtMostLength(s: seq<int>, c: int, inclusive: bool)
    ensures Total(s, KeysUpTo(c, inclusive)) <= |s|
  {
    if s != [] {
      CountAtMostLength(s[..|s| - 1], c, inclusive);
    }
  }

  lemma {:induction false} CountAll(s: seq<int>, c: int, inclusive: bool)
    requires forall k :: 0 <= k < |s| ==> s[k] < c || (inclusive && s[k] == c)
    ensures Total(s, KeysUpTo(c, inclusive)) == |s|
  {
    if s != [] {
      CountAll(s[..|s| - 1], c, inclusive);
    }
  }

  lemma {:induction false} CountNone(s: seq<int>, c: int, inclusive: bool)
    requires forall k :: 0 <= k < |s| ==> s[k] > c || (!inclusive && s[k] == c)
    ensures Total(s, KeysUpTo(c, inclusive)) == 0
  {
    if s != [] {
      CountNone(s[..|s| - 1], c, inclusive);
    }
  }

  /** In an ascending list, element `k` has at most `k` keys below it and at least `k + 1` at or below it. */
  lemma SortedRank(t: seq<int>, k: nat)
    requires KeysSorted(t) && k < |t|
    ensures Total(t, KeysUpTo(t[k], false)) <= k < Total(t, KeysUpTo(t[k], true))
  {
    SortedRankBelow(t, k);
    SortedRankUpTo(t, k);
  }

  lemma SortedRankBelow(t: seq<int>, k: nat)
    requires KeysSorted(t) && k < |t|
    ensures Total(t, KeysUpTo(t[k], false)) <= k
  {
    var c := t[k];
    assert t == t[..k] + t[k..];
    TotalAppend(t[..k], t[k..], KeysUpTo(c, false));
    CountAtMostLength(t[..k], c, false);
    assert forall j :: k <= j < |t| ==> j == k || KeysInOrder(t[k], t[j]);
    CountNone(t[k..], c, false);
  }

  lemma SortedRankUpTo(t: seq<int>, k: nat)
    requires KeysSorted(t) && k < |t|
    ensures k < Total(t, KeysUpTo(t[k], true))
  {
    var c := t[k];
    assert t == t[..k + 1] + t[k + 1..];
    TotalAppend(t[..k + 1], t[k + 1..], KeysUpTo(c, true));
    assert forall j :: 0 <= j <= k ==> j == k || KeysInOrder(t[j], t[k]);
    CountAll(t[..k + 1], c, true);
  }

  /** Counting the keys of the endpoint list up to `c` is counting each item's endpoints up to `c`. */
  lemma {:induction false} EndpointsUpTo(s: seq<Item>, c: int, inclusive: bool)
    ensures Total(Endpoints(s), KeysUpTo(c, inclusive)) == Total(s, EndsUpTo(c, inclusive))
  {
    if s != [] {
      var s' := s[..|s| - 1];
      var last := s[|s| - 1];
      var w := KeysUpTo(c, inclusive);
      EndpointsUpTo(s', c, inclusive);
      TotalAppend(Endpoints(s'), [last.range.from, last.range.to], w);
      TotalAppend([last.range.from], [last.range.to], w);
      assert [last.range.from, last.range.to] == [last.range.from] + [last.range.to];
      assert [last.range.from][..0] == [] && [last.range.to][..0] == [];
    }
  }

  /** Counting up to `c` in any arrangement of the endpoints counts the items' endpoints up to `c`. */
  lemma ArrangedEndpointsUpTo(sorted: seq<int>, s: seq<Item>, c: int, inclusive: bool)
    requires multiset(sorted) == multiset(Endpoints(s))
    ensures Total(sorted, KeysUpTo(c, inclusive)) == Total(s, EndsUpTo(c, inclusive))
  {
    TotalPermutation(sorted, Endpoints(s), KeysUpTo(c, inclusive));
    EndpointsUpTo(s, c, inclusive);
  }

  /** The element at position `|s|` of any ascending arrangement of the endpoints is the median. */
  lemma SortedEndpointsMedian(sorted: seq<int>, s: seq<Item>)
    requires KeysSorted(sorted) && multiset(sorted) == multiset(Endpoints(s)) && s != []
    ensures |sorted| == 2 * |s|
    ensures IsMedian(sorted[|s|], s)
  {
    var e := Endpoints(s);
    assert |sorted| == |e| by {
      assert |multiset(sorted)| == |multiset(e)|;
    }
    var c := sorted[|s|];
    SortedRank(sorted, |s|);
    ArrangedEndpointsUpTo(sorted, s, c, false);
    ArrangedEndpointsUpTo(sorted, s, c, true);
  }

  /** At most one key is the median endpoint of a list of items. */
  lemma MedianUnique(c: int, d: int, s: seq<Item>)
    requires IsMedian(c, s) && IsMedian(d, s)
    ensures c == d
  {
    if c < d {
      MedianBelow(c, d, s);
    } else if d < c {
      MedianBelow(d, c, s);
    }
  }

  /** A key above `c` has at least as many endpoints strictly below it as `c` has at or below it. */
  lemma MedianBelow(c: int, d: int, s: seq<Item>)
    requires c < d
    ensures Total(s, EndsUpTo(c, true)) <= Total(s, EndsUpTo(d, false))
  {
    forall i | 0 <= i < |s|
      ensures EndsUpTo(c, true)(s[i]) <= EndsUpTo(d, false)(s[i])
    {
    }
    TotalMonotone(s, EndsUpTo(c, true), EndsUpTo(d, false));
  }

  /**
   * Conversely, a median endpoint is exactly the element the constructor picks:
   * position `|s|` of any ascending arrangement of the endpoints.
   */
  lemma MedianIsSortedEndpoint(c: int, s: seq<Item>, sorted: seq<int>)
    requires KeysSorted(sorted) && multiset(sorted) == multiset(Endpoints(s)) && s != []
    requires IsMedian(c, s)
    ensures |sorted| == 2 * |s| && c == sorted[|s|]
  {
    SortedEndpointsMedian(sorted, s);
    MedianUnique(c, sorted[|s|], s);
  }

  /** The median is an endpoint of some item, so that item's range contains it. */
  lemma {:induction false} MedianOwner(c: int, s: seq<Item>) returns (owner: Item)
    requires Total(s, EndsUpTo(c, false)) < Total(s, EndsUpTo(c, true))
    ensures owner in s && (owner.range.from == c || owner.range.to == c)
    ensures Contains(owner.range, c)
  {
    var last := s[|s| - 1];
    if last.range.from != c && last.range.to != c {
      assert EndsUpTo(c, false)(last) == EndsUpTo(c, true)(last);
      owner := MedianOwner(c, s[..|s| - 1]);
    } else {
      owner := last;
    }
  }

  /** The median of a list is the median of any reordering of it. */
  lemma MedianPermutation(c: int, a: seq<Item>, b: seq<Item>)
    requires multiset(a) == multiset(b) && IsMedian(c, a)
    ensures IsMedian(c, b)
  {
    assert |a| == |multiset(a)| == |multiset(b)| == |b|;
    TotalPermutation(a, b, EndsUpTo(c, false));
    TotalPermutation(a, b, EndsUpTo(c, true));
  }

  // ----- construction -----

  /** The first loop of the constructor: every item's `From` and `To`, in order. */
  method CollectEndpoints(items: seq<Item>) returns (endPoints: seq<int>)
    ensures endPoints == Endpoints(items)
  {
    endPoints := [];
    for i := 0 to |items|
      invariant endPoints == Endpoints(items[..i])
    {
      endPoints := endPoints + [items[i].range.from, items[i].range.to];
      assert items[..i + 1][..i] == items[..i];
    }
    assert items[..|items|] == items;
  }

  /**
   * The second loop of the constructor: items ending before the center go left,
   * items starting after it go right, the rest (those containing it) stay.
   */
  method Partition(items: seq<Item>, center: int) returns (left: seq<Item>, own: seq<Item>, right: seq<Item>)
    ensures multiset(left) + multiset(own) + multiset(right) == multiset(items)
    ensures forall it :: it in left ==> it.range.to < center
    ensures forall it :: it in right ==> it.range.from > center
    ensures forall it :: it in own ==> it.range.from <= center <= it.range.to
    ensures forall it :: it in items && Contains(it.range, center) ==> it in own
    ensures |left| + |own| + |right| == |items|
  {
    left, own, right := [], [], [];
    for i := 0 to |items|
      invariant multiset(left) + multiset(own) + multiset(right) == multiset(items[..i])
      invariant forall it :: it in left ==> it.range.to < center
      invariant forall it :: it in right ==> it.range.from > center
      invariant forall it :: it in own ==> it.range.from <= center <= it.range.to
    {
      var o := items[i];
      if KeyCompare(o.range.to, center) < 0 {
        left := left + [o];
      } else if KeyCompare(o.range.from, center) > 0 {
        right := right + [o];
      } else {
        own := own + [o];
      }
      assert items[..i + 1] == items[..i] + [o];
    }
    assert items[..|items|] == items;
    assert |multiset(left) + multiset(own) + multiset(right)| == |multiset(items)|;
    forall it | it in items && Contains(it.range, center)
      ensures it in own
    {
      assert it in multiset(items);
    }
  }

  /**
   * The node constructor. It collects and sorts the endpoints, takes the one at
   * position `Count / 2` as the center (failing on an empty list, where the
   * source's index throws), splits the items into left, straddling and right,
   * sorts the straddling ones and recurses on the non-empty sides.
   */
  method Build(items: seq<Item>) returns (r: Result<Node, BuildError>)
    ensures r.Failure? <==> items == []
    ensures r.Success? ==> Valid(r.value) && Centered(r.value)
    ensures r.Success? ==> multiset(Elements(r.value)) == multiset(items)
    ensures r.Success? ==> IsMedian(r.value.center, items)
    decreases |items|
  {
    var endPoints := CollectEndpoints(items);
    endPoints := SortKeys(endPoints);
    if |endPoints| == 0 {
      // `endPoints[endPoints.Count / 2]` indexes an empty list
      return Failure(NoItems);
    }
    SortedEndpointsMedian(endPoints, items);
    var center := endPoints[|endPoints| / 2];
    assert IsMedian(center, items);

    var left, own, right := Partition(items, center);
    ghost var owner := MedianOwner(center, items);
    assert owner in own;
    var sortedOwn := SortItems(own);

    var leftNode: Option<Node> := None;
    if |left| > 0 {
      var built := Build(left);
      leftNode := Some(built.value);
    }
    var rightNode: Option<Node> := None;
    if |right| > 0 {
      var built := Build(right);
      rightNode := Some(built.value);
    }
    AssembleNode(items, center, left, sortedOwn, right, leftNode, rightNode);
    return Success(Node(center, sortedOwn, leftNode, rightNode));
  }

  /** The facts the constructor gathers make the node it returns valid, centered and a permutation of its input. */
  lemma AssembleNode(items: seq<Item>, center: int, left: seq<Item>, own: seq<Item>, right: seq<Item>,
                     leftNode: Option<Node>, rightNode: Option<Node>)
    requires multiset(left) + multiset(own) + multiset(right) == multiset(items)
    requires IsMedian(center, items)
    requires own != [] && ItemsSorted(own)
    requires forall it :: it in own ==> it.range.from <= center <= it.range.to
    requires forall it :: it in left ==> it.range.to < center
    requires forall it :: it in right ==> it.range.from > center
    requires leftNode.None? ==> left == []
    requires leftNode.Some? ==> Valid(leftNode.value) && Centered(leftNode.value)
                                && multiset(Elements(leftNode.value)) == multiset(left)
    requires rightNode.None? ==> right == []
    requires rightNode.Some? ==> Valid(rightNode.value) && Centered(rightNode.value)
                                 && multiset(Elements(rightNode.value)) == multiset(right)
    ensures Valid(Node(center, own, leftNode, rightNode))
    ensures Centered(Node(center, own, leftNode, rightNode))
    ensures multiset(Elements(Node(center, own, leftNode, rightNode))) == multiset(items)
  {
    var n := Node(center, own, leftNode, rightNode);
    assert multiset(LeftElements(n)) == multiset(left);
    assert multiset(RightElements(n)) == multiset(right);
    forall it | it in LeftElements(n)
      ensures it.range.to < center
    {
      assert it in multiset(left);
    }
    forall it | it in RightElements(n)
      ensures it.range.from > center
    {
      assert it in multiset(right);
    }
    assert multiset(Elements(n)) == multiset(items);
    MedianPermutation(center, items, Elements(n));
  }

  // ----- traversal -----

  /**
   * The scan of a node's own list inside `Query`: items are taken in ascending
   * order and the scan stops at the first one that starts after `q` ends.
   * Because the list is sorted, the result is the brute-force filter of the list.
   */
  method ScanOwn(items: seq<Item>, q: ValidRange) returns (results: seq<Item>)
    requires ItemsSorted(items)
    ensures results == Matching(items, q)
  {
    results := [];
    var i := 0;
    while i < |items|
      invariant 0 <= i <= |items|
      invariant results == Matching(items[..i], q)
    {
      var o := items[i];
      if KeyCompare(o.range.from, q.to) > 0 {
        SortedTailMisses(items, i, q);
        break;
      } else if Intersects(o.range, q) {
        results := results + [o];
      }
      assert items[..i + 1] == items[..i] + [o];
      i := i + 1;
    }
    assert items[..|items|] == items;
  }

  /**
   * All stored items whose range intersects `q`. The scan of the own list stops
   * at the first item starting after `q`; the left subtree is visited only when
   * `q` starts before the center and the right one only when `q` ends after it.
   * The answer is, as a multiset, exactly the brute-force filter of the subtree.
   */
  method Query(n: Node, q: ValidRange) returns (results: seq<Item>)
    requires Valid(n)
    ensures multiset(results) == multiset(Matching(Elements(n), q))
    decreases n
  {
    results := ScanOwn(n.items, q);
    ghost var own, left, right := Matching(n.items, q), Matching(LeftElements(n), q), Matching(RightElements(n), q);
    MatchingOfNode(n, q);

    if KeyCompare(q.from, n.center) < 0 && n.left.Some? {
      var found := Query(n.left.value, q);
      results := results + found;
    } else {
      LeftMisses(n, q);
    }
    assert multiset(results) == multiset(own) + multiset(left);
    if KeyCompare(q.to, n.center) > 0 && n.right.Some? {
      var found := Query(n.right.value, q);
      results := results + found;
    } else {
      RightMisses(n, q);
    }
    assert multiset(results) == multiset(own) + multiset(left) + multiset(right);
  }

  /**
   * The scan of a node's own list inside `Exists`: it answers true at the first
   * item intersecting `q` and gives up at the first item starting after `q`
   * ends. Because the list is sorted, it answers whether the list has a match.
   */
  method ScanOwnFinds(items: seq<Item>, q: ValidRange) returns (found: bool)
    requires ItemsSorted(items)
    ensures found <==> Matching(items, q) != []
  {
    var i := 0;
    while i < |items|
      invariant 0 <= i <= |items|
      invariant Matching(items[..i], q) == []
    {
      var o := items[i];
      if KeyCompare(o.range.from, q.to) > 0 {
        SortedTailMisses(items, i, q);
        break;
      } else if Intersects(o.range, q) {
        MatchingMember(items, o, q);
        return true;
      }
      assert items[..i + 1] == items[..i] + [o];
      i := i + 1;
    }
    assert items[..|items|] == items;
    return false;
  }

  /**
   * `Exists` as the source writes it: the own list is scanned like `Query`, the
   * subtrees are visited under the same conditions, but what those recursive
   * calls return is dropped. So the answer is whether some item of the node's
   * own list intersects `q`, and nothing more.
   */
  method Exists(n: Node, q: ValidRange) returns (found: bool)
    requires Valid(n)
    ensures found <==> Matching(n.items, q) != []
    decreases n
  {
    found := ScanOwnFinds(n.items, q);
    if found {
      return;
    }

    if KeyCompare(q.from, n.center) < 0 && n.left.Some? {
      var ignored := Exists(n.left.value, q);
    }
    if KeyCompare(q.to, n.center) > 0 && n.right.Some? {
      var ignored := Exists(n.right.value, q);
    }
    return false;
  }

  /** `Exists` with the recursive results combined: true exactly when `Query` would return something. */
  method ExistsCorrected(n: Node, q: ValidRange) returns (found: bool)
    requires Valid(n)
    ensures found <==> Matching(Elements(n), q) != []
    decreases n
  {
    found := ScanOwnFinds(n.items, q);
    if found {
      OwnMatchIsQueryMatch(n, q);
      return;
    }
    MatchingOfNode(n, q);

    if KeyCompare(q.from, n.center) < 0 && n.left.Some? {
      var below := ExistsCorrected(n.left.value, q);
      if below {
        assert |Matching(LeftElements(n), q)| > 0;
        return true;
      }
    } else {
      LeftMisses(n, q);
    }
    if KeyCompare(q.to, n.center) > 0 && n.right.Some? {
      var below := ExistsCorrected(n.right.value, q);
      if below {
        assert |Matching(RightElements(n), q)| > 0;
        return true;
      }
    } else {
      RightMisses(n, q);
    }
    return false;
  }

  /** What `Exists` reports is sound: a hit in the own list is a hit of the whole subtree. */
  lemma OwnMatchIsQueryMatch(n: Node, q: Range)
    ensures Matching(n.items, q) != [] ==> Matching(Elements(n), q) != []
  {
    MatchingOfNode(n, q);
  }

  /**
   * For the items [0,1], [5,6], [10,11] every tree the constructor can build has
   * center 6 and only [5,6] in its own list, so `Exists` on [0,0] is false while
   * the subtree (and so `Query`) holds the intersecting [0,1].
   */
  lemma ExistsMissesDescendantMatch(n: Node)
    requires Valid(n) && Centered(n)
    requires multiset(Elements(n)) == multiset([Item(0, Range(0, 1)), Item(1, Range(5, 6)), Item(2, Range(10, 11))])
    ensures n.center == 6
    ensures Matching(n.items, Range(0, 0)) == []
    ensures Item(0, Range(0, 1)) in Matching(Elements(n), Range(0, 0))
  {
    var a, b, c := Item(0, Range(0, 1)), Item(1, Range(5, 6)), Item(2, Range(10, 11));
    MedianPermutation(n.center, Elements(n), [a, b, c]);
    ScenarioMedian(n.center);
    forall it | it in n.items
      ensures !Intersects(it.range, Range(0, 0))
    {
      assert it in multiset(Elements(n));
    }
    MatchingNone(n.items, Range(0, 0));
    assert a in multiset(Elements(n));
    MatchingMember(Elements(n), a, Range(0, 0));
  }

  /** The median endpoint of [0,1], [5,6], [10,11] is 6. */
  lemma ScenarioMedian(center: int)
    requires IsMedian(center, [Item(0, Range(0, 1)), Item(1, Range(5, 6)), Item(2, Range(10, 11))])
    ensures center == 6
  {
    var a, b, c := Item(0, Range(0, 1)), Item(1, Range(5, 6)), Item(2, Range(10, 11));
    TotalOfThree(a, b, c, EndsUpTo(center, false));
    TotalOfThree(a, b, c, EndsUpTo(center, true));
  }

  lemma MatchingOfThree(a: Item, b: Item, c: Item, q: Range)
    ensures Matching([a, b, c], q)
            == (if Intersects(a.range, q) then [a] else [])
               + (if Intersects(b.range, q) then [b] else [])
               + (if Intersects(c.range, q) then [c] else [])
  {
    assert [a][..0] == [];
    assert Matching([a], q) == (if Intersects(a.range, q) then [a] else []);
    assert [a, b][..1] == [a];
    assert Matching([a, b], q) == (if Intersects(a.range, q) then [a] else []) + (if Intersects(b.range, q) then [b] else []);
    assert [a, b, c][..2] == [a, b];
  }

  /** Three meetings as ranges: [0,10], [5,15], [20,30]. */
  function MeetingItems(): seq<Item>
  {
    [Item(0, Range(0, 10)), Item(1, Range(5, 15)), Item(2, Range(20, 30))]
  }

  /**
   * Every tree the constructor can build from the scenario's items has center 15,
   * with only [5,15] in the root's own list, so `Exists` on [12,21] is true.
   */
  lemma MeetingScenarioRoot(n: Node)
    requires Valid(n) && Centered(n) && multiset(Elements(n)) == multiset(MeetingItems())
    ensures n.center == 15
    ensures forall it :: it in n.items ==> it == Item(1, Range(5, 15))
    ensures Matching(n.items, Range(12, 21)) != []
  {
    MedianPermutation(n.center, Elements(n), MeetingItems());
    MeetingScenarioMedian(n.center);
    forall it | it in n.items
      ensures it == Item(1, Range(5, 15))
    {
      assert it in multiset(Elements(n));
    }
    MatchingMember(n.items, n.items[0], Range(12, 21));
  }

  /** On the scenario's items the query [12,21] finds exactly [5,15] and [20,30]. */
  lemma MeetingScenarioOverlap(n: Node)
    requires multiset(Elements(n)) == multiset(MeetingItems())
    ensures multiset(Matching(Elements(n), Range(12, 21))) == multiset{Item(1, Range(5, 15)), Item(2, Range(20, 30))}
  {
    MatchingPermutation(Elements(n), MeetingItems(), Range(12, 21));
    MatchingOfThree(Item(0, Range(0, 10)), Item(1, Range(5, 15)), Item(2, Range(20, 30)), Range(12, 21));
  }

  /** On the scenario's items the query [16,19] falls in the gap and finds nothing. */
  lemma MeetingScenarioGap(n: Node)
    requires multiset(Elements(n)) == multiset(MeetingItems())
    ensures Matching(Elements(n), Range(16, 19)) == []
  {
    MatchingPermutation(Elements(n), MeetingItems(), Range(16, 19));
    MatchingOfThree(Item(0, Range(0, 10)), Item(1, Range(5, 15)), Item(2, Range(20, 30)), Range(16, 19));
    assert |multiset(Matching(Elements(n), Range(16, 19)))| == 0;
  }

  /** The median endpoint of [0,10], [5,15], [20,30] is 15. */
  lemma MeetingScenarioMedian(center: int)
    requires IsMedian(center, MeetingItems())
    ensures center == 15
  {
    var a, b, c := Item(0, Range(0, 10)), Item(1, Range(5, 15)), Item(2, Range(20, 30));
    TotalOfThree(a, b, c, EndsUpTo(center, false));
    TotalOfThree(a, b, c, EndsUpTo(center, true));
  }

  // ----- the scenarios run through the methods -----

  /**
   * Builds the tree over [0,1], [5,6], [10,11] and asks about [0,0]: the
   * as-written `Exists` answers false while `Query` returns [0,1].
   */
  method ExistsMissesScenario() returns (found: bool, results: seq<Item>)
    ensures !found
    ensures Item(0, Range(0, 1)) in results
  {
    var built := Build([Item(0, Range(0, 1)), Item(1, Range(5, 6)), Item(2, Range(10, 11))]);
    var n := built.value;
    ExistsMissesDescendantMatch(n);
    found := Exists(n, Range(0, 0));
    results := Query(n, Range(0, 0));
    MatchingMultiplicity(Elements(n), Range(0, 0), Item(0, Range(0, 1)));
    assert Item(0, Range(0, 1)) in multiset(results);
  }

  /**
   * The constructor on the meetings [0,10], [5,15], [20,30] succeeds; on the
   * tree it builds, [12,21] meets the root's own list and matches exactly
   * [5,15] and [20,30], and the gap [16,19] matches nothing.
   */
  method BuildMeetings() returns (n: Node)
    ensures Valid(n)
    ensures Matching(n.items, Range(12, 21)) != []
    ensures multiset(Matching(Elements(n), Range(12, 21))) == multiset{Item(1, Range(5, 15)), Item(2, Range(20, 30))}
    ensures Matching(Elements(n), Range(16, 19)) == []
  {
    var built := Build(MeetingItems());
    n := built.value;
    MeetingScenarioRoot(n);
    MeetingScenarioOverlap(n);
    MeetingScenarioGap(n);
  }

  /** Builds the tree over the meetings; `Exists` finds [12,21] at the root. */
  method MeetingScenarioExists() returns (found: bool)
    ensures found
  {
    var n := BuildMeetings();
    found := Exists(n, Range(12, 21));
  }

  /** On the same tree, `Query` returns exactly [5,15] and [20,30] for [12,21]. */
  method MeetingScenarioQuery() returns (overlap: seq<Item>)
    ensures multiset(overlap) == multiset{Item(1, Range(5, 15)), Item(2, Range(20, 30))}
  {
    var n := BuildMeetings();
    overlap := Query(n, Range(12, 21));
  }

  /** On the same tree, `Query` returns nothing for the gap [16,19]. */
  method MeetingScenarioQueryGap() returns (gap: seq<Item>)
    ensures gap == []
  {
    var n := BuildMeetings();
    gap := Query(n, Range(16, 19));
    assert |multiset(gap)| == 0;
  }
}
