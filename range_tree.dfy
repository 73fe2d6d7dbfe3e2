/**
 * The facade `IntervalTree<TKey,T>` of src/IntervalTree/RangeTree.cs: a class
 * that keeps the root node and the retained item list, and rebuilds the root
 * in place. The comparer field is not modelled as state: it is always
 * `Ranges.CompareTo` on the items' ranges, and `Rebuild` reuses it.
 */
module RangeTree {
  import opened Wrappers
  import opened Ranges
  import RangeNode

  class IntervalTree {
    var root: RangeNode.Node
    var items: seq<Item>

    /**
     * The root is valid and median-centered. Only the constructor and `Rebuild`
     * assign the root, so this holds even after the retained list was changed.
     */
    ghost predicate RootValid()
      reads this`root
    {
      RangeNode.Valid(root) && RangeNode.Centered(root)
    }

    /** In addition, the root holds exactly the retained items: no change to the list is pending. */
    ghost predicate Valid()
      reads this
    {
      && RootValid()
      && multiset(RangeNode.Elements(root)) == multiset(items)
    }

    constructor FromRoot(root: RangeNode.Node, items: seq<Item>)
      requires RangeNode.Valid(root) && RangeNode.Centered(root)
      requires multiset(RangeNode.Elements(root)) == multiset(items)
      ensures this.root == root && this.items == items
      ensures Valid()
    {
      this.root := root;
      this.items := items;
    }

    /**
     * The constructor: builds the root from the items, then retains them. It fails
     * exactly when there are no items, because building the root node fails then.
     */
    static method New(items: seq<Item>) returns (r: Result<IntervalTree, RangeNode.BuildError>)
      ensures r.Failure? <==> items == []
      ensures r.Success? ==> fresh(r.value) && r.value.Valid() && r.value.items == items
      ensures r.Success? ==> RangeNode.IsMedian(r.value.root.center, items)
    {
      var built := RangeNode.Build(items);
      if built.Failure? {
        return Failure(built.error);
      }
      var tree := new IntervalTree.FromRoot(built.value, items);
      return Success(tree);
    }

    /** The number of retained items, which is the number of items stored in the tree. */
    function Count(): (c: nat)
      reads this
      ensures Valid() ==> c == |RangeNode.Elements(root)|
    {
      assert Valid() ==> |multiset(RangeNode.Elements(root))| == |multiset(items)|;
      |items|
    }

    /** The retained items, which are the tree's items up to order. */
    function Items(): (s: seq<Item>)
      reads this
      ensures Valid() ==> multiset(s) == multiset(RangeNode.Elements(root))
    {
      items
    }

    /**
     * The root's `Query`: every item stored in the root whose range intersects
     * `q`. While no change to the retained list is pending, those are exactly
     * the retained items intersecting `q`, and each is a member of `Items`.
     */
    method Query(q: ValidRange) returns (results: seq<Item>)
      requires RootValid()
      ensures multiset(results) == multiset(RangeNode.Matching(RangeNode.Elements(root), q))
      ensures Valid() ==> multiset(results) == multiset(RangeNode.Matching(items, q))
      ensures Valid() ==> forall x :: x in results ==> x in items
    {
      results := RangeNode.Query(root, q);
      if Valid() {
        RangeNode.MatchingPermutation(RangeNode.Elements(root), items, q);
        forall x | x in results
          ensures x in items
        {
          assert x in multiset(RangeNode.Matching(items, q));
          RangeNode.MatchingMultiplicity(items, q, x);
        }
      }
    }

    /**
     * The root's `Exists`, as written: it reports a hit only in the root's own
     * list, so a true answer means some item stored in the root intersects `q`,
     * and, while no change is pending, some retained item does.
     */
    method Exists(q: ValidRange) returns (found: bool)
      requires RootValid()
      ensures found <==> RangeNode.Matching(root.items, q) != []
      ensures found ==> RangeNode.Matching(RangeNode.Elements(root), q) != []
      ensures Valid() && found ==> RangeNode.Matching(items, q) != []
    {
      found := RangeNode.Exists(root, q);
      RangeNode.OwnMatchIsQueryMatch(root, q);
      if Valid() && found {
        RangeNode.MatchingPermutation(RangeNode.Elements(root), items, q);
        assert |multiset(RangeNode.Matching(items, q))| > 0;
      }
    }

    /**
     * Rebuilds the root from the retained list, which a caller may have changed
     * since the last build. Only the root changes. With an empty list the node
     * constructor fails (the source throws) and the root is left as it was;
     * otherwise the tree is valid again over the retained items. When no change
     * was pending, every query answer stays the same multiset, so a second
     * rebuild answers exactly as the first.
     */
    method Rebuild() returns (error: Option<RangeNode.BuildError>)
      modifies this`root
      ensures items == old(items)
      ensures error.Some? <==> items == []
      ensures error.Some? ==> root == old(root)
      ensures error.None? ==> Valid()
      ensures old(Valid()) ==> forall q: ValidRange ::
        multiset(RangeNode.Matching(RangeNode.Elements(root), q))
          == multiset(RangeNode.Matching(RangeNode.Elements(old(root)), q))
    {
      ghost var wasValid := Valid();
      ghost var previous := root;
      var built := RangeNode.Build(items);
      if built.Failure? {
        return Some(built.error);
      }
      root := built.value;
      if wasValid {
        forall q: ValidRange
          ensures multiset(RangeNode.Matching(RangeNode.Elements(root), q))
                    == multiset(RangeNode.Matching(RangeNode.Elements(previous), q))
        {
          RangeNode.MatchingPermutation(RangeNode.Elements(root), RangeNode.Elements(previous), q);
        }
      }
      return None;
    }
  }
}
