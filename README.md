# Centered interval tree, modelled in Dafny

This project models the centered interval tree of `src/IntervalTree`. It has three parts:

- **`Range<T>`** is a closed range `[From, To]`. It has validated construction, inclusive and exclusive point containment, inclusive and exclusive intersection, and a lexicographic three-way compare. Module `Ranges`, file `ranges.dfy`.
- **`Node<TKey,T>`** is the recursive node:
  - The constructor collects every item's two endpoints, sorts them and takes the median endpoint as the center.
  - It splits the items into those wholly left of the center, those wholly right of it, and those containing it.
  - It sorts the straddling items with the range comparer and recurses on the non-empty sides.
  - `Query` scans the node's own list with an early stop, then descends left and/or right.
  - `Exists` has the same shape, but drops what its recursive calls return.

  Module `RangeNode`, file `range_node.dfy`.
- **`IntervalTree<TKey,T>`** is a small facade. It holds the root and the retained item list, and can rebuild the root in place. Module `RangeTree`, file `range_tree.dfy`, where it is a class.

Supporting modules:

- `Sorting` (`sorting.dfy`) stands for `List.Sort`. It gives insertion-sort methods that return a sorted permutation of keys, and of items under `Range.CompareTo`.
- `Counting` (`counting.dfy`) is a weighted count over a sequence, used to state the median by rank.
- `Wrappers` (`wrappers.dfy`) holds `Option` and `Result`.

Modelling choices:

- Keys are `int`. `KeyCompare` is their sign-valued three-way comparison, so the `== 1` test in the range constructor means "greater than".
- An item is a datatype `Item(id, range)`, standing in for `IRangeProvider`. Duplicates are therefore visible, and answers are compared as multisets.
- The item comparer is fixed to `Range.CompareTo` on the items' ranges. That is what `MeetingComparer` in `src/IntervalTree/DomainModels.cs` does, and it is the only comparer in the repository.
- The constructors throw on bad input. In the model they return a `Result`:
  - `NewRange` fails when `from > to`;
  - `Build` and `IntervalTree.New` fail on an empty item list, where the endpoint index throws.

The correctness of the tree is stated against reference definitions:

- `Elements(n)` is every item stored in a subtree.
- `Matching(s, q)` is the brute-force filter: the items of `s` whose range intersects `q`.
- `Valid(n)` is the partition invariant.
- `IsMedian(c, s)` says that `c` is element `|s|` of the sorted list of the `2|s|` endpoints.
- `Centered(n)` says that every center is the median of its subtree.
- For the facade, `RootValid()` says that the root is valid and centered. Only the constructor and `Rebuild` assign the root, so this survives a caller's change to the retained list. `Valid()` adds that the root holds exactly the retained items, which means no change is pending.

## Model

| member | source | states |
|---|---|---|
| Ranges.NewRange | src/IntervalTree/Range.cs:13-22 | fails exactly when `from > to`; otherwise the range has exactly the given endpoints, so every constructed range has `From <= To` |
| Ranges.Contains | src/IntervalTree/Range.cs:28 | the inclusive containment test holds iff `From <= v <= To`: the borders count as inside |
| Ranges.ContainsExclusive | src/IntervalTree/Range.cs:34 | the exclusive containment test holds iff `From < v < To`: the borders count as outside |
| Ranges.Intersects | src/IntervalTree/Range.cs:36 | the inclusive intersection test holds iff the other range lies neither wholly before nor wholly after this one, so ranges that touch at an endpoint intersect |
| Ranges.IntersectsExclusive | src/IntervalTree/Range.cs:37 | the exclusive intersection test holds iff `other.To > From` and `other.From < To`, so ranges that only touch at an endpoint do not intersect exclusively |
| Ranges.ContainsBounds | src/IntervalTree/Range.cs:28-34 | exclusive containment implies inclusive containment |
| Ranges.ContainsIffPointIntersects | src/IntervalTree/Range.cs:28-36 | a range contains `v` iff it intersects the point range `[v, v]` |
| Ranges.IntersectsSymmetric | src/IntervalTree/Range.cs:36-37 | `Intersects` and `IntersectsExclusive` are both symmetric |
| Ranges.IntersectsIffCommonPoint | src/IntervalTree/Range.cs:36 | two valid ranges intersect iff some point lies in both |
| Ranges.IntersectsExclusiveImpliesIntersects | src/IntervalTree/Range.cs:36-37 | exclusive intersection implies inclusive intersection; the converse fails for [0,5] and [5,9], which touch at one endpoint |
| Ranges.IntersectsSelf | src/IntervalTree/Range.cs:36 | every valid range intersects itself; [5,5] intersects [5,5] but not [6,6] |
| Ranges.CompareTo | src/IntervalTree/Range.cs:52-71 | the result is -1, 0 or 1; it is 0 iff the ranges are equal; it is negative iff `(From, To)` is lexicographically smaller |
| Ranges.CompareToAntisymmetric | src/IntervalTree/Range.cs:59-71 | `CompareTo(a, b) == -CompareTo(b, a)` |
| Ranges.CompareToTotalOrder | src/IntervalTree/Range.cs:59-71 | `CompareTo(_, _) <= 0` is total and transitive, and it orders `From` first |
| Sorting.InsertKey | src/IntervalTree/RangeNode.cs:34 | inserting a key into an ascending list keeps it ascending and adds exactly that key |
| Sorting.SortKeys | src/IntervalTree/RangeNode.cs:34 | the sorted endpoint list is ascending and is a permutation of its input |
| Sorting.InsertItem | src/IntervalTree/RangeNode.cs:60-61 | inserting an item into a list sorted by `CompareTo` keeps it sorted and adds exactly that item |
| Sorting.SortItems | src/IntervalTree/RangeNode.cs:60-61 | the own list, once sorted, is ordered by `CompareTo` and is a permutation of its input, with the same members and length |
| RangeNode.CollectEndpoints | src/IntervalTree/RangeNode.cs:27-33 | the endpoint list is `From` then `To` of every item, in order, so it has `2n` entries |
| RangeNode.SortedRank | src/IntervalTree/RangeNode.cs:34-37 | in an ascending key list, element `k` has at most `k` keys below it and more than `k` at or below it |
| RangeNode.SortedEndpointsMedian | src/IntervalTree/RangeNode.cs:27-37 | for a non-empty item list, element `Count / 2` of the sorted endpoints is the median endpoint of the items, by rank |
| RangeNode.MedianUnique | src/IntervalTree/RangeNode.cs:34-37 | at most one key is the median endpoint of a list of items |
| RangeNode.MedianIsSortedEndpoint | src/IntervalTree/RangeNode.cs:34-37 | conversely, any median endpoint equals element `Count / 2` of every sorted arrangement of the endpoints, so `Centered` pins each center to the constructor's choice |
| RangeNode.MedianOwner | src/IntervalTree/RangeNode.cs:37-56 | the median is an endpoint of some item, and that item's range contains it, so it lands in the node's own list |
| RangeNode.MedianPermutation | src/IntervalTree/RangeNode.cs:27-37 | the median depends only on the multiset of items, not on their order |
| RangeNode.Partition | src/IntervalTree/RangeNode.cs:40-57 | left items end before the center; right items start after it; own items contain it; every item containing the center is in the own list; the three lists are a permutation of the input |
| RangeNode.AssembleNode | src/IntervalTree/RangeNode.cs:59-69 | a sorted non-empty own list plus the two valid, centered subtrees built from the left and right lists gives a valid, centered node holding exactly the input items |
| RangeNode.Build | src/IntervalTree/RangeNode.cs:21-70 | fails exactly on an empty item list; otherwise the node is valid (own lists non-empty, sorted and containing their center; left subtree wholly before the center and right wholly after it), every center is its subtree's median endpoint, and the tree holds exactly the input items as a multiset |
| RangeNode.MatchingPermutation | src/IntervalTree/RangeTree.cs:18-22 | reordering the stored items does not change the brute-force answer, as a multiset |
| RangeNode.MatchingMultiplicity | src/IntervalTree/RangeNode.cs:95-119 | the brute-force answer keeps each intersecting item with its multiplicity and drops every other item |
| RangeNode.SortedTailMisses | src/IntervalTree/RangeNode.cs:102-105 | in a list sorted by `CompareTo`, nothing from the first item starting after the query onwards intersects it, so stopping there loses nothing |
| RangeNode.LeftMisses | src/IntervalTree/RangeNode.cs:113-114 | when the query does not start before the center, or there is no left child, nothing on the left intersects it |
| RangeNode.RightMisses | src/IntervalTree/RangeNode.cs:115-116 | when the query does not end after the center, or there is no right child, nothing on the right intersects it |
| RangeNode.ScanOwn | src/IntervalTree/RangeNode.cs:99-109 | the own-list scan with its early stop returns exactly the intersecting own items, in order |
| RangeNode.Query | src/IntervalTree/RangeNode.cs:95-119 | on a valid node, the answer is exactly the stored items whose range intersects the query, as a multiset |
| RangeNode.ScanOwnFinds | src/IntervalTree/RangeNode.cs:74-83 | the own-list scan answers true iff some own item intersects the query |
| RangeNode.Exists | src/IntervalTree/RangeNode.cs:72-93 | as written: true iff an item of the node's own list intersects the query; the subtrees' answers are dropped |
| RangeNode.OwnMatchIsQueryMatch | src/IntervalTree/RangeNode.cs:72-93 | what `Exists` reports is sound: an own-list hit is a hit of the whole subtree, so `Query` is non-empty |
| RangeNode.ExistsMissesDescendantMatch | src/IntervalTree/RangeNode.cs:85-92 | for items [0,1], [5,6], [10,11], every tree has center 6 and no own item meets [0,0], yet [0,1] is a stored item that intersects [0,0] |
| RangeNode.ExistsMissesScenario | src/IntervalTree/RangeNode.cs:72-119 | builds the tree over [0,1], [5,6], [10,11], then calls `Exists` and `Query` on [0,0]: `Exists` answers false while `Query` returns [0,1] |
| RangeNode.ExistsCorrected | src/IntervalTree/RangeNode.cs:72-93 | with the subtrees' answers used: true iff some stored item intersects the query |
| RangeNode.MeetingScenarioRoot | src/IntervalTree/RangeNode.cs:27-57 | for meetings [0,10], [5,15], [20,30], the root center is 15 and its own list holds only [5,15], which meets [12,21] |
| RangeNode.MeetingScenarioOverlap | src/IntervalTree/RangeNode.cs:95-119 | for those meetings, the query [12,21] matches exactly [5,15] and [20,30] |
| RangeNode.MeetingScenarioGap | src/IntervalTree/RangeNode.cs:95-119 | for those meetings, the query [16,19] falls in a gap and matches nothing |
| RangeNode.BuildMeetings | src/IntervalTree/RangeNode.cs:21-70 | the constructor on the meetings succeeds; on its tree, [12,21] meets the root's own list and matches exactly [5,15] and [20,30], and [16,19] matches nothing |
| RangeNode.MeetingScenarioExists | src/IntervalTree/RangeNode.cs:72-93 | on the meetings' tree, `Exists` on [12,21] answers true |
| RangeNode.MeetingScenarioQuery | src/IntervalTree/RangeNode.cs:95-119 | on the meetings' tree, `Query` on [12,21] returns exactly [5,15] and [20,30] |
| RangeNode.MeetingScenarioQueryGap | src/IntervalTree/RangeNode.cs:95-119 | on the meetings' tree, `Query` on [16,19] returns nothing |
| RangeTree.IntervalTree.FromRoot | src/IntervalTree/RangeTree.cs:15-20 | stores a valid, centered root and the items it holds |
| RangeTree.IntervalTree.New | src/IntervalTree/RangeTree.cs:15-20 | fails exactly when there are no items; otherwise a fresh valid tree whose retained list is the input and whose root center is the input's median |
| RangeTree.IntervalTree.Count | src/IntervalTree/RangeTree.cs:13 | the count of retained items equals the number of items stored in the tree |
| RangeTree.IntervalTree.Items | src/IntervalTree/RangeTree.cs:12 | the retained items are the tree's items, up to order |
| RangeTree.IntervalTree.Query | src/IntervalTree/RangeTree.cs:22 | the root's answer is exactly the items stored in the root that intersect the query, as a multiset; while no change to the retained list is pending, those are the retained items intersecting the query, each a member of `Items` |
| RangeTree.IntervalTree.Exists | src/IntervalTree/RangeTree.cs:23 | the root's as-written answer: true iff a root own item intersects the query; true implies some stored item does, and, with no change pending, some retained item does |
| RangeTree.IntervalTree.Rebuild | src/IntervalTree/RangeTree.cs:24 | rebuilds from the retained list even after a caller changed it; only the root changes; it fails and keeps the old root exactly when the list is empty (where the source throws), and otherwise the tree is valid over the retained items; with no change pending, every query answer is the same multiset as before, so rebuilding twice answers as rebuilding once |

## Left out

- `Range.ToString` and `Range.GetHashCode` (src/IntervalTree/Range.cs:39-50): string formatting, and hashing that depends on the key type's own hash and on wrap-around arithmetic.
- `Range.Create` and `IRangeProvider` (src/IntervalTree/Range.cs:77-89): the first is a one-line forwarder to the constructor; the second is replaced by the `Item` datatype and its `range` field.
- Generic keys: `TKey` is `int`, compared by sign. A key type whose `CompareTo` returns other positive values would treat the `== 1` test in the range constructor differently; that is not modelled.
- The comparer is not modelled as state: a null comparer, where `List.Sort` falls back to the default comparer, is not modelled, and the tree's comparer field (src/IntervalTree/RangeTree.cs:11,17) is always `Range.CompareTo` on the items' ranges.
- `List.Sort` internals and stability: sorting is any method that returns a sorted permutation. Items that compare equal may therefore sit in either order, and answers are stated as multisets.
- `IntervalTree.Items` returns the retained list as a value. The source hands out the list itself, so a caller can change it in place. The model stands for such a change by assigning the public `items` field, which `Rebuild` then builds from. Aliasing itself is not modelled, and neither are items whose range changes after they were added.
- `Query` result order: `Query` is specified as a multiset, not as the exact order of the returned list.
- `Build` (and so `Rebuild`): the model proves what every tree it builds satisfies, but does not state that two builds of the same list give identical trees.
- Lazy `IEnumerable` input, enumerated twice by the node constructor and the tree constructor: the input is a sequence.
- The `_items = null` branch of the node constructor (src/IntervalTree/RangeNode.cs:60-63) is not modelled: `Build` proves that the own list always holds the median's owner, so the branch cannot be taken and `Valid` states that own lists are non-empty.
- src/IntervalTree/Program.cs is not part of this model: it is a console benchmark with timing and random meeting generation.
- src/IntervalTree/DomainModels.cs is not part of this model, beyond folding its `MeetingComparer` in as the fixed comparer; its `DateTime` meetings are replaced by integer ranges.

## Findings

| source | as written | input that shows it | evidently intended | confidence | as-written member | corrected member |
|---|---|---|---|---|---|---|
| src/IntervalTree/RangeNode.cs:87-92 | `Exists` calls itself on the subtrees but ignores what they return, then returns false, so it only sees the node's own list | items [0,1], [5,6], [10,11] give center 6 with own list [5,6]; `Exists([0,0])` is false while `Query([0,0])` returns [0,1] | return true when a visited subtree reports a hit, so that `Exists(q)` holds iff `Query(q)` is non-empty | not executed | RangeNode.Exists, RangeNode.ExistsMissesDescendantMatch, RangeNode.ExistsMissesScenario | RangeNode.ExistsCorrected |

The facade's `Exists` (src/IntervalTree/RangeTree.cs:23) delegates to the as-written `RangeNode.Exists`, as the repository does. `RangeNode.ExistsCorrected` is proved, but the facade does not use it.
