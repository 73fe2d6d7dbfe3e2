/**
 * The closed interval `Range<T>` of src/IntervalTree/Range.cs, with the key
 * type fixed to `int`. Int32.CompareTo returns -1, 0 or 1, so the source's
 * `CompareTo(...) == 1` test in the constructor reads as "greater than".
 */
module Ranges {
  import opened Wrappers

  /** A pair of endpoints `[from, to]`. */
  datatype Range = Range(from: int, to: int)

  /** The ranges the constructor can produce: `from` never exceeds `to`. */
  type ValidRange = r: Range | r.from <= r.to witness Range(0, 0)

  /** A stored element: an identity plus the range it provides (the IRangeProvider capability). */
  datatype Item = Item(id: int, range: ValidRange)

  /** The one error the constructor raises (ArgumentOutOfRangeException). */
  datatype RangeError = InvalidRange

  /** Key comparison with the sign-valued result of Int32.CompareTo. */
  function KeyCompare(x: int, y: int): int
  {
    if x < y then -1 else if x > y then 1 else 0
  }

  /** The validating constructor `new Range<T>(from, to)`. */
  function NewRange(from: int, to: int): (r: Result<ValidRange, RangeError>)
    ensures r.Failure? <==> from > to
    ensures r.Success? ==> r.value.from == from && r.value.to == to
  {
    if KeyCompare(from, to) == 1 then Failure(InvalidRange) else Success(Range(from, to))
  }

  /** Containment with the borders inside. */
  predicate Contains(r: Range, value: int): (b: bool)
    ensures b <==> r.from <= value <= r.to
  {
    KeyCompare(value, r.from) >= 0 && KeyCompare(value, r.to) <= 0
  }

  /** Containment with the borders outside. */
  predicate ContainsExclusive(r: Range, value: int): (b: bool)
    ensures b <==> r.from < value < r.to
  {
    KeyCompare(value, r.from) > 0 && KeyCompare(value, r.to) < 0
  }

  /** Inclusive intersection: `other` is neither wholly before nor wholly after `r`. */
  predicate Intersects(r: Range, other: Range): (b: bool)
    ensures b <==> !(other.to < r.from || r.to < other.from)
  {
    KeyCompare(other.to, r.from) >= 0 && KeyCompare(other.from, r.to) <= 0
  }

  /** Exclusive intersection: touching at a single endpoint does not count. */
  predicate IntersectsExclusive(r: Range, other: Range): (b: bool)
    ensures b <==> !(other.to <= r.from || r.to <= other.from)
  {
    KeyCompare(other.to, r.from) > 0 && KeyCompare(other.from, r.to) < 0
  }

  /** Three-way comparison, `From` first and `To` to break ties. */
  function CompareTo(r: Range, other: Range): (c: int)
    ensures c == -1 || c == 0 || c == 1
    ensures c == 0 <==> r == other
    ensures c < 0 <==> r.from < other.from || (r.from == other.from && r.to < other.to)
  {
    if KeyCompare(r.from, other.from) < 0 then -1
    else if KeyCompare(r.from, other.from) > 0 then 1
    else if KeyCompare(r.to, other.to) < 0 then -1
    else if KeyCompare(r.to, other.to) > 0 then 1
    else 0
  }

  // ----- properties -----

  /** The exclusive containment test is stricter than the inclusive one. */
  lemma ContainsBounds(r: Range, value: int)
    ensures ContainsExclusive(r, value) ==> Contains(r, value)
  {
  }

  /** A point lies in a range exactly when the point range at it intersects that range. */
  lemma ContainsIffPointIntersects(r: Range, value: int)
    ensures Contains(r, value) <==> Intersects(r, Range(value, value))
  {
  }

  lemma IntersectsSymmetric(a: Range, b: Range)
    ensures Intersects(a, b) == Intersects(b, a)
    ensures IntersectsExclusive(a, b) == IntersectsExclusive(b, a)
  {
  }

  /** Two valid ranges intersect exactly when some key lies in both. */
  lemma IntersectsIffCommonPoint(a: ValidRange, b: ValidRange)
    ensures Intersects(a, b) <==> exists v :: Contains(a, v) && Contains(b, v)
  {
    if Intersects(a, b) {
      var v := if a.from < b.from then b.from else a.from;
      assert Contains(a, v) && Contains(b, v);
    }
  }

  /** The exclusive test implies the inclusive one; ranges that only touch show the converse fails. */
  lemma IntersectsExclusiveImpliesIntersects(a: Range, b: Range)
    ensures IntersectsExclusive(a, b) ==> Intersects(a, b)
    ensures Intersects(Range(0, 5), Range(5, 9)) && !IntersectsExclusive(Range(0, 5), Range(5, 9))
  {
  }

  /** Every valid range intersects itself; the point range [5,5] meets [5,5] but not [6,6]. */
  lemma IntersectsSelf(a: ValidRange)
    ensures Intersects(a, a)
    ensures Intersects(Range(5, 5), Range(5, 5)) && !Intersects(Range(5, 5), Range(6, 6))
  {
  }

  /** Swapping the arguments negates the comparison. */
  lemma CompareToAntisymmetric(a: Range, b: Range)
    ensures CompareTo(a, b) == -CompareTo(b, a)
  {
  }

  /** `CompareTo(_, _) <= 0` is a total preorder (indeed a total order), so it can drive a sort. */
  lemma CompareToTotalOrder(a: Range, b: Range, c: Range)
    ensures CompareTo(a, b) <= 0 || CompareTo(b, a) <= 0
    ensures CompareTo(a, b) <= 0 && CompareTo(b, c) <= 0 ==> CompareTo(a, c) <= 0
    ensures CompareTo(a, b) <= 0 ==> a.from <= b.from
  {
  }
}
