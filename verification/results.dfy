/** The result record and the two sort orders of the engine (ClosestPair.h). */
module Results {
  import opened Points

  /** A squared distance, or the "no pair" distance that stands for the largest
      representable double. */
  datatype Dist = Finite(sq: nat) | Infinite

  /** Strict comparison of distances: Infinite lies above every finite distance. */
  predicate Below(a: Dist, b: Dist) {
    a.Finite? && (b.Infinite? || a.sq < b.sq)
  }

  predicate AtMost(a: Dist, b: Dist) {
    !Below(b, a)
  }

  /** The pair found so far: the identifiers of its two points and their distance. */
  datatype Result = Result(idx1: int, idx2: int, distance: Dist)

  /** Result(): no pair, both identifiers -1, distance "infinite". */
  const NoPair: Result := Result(-1, -1, Infinite)

  /** std::min on distances. */
  function MinDist(a: Dist, b: Dist): (m: Dist)
    ensures AtMost(m, a) && AtMost(m, b)
    ensures m == a || m == b
  {
    if AtMost(a, b) then a else b
  }

  /** compareX: strictly smaller x-coordinate. */
  predicate CompareX(a: Point, b: Point) {
    a.x < b.x
  }

  /** compareY: strictly smaller y-coordinate. */
  predicate CompareY(a: Point, b: Point) {
    a.y < b.y
  }

  datatype Axis = ByX | ByY

  function Key(p: Point, axis: Axis): int {
    if axis == ByX then p.x else p.y
  }

  /** The comparator handed to std::sort for the given axis. */
  predicate Precedes(axis: Axis, a: Point, b: Point) {
    if axis == ByX then CompareX(a, b) else CompareY(a, b)
  }

  /** Both comparators are strict weak orders (irreflexive, asymmetric,
      transitive, with transitive incomparability), the requirement std::sort
      places on its comparator. */
  lemma PrecedesIsStrictWeakOrder(axis: Axis)
    ensures forall a :: !Precedes(axis, a, a)
    ensures forall a, b :: Precedes(axis, a, b) ==> !Precedes(axis, b, a)
    ensures forall a, b, c :: Precedes(axis, a, b) && Precedes(axis, b, c) ==> Precedes(axis, a, c)
    ensures forall a, b, c ::
      !Precedes(axis, a, b) && !Precedes(axis, b, a) && !Precedes(axis, b, c) && !Precedes(axis, c, b)
      ==> !Precedes(axis, a, c) && !Precedes(axis, c, a)
    ensures forall a, b :: Precedes(axis, a, b) <==> Key(a, axis) < Key(b, axis)
  {
  }
}
