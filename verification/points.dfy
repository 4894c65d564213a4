/** The point type of the closest-pair engine (Point.h).
    Coordinates are integers and distances are kept SQUARED: the source takes
    a square root of the same sum, and because the square root is monotone every
    comparison of distances in the engine keeps its outcome on squares. */
module Points {

  /** A planar point carrying the caller's identifier. */
  datatype Point = Point(id: int, x: int, y: int)

  /** The default-constructed point: identifier -1 at the origin. */
  const DefaultPoint: Point := Point(-1, 0, 0)

  function Sq(v: int): (r: nat)
    ensures r == v * v
  {
    v * v
  }

  /** Squared Euclidean distance (Point::distance without the square root). */
  function Dist2(p: Point, q: Point): (d: nat)
    ensures d >= Sq(p.x - q.x) && d >= Sq(p.y - q.y)
  {
    Sq(p.x - q.x) + Sq(p.y - q.y)
  }

  /** The distance does not depend on the order of its arguments. */
  lemma Dist2Symmetric(p: Point, q: Point)
    ensures Dist2(p, q) == Dist2(q, p)
  {
    assert Sq(p.x - q.x) == Sq(q.x - p.x);
    assert Sq(p.y - q.y) == Sq(q.y - p.y);
  }

  /** The distance is zero exactly when the two points share their coordinates,
      so in particular a point is at distance zero from itself. */
  lemma Dist2ZeroIff(p: Point, q: Point)
    ensures Dist2(p, q) == 0 <==> p.x == q.x && p.y == q.y
  {
    if Dist2(p, q) == 0 {
      SqZero(p.x - q.x);
      SqZero(p.y - q.y);
    }
  }

  lemma SqZero(v: int)
    requires Sq(v) == 0
    ensures v == 0
  {
  }

  /** Squaring is monotone on non-negative numbers. */
  lemma SqMono(a: int, b: int)
    requires 0 <= a <= b
    ensures Sq(a) <= Sq(b)
  {
    assert a * a <= a * b <= b * b;
  }
}
