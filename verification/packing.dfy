/** The packing argument behind the bounded strip scan: inside the strip, points
    of one side are pairwise at least delta apart, so a delta-tall stretch of the
    strip cannot hold more than eight of them. Everything is stated on squared
    distances; no square root is taken. */
module Packing {
  import opened Points
  import opened Results
  import opened Views

  /** Two non-negative offsets below sqrt(D) that lie in the same half of
      [0, sqrt(D)) differ by less than sqrt(D) / 2. */
  lemma HalfCell(u1: int, u2: int, D: int)
    requires 0 <= u1 && 0 <= u2 && Sq(u1) < D && Sq(u2) < D
    requires (4 * Sq(u1) < D) == (4 * Sq(u2) < D)
    ensures 4 * Sq(u1 - u2) < D
  {
    if u1 >= u2 {
      HalfCellOrdered(u1, u2, D);
    } else {
      HalfCellOrdered(u2, u1, D);
      assert Sq(u1 - u2) == Sq(u2 - u1);
    }
  }

  lemma HalfCellOrdered(u1: int, u2: int, D: int)
    requires 0 <= u2 <= u1 && Sq(u1) < D
    requires (4 * Sq(u1) < D) == (4 * Sq(u2) < D)
    ensures 4 * Sq(u1 - u2) < D
  {
    var w := u1 - u2;
    if 4 * Sq(u1) < D {
      SqMono(w, u1);
    } else if 4 * Sq(w) >= D {
      // Both 2w and 2u2 are at least sqrt(D), so their sum 2u1 is at least 2 sqrt(D).
      SqDouble(w);
      SqDouble(u2);
      SqDouble(u1);
      SumOfLargeSquares(2 * w, 2 * u2, 2 * u1, D);
    }
  }

  lemma SqDouble(v: int)
    ensures Sq(2 * v) == 4 * Sq(v)
  {
  }

  /** If a, b >= 0 and both squares reach D, the square of the sum reaches 4D. */
  lemma SumOfLargeSquares(a: int, b: int, c: int, D: int)
    requires 0 <= a && 0 <= b && a + b == c && Sq(a) >= D && Sq(b) >= D
    ensures Sq(c) >= 4 * D
  {
    ProductOfLarge(a, b, D);
    assert Sq(c) == Sq(a) + 2 * (a * b) + Sq(b) by {
      assert (a + b) * (a + b) == a * a + 2 * (a * b) + b * b;
    }
  }

  lemma ProductOfLarge(a: int, b: int, D: int)
    requires 0 <= a && 0 <= b && Sq(a) >= D && Sq(b) >= D
    ensures a * b >= D
  {
    if a <= b {
      assert a * b - a * a == a * (b - a);
      MulNonneg(a, b - a);
    } else {
      assert a * b - b * b == b * (a - b);
      MulNonneg(b, a - b);
    }
  }

  lemma MulNonneg(a: int, b: int)
    requires 0 <= a && 0 <= b
    ensures a * b >= 0
  {
  }

  /** Which of eight cells of the delta-by-2delta box above height y0 holds p:
      left or right of xs, near or far from xs, lower or upper half. */
  function Cell(p: Point, xs: int, y0: int, D: int): (c: int)
    ensures 0 <= c < 8
  {
    (if p.x <= xs then 0 else 4) +
    (if 4 * Sq(p.x - xs) < D then 0 else 2) +
    (if 4 * Sq(p.y - y0) < D then 0 else 1)
  }

  /** Two points of the box in the same cell are closer than sqrt(D). */
  lemma SameCellClose(p: Point, q: Point, xs: int, y0: int, D: int)
    requires Sq(p.x - xs) < D && Sq(q.x - xs) < D
    requires y0 <= p.y && y0 <= q.y && Sq(p.y - y0) < D && Sq(q.y - y0) < D
    ensures Cell(p, xs, y0, D) == Cell(q, xs, y0, D) ==> Dist2(p, q) < D
  {
    if Cell(p, xs, y0, D) == Cell(q, xs, y0, D) {
      assert (p.x <= xs) == (q.x <= xs);
      assert (4 * Sq(p.x - xs) < D) == (4 * Sq(q.x - xs) < D);
      assert (4 * Sq(p.y - y0) < D) == (4 * Sq(q.y - y0) < D);
      SameColumnClose(p.x, q.x, xs, D);
      HalfCell(p.y - y0, q.y - y0, D);
      assert (p.y - y0) - (q.y - y0) == p.y - q.y;
    }
  }

  /** Two x-coordinates on the same side of xs, both less than sqrt(D) from it
      and in the same near or far half, are less than sqrt(D) / 2 apart. */
  lemma SameColumnClose(px: int, qx: int, xs: int, D: int)
    requires Sq(px - xs) < D && Sq(qx - xs) < D
    requires (px <= xs) == (qx <= xs)
    requires (4 * Sq(px - xs) < D) == (4 * Sq(qx - xs) < D)
    ensures 4 * Sq(px - qx) < D
  {
    if px <= xs {
      assert Sq(xs - px) == Sq(px - xs) && Sq(xs - qx) == Sq(qx - xs);
      HalfCell(xs - px, xs - qx, D);
      assert (xs - px) - (xs - qx) == qx - px;
      assert Sq(qx - px) == Sq(px - qx);
    } else {
      HalfCell(px - xs, qx - xs, D);
      assert (px - xs) - (qx - xs) == px - qx;
    }
  }

  /** An injective map into [0, K) has at most K arguments. */
  lemma {:induction false} Pigeonhole(c: seq<int>, K: nat)
    requires forall i :: 0 <= i < |c| ==> 0 <= c[i] < K
    requires forall i, j :: 0 <= i < j < |c| ==> c[i] != c[j]
    ensures |c| <= K
  {
    if c != [] {
      assert c[0] < K;
      if i :| 0 <= i < |c| && c[i] == K - 1 {
        var rest := c[..i] + c[i + 1..];
        assert forall k :: 0 <= k < |rest| ==> rest[k] == if k < i then c[k] else c[k + 1];
        forall k | 0 <= k < |rest| ensures 0 <= rest[k] < K - 1 {
          if k < i { assert c[k] != c[i]; } else { assert c[i] != c[k + 1]; }
        }
        forall k, l | 0 <= k < l < |rest| ensures rest[k] != rest[l] {
          var k', l' := if k < i then k else k + 1, if l < i then l else l + 1;
          assert k' < l' && rest[k] == c[k'] && rest[l] == c[l'];
        }
        assert |rest| == |c| - 1;
        Pigeonhole(rest, K - 1);
      } else {
        Pigeonhole(c, K - 1);
      }
    }
  }

  /** A point of the strip between positions a and b lies in the box above Sy[a]. */
  lemma InBox(Sy: seq<Point>, a: int, b: int, k: int, D: int)
    requires Sorted(Sy, ByY)
    requires 0 <= a <= k <= b < |Sy| && Dist2(Sy[a], Sy[b]) < D
    ensures Sy[a].y <= Sy[k].y && Sq(Sy[k].y - Sy[a].y) < D
  {
    if a < k { assert !Precedes(ByY, Sy[k], Sy[a]); }
    if k < b { assert !Precedes(ByY, Sy[b], Sy[k]); }
    SqMono(Sy[k].y - Sy[a].y, Sy[b].y - Sy[a].y);
  }

  /** Two points of the box on one side at least sqrt(D) apart occupy different cells. */
  lemma DistinctCells(p: Point, q: Point, xs: int, y0: int, D: int)
    requires Sq(p.x - xs) < D && Sq(q.x - xs) < D
    requires y0 <= p.y && y0 <= q.y && Sq(p.y - y0) < D && Sq(q.y - y0) < D
    requires (p.x <= xs <==> q.x <= xs) ==> D <= Dist2(p, q)
    ensures Cell(p, xs, y0, D) != Cell(q, xs, y0, D)
  {
    SameCellClose(p, q, xs, y0, D);
  }

  lemma CellsDiffer(Sy: seq<Point>, xs: int, D: int, a: int, b: int, k: int, l: int)
    requires Sorted(Sy, ByY)
    requires forall k :: 0 <= k < |Sy| ==> Sq(Sy[k].x - xs) < D
    requires forall k, l :: 0 <= k < l < |Sy| && (Sy[k].x <= xs <==> Sy[l].x <= xs) ==>
      D <= Dist2(Sy[k], Sy[l])
    requires 0 <= a <= k < l <= b < |Sy| && Dist2(Sy[a], Sy[b]) < D
    ensures Cell(Sy[k], xs, Sy[a].y, D) != Cell(Sy[l], xs, Sy[a].y, D)
  {
    InBox(Sy, a, b, k, D);
    InBox(Sy, a, b, l, D);
    DistinctCells(Sy[k], Sy[l], xs, Sy[a].y, D);
  }

  /** The packing bound. In a y-sorted strip whose points all lie less than
      sqrt(D) from the line x = xs, and whose points on one side of the line are
      pairwise at least sqrt(D) apart, two points closer than sqrt(D) are fewer
      than eight positions apart. */
  lemma StripPacking(Sy: seq<Point>, xs: int, D: int, a: int, b: int)
    requires Sorted(Sy, ByY)
    requires forall k :: 0 <= k < |Sy| ==> Sq(Sy[k].x - xs) < D
    requires forall k, l :: 0 <= k < l < |Sy| && (Sy[k].x <= xs <==> Sy[l].x <= xs) ==>
      D <= Dist2(Sy[k], Sy[l])
    requires 0 <= a < b < |Sy| && Dist2(Sy[a], Sy[b]) < D
    ensures b - a < 8
  {
    var y0, n := Sy[a].y, b - a + 1;
    var cells := seq(n, k requires 0 <= k < n => Cell(Sy[a + k], xs, y0, D));
    forall k, l | 0 <= k < l < n ensures cells[k] != cells[l] {
      CellsDiffer(Sy, xs, D, a, b, a + k, a + l);
    }
    forall k | 0 <= k < n ensures 0 <= cells[k] < 8 {
      assert cells[k] == Cell(Sy[a + k], xs, y0, D);
    }
    Pigeonhole(cells, 8);
  }
}
