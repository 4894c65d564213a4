/** The closest-pair engine (ClosestPair.cpp): the quadratic brute-force solver
    and the divide-and-conquer solver with its bounded strip scan. */
module ClosestPair {
  import opened Points
  import opened Results
  import opened Views
  import opened PairSpec
  import opened Packing

  /** How many successors of a strip point the scan compares it with at most. */
  const NeighbourCap: nat := 15

  /** Partitions of at most this many points are solved by brute force. */
  const BaseCaseSize: nat := 3

  // ---------------------------------------------------------------------------
  // Brute force

  /** Every pair enumerated before (i, j) is no closer than (bi, bj), and the
      ones enumerated before (bi, bj) are strictly farther. */
  ghost predicate BestSoFar(s: seq<Point>, bi: int, bj: int, i: int, j: int)
    requires 0 <= bi < bj < |s|
  {
    forall k, l :: 0 <= k < l < |s| && PairBefore(k, l, i, j) ==>
      Dist2(s[bi], s[bj]) <= Dist2(s[k], s[l]) &&
      (PairBefore(k, l, bi, bj) ==> Dist2(s[bi], s[bj]) < Dist2(s[k], s[l]))
  }

  /** After the first comparison, (0, 1) is the best pair so far. */
  lemma BestSoFarFirst(s: seq<Point>)
    requires |s| >= 2
    ensures BestSoFar(s, 0, 1, 0, 2)
  {
  }

  /** Comparing (i, j) with a pair that is no farther keeps the best pair. */
  lemma BestSoFarKeep(s: seq<Point>, bi: int, bj: int, i: int, j: int)
    requires 0 <= bi < bj < |s| && 0 <= i < j < |s| && PairBefore(bi, bj, i, j)
    requires BestSoFar(s, bi, bj, i, j) && Dist2(s[bi], s[bj]) <= Dist2(s[i], s[j])
    ensures BestSoFar(s, bi, bj, i, j + 1)
  {
  }

  /** A strictly closer (i, j) becomes the best pair. */
  lemma BestSoFarTake(s: seq<Point>, bi: int, bj: int, i: int, j: int)
    requires 0 <= bi < bj < |s| && 0 <= i < j < |s|
    requires BestSoFar(s, bi, bj, i, j) && Dist2(s[i], s[j]) < Dist2(s[bi], s[bj])
    ensures BestSoFar(s, i, j, i, j + 1)
  {
  }

  /** Finishing row i is starting row i + 1. */
  lemma BestSoFarNextRow(s: seq<Point>, bi: int, bj: int, i: int)
    requires 0 <= bi < bj < |s| && 0 <= i
    requires BestSoFar(s, bi, bj, i, |s|)
    ensures BestSoFar(s, bi, bj, i + 1, i + 2)
  {
  }

  /** Once every pair has been compared, the best pair is the first minimum. */
  lemma BestSoFarDone(s: seq<Point>, bi: int, bj: int)
    requires 0 <= bi < bj < |s|
    requires BestSoFar(s, bi, bj, |s| - 1, |s|)
    ensures FirstMinPair(s, bi, bj)
  {
  }

  /** bruteForce: compare every pair i < j, keeping the first strictly closer one. */
  method BruteForce(points: seq<Point>) returns (r: Result)
    ensures |points| < 2 ==> r == NoPair
    ensures |points| >= 2 ==>
      exists i, j :: FirstMinPair(points, i, j) && Reports(r, points[i], points[j])
    ensures |points| >= 2 ==> r.distance == Finite(ClosestDist2(points))
  {
    var n := |points|;
    if n < 2 {
      return NoPair;
    }
    r := NoPair;
    ghost var bi, bj := 0, 1;
    for i := 0 to n - 1
      invariant i == 0 ==> r == NoPair
      invariant i > 0 ==> 0 <= bi < bj < n && bi < i && Reports(r, points[bi], points[bj])
      invariant i > 0 ==> BestSoFar(points, bi, bj, i, i + 1)
    {
      for j := i + 1 to n
        invariant i == 0 && j == i + 1 ==> r == NoPair
        invariant i > 0 || j > i + 1 ==>
          0 <= bi < bj < n && PairBefore(bi, bj, i, j) && Reports(r, points[bi], points[bj])
        invariant i > 0 || j > i + 1 ==> BestSoFar(points, bi, bj, i, j)
      {
        var dist := Dist2(points[i], points[j]);
        if Below(Finite(dist), r.distance) {
          if i == 0 && j == 1 {
            BestSoFarFirst(points);
          } else {
            BestSoFarTake(points, bi, bj, i, j);
          }
          r := Result(points[i].id, points[j].id, Finite(dist));
          bi, bj := i, j;
        } else {
          BestSoFarKeep(points, bi, bj, i, j);
        }
      }
      BestSoFarNextRow(points, bi, bj, i);
    }
    BestSoFarDone(points, bi, bj);
    FirstMinPairIsMin(points, bi, bj);
  }

  // ---------------------------------------------------------------------------
  // The pieces of one recursive step

  /** Qx = Px[0 .. mid), Rx = Px[mid .. n), each copied with a push_back loop. */
  method SplitAt(Px: seq<Point>, mid: nat) returns (Qx: seq<Point>, Rx: seq<Point>)
    requires mid <= |Px|
    ensures Qx + Rx == Px && |Qx| == mid
  {
    Qx, Rx := [], [];
    for i := 0 to mid
      invariant Qx == Px[..i]
    {
      Qx := Qx + [Px[i]];
    }
    for i := mid to |Px|
      invariant Rx == Px[mid..i]
    {
      Rx := Rx + [Px[i]];
    }
    assert Qx + Rx == Px[..mid] + Px[mid..];
  }

  /** The single pass over Py that sends a point to Qy when its x is at most xs
      and Qy still has room for it (fewer than cap points), and to Ry otherwise.
      Qy is the first cap points of the "x <= xs" filter of Py; when that filter
      has at most cap points Ry is exactly the "x > xs" filter. */
  method SplitByX(Py: seq<Point>, xs: int, cap: nat) returns (Qy: seq<Point>, Ry: seq<Point>)
    ensures var L := Filter(Py, LeftOf(xs));
      |Qy| == (if |L| < cap then |L| else cap) && Qy == L[..|Qy|]
    ensures |Filter(Py, LeftOf(xs))| <= cap ==> Ry == Filter(Py, RightOf(xs))
    ensures multiset(Qy) + multiset(Ry) == multiset(Py)
    ensures Sorted(Py, ByY) ==> Sorted(Qy, ByY) && Sorted(Ry, ByY)
  {
    Qy, Ry := [], [];
    for k := 0 to |Py|
      invariant SplitState(Py[..k], xs, cap, Qy, Ry)
      invariant Sorted(Py, ByY) ==> Sorted(Ry, ByY)
    {
      var point := Py[k];
      assert Py[..k + 1] == Py[..k] + [point];
      SplitStep(Py[..k], point, xs, cap, Qy, Ry);
      if point.x <= xs && |Qy| < cap {
        Qy := Qy + [point];
      } else {
        if Sorted(Py, ByY) {
          RyStaysSorted(Py, k, Ry, Qy);
        }
        Ry := Ry + [point];
      }
    }
    assert Py[..|Py|] == Py;
    if Sorted(Py, ByY) {
      FilterSorted(Py, LeftOf(xs), ByY);
      SortedPrefix(Filter(Py, LeftOf(xs)), |Qy|, ByY);
    }
  }

  /** What the pass over Py has built after reading the points in done. */
  ghost predicate SplitState(done: seq<Point>, xs: int, cap: nat, Qy: seq<Point>, Ry: seq<Point>) {
    SplitShape(Filter(done, LeftOf(xs)), Filter(done, RightOf(xs)), multiset(done), cap, Qy, Ry)
  }

  /** Qy is the first cap points of L (all of L when it is shorter), Ry is R as
      long as L has not outgrown cap, and together they hold the points read. */
  ghost predicate SplitShape(L: seq<Point>, R: seq<Point>, read: multiset<Point>, cap: nat,
                             Qy: seq<Point>, Ry: seq<Point>) {
    |Qy| == (if |L| < cap then |L| else cap) && Qy == L[..|Qy|] &&
    (|L| <= cap ==> Ry == R) &&
    multiset(Qy) + multiset(Ry) == read
  }

  lemma SplitStep(done: seq<Point>, p: Point, xs: int, cap: nat, Qy: seq<Point>, Ry: seq<Point>)
    requires SplitState(done, xs, cap, Qy, Ry)
    ensures if p.x <= xs && |Qy| < cap
      then SplitState(done + [p], xs, cap, Qy + [p], Ry)
      else SplitState(done + [p], xs, cap, Qy, Ry + [p])
  {
    var L, R := Filter(done, LeftOf(xs)), Filter(done, RightOf(xs));
    FilterSnoc(done, p, LeftOf(xs));
    FilterSnoc(done, p, RightOf(xs));
    assert multiset(done + [p]) == multiset(done) + multiset{p};
    if p.x <= xs {
      if |Qy| < cap {
        ShapeTakeLeft(L, R, multiset(done), cap, Qy, Ry, p);
      } else {
        ShapeLeftFull(L, R, multiset(done), cap, Qy, Ry, p);
      }
    } else {
      ShapeTakeRight(L, R, multiset(done), cap, Qy, Ry, p);
    }
  }

  lemma ShapeTakeLeft(L: seq<Point>, R: seq<Point>, read: multiset<Point>, cap: nat,
                      Qy: seq<Point>, Ry: seq<Point>, p: Point)
    requires SplitShape(L, R, read, cap, Qy, Ry) && |Qy| < cap
    ensures SplitShape(L + [p], R, read + multiset{p}, cap, Qy + [p], Ry)
  {
    assert Qy == L;
    assert multiset(Qy + [p]) == multiset(Qy) + multiset{p};
    assert (L + [p])[..|L| + 1] == L + [p];
  }

  lemma ShapeLeftFull(L: seq<Point>, R: seq<Point>, read: multiset<Point>, cap: nat,
                      Qy: seq<Point>, Ry: seq<Point>, p: Point)
    requires SplitShape(L, R, read, cap, Qy, Ry) && |Qy| >= cap
    ensures SplitShape(L + [p], R, read + multiset{p}, cap, Qy, Ry + [p])
  {
    assert (L + [p])[..|Qy|] == L[..|Qy|];
    assert multiset(Ry + [p]) == multiset(Ry) + multiset{p};
  }

  lemma ShapeTakeRight(L: seq<Point>, R: seq<Point>, read: multiset<Point>, cap: nat,
                       Qy: seq<Point>, Ry: seq<Point>, p: Point)
    requires SplitShape(L, R, read, cap, Qy, Ry)
    ensures SplitShape(L, R + [p], read + multiset{p}, cap, Qy, Ry + [p])
  {
    assert multiset(Ry + [p]) == multiset(Ry) + multiset{p};
  }

  /** Appending the next point of a y-sorted Py to a sequence drawn from the
      points before it keeps that sequence sorted. */
  lemma RyStaysSorted(Py: seq<Point>, k: int, Ry: seq<Point>, Qy: seq<Point>)
    requires Sorted(Py, ByY) && 0 <= k < |Py| && Sorted(Ry, ByY)
    requires multiset(Qy) + multiset(Ry) == multiset(Py[..k])
    ensures Sorted(Ry + [Py[k]], ByY)
  {
    forall t | 0 <= t < |Ry| ensures !Precedes(ByY, Py[k], Ry[t]) {
      assert Ry[t] in multiset(Py[..k]);
      var m :| 0 <= m < k && Py[..k][m] == Ry[t];
      assert Py[m] == Ry[t];
    }
  }

  /** S: the points of Py with |x - xs| < delta, kept in the order of Py. */
  method BuildStrip(Py: seq<Point>, xs: int, delta: Dist) returns (S: seq<Point>)
    ensures S == Filter(Py, InStrip(xs, delta))
  {
    S := [];
    for k := 0 to |Py|
      invariant S == Filter(Py[..k], InStrip(xs, delta))
    {
      assert Py[..k + 1][..k] == Py[..k];
      if Below(Finite(Sq(Py[k].x - xs)), delta) {
        S := S + [Py[k]];
      }
    }
    assert Py[..|Py|] == Py;
  }

  /** The comparison (y_j - y_i) < delta, on squares. */
  predicate YGapBelow(gap: int, delta: Dist) {
    gap < 0 || Below(Finite(Sq(gap)), delta)
  }

  /** No two strip points at most NeighbourCap positions apart are strictly
      closer than delta. */
  ghost predicate CheckedWithinCap(Sy: seq<Point>, delta: Dist) {
    forall a, b :: 0 <= a < b < |Sy| && b - a <= NeighbourCap ==>
      AtMost(delta, Finite(Dist2(Sy[a], Sy[b])))
  }

  /** Once the y-gap from point i to point j has reached delta, every later
      point of a y-sorted strip is at least delta away from point i. */
  lemma GapCut(Sy: seq<Point>, i: int, j: int, b: int, delta: Dist)
    requires Sorted(Sy, ByY) && 0 <= i < j <= b < |Sy|
    requires !YGapBelow(Sy[j].y - Sy[i].y, delta)
    ensures AtMost(delta, Finite(Dist2(Sy[i], Sy[b])))
  {
    if j < b {
      assert !Precedes(ByY, Sy[b], Sy[j]);
    }
    SqMono(Sy[j].y - Sy[i].y, Sy[b].y - Sy[i].y);
    assert Sq(Sy[i].y - Sy[b].y) == Sq(Sy[b].y - Sy[i].y);
  }

  /** The strip scan of closestPairRec: each strip point is compared with its
      successors while they are at most NeighbourCap positions ahead and their
      y-gap is below the current delta; a strictly closer pair lowers delta and
      replaces the result. */
  method ScanStrip(Sy: seq<Point>, delta0: Dist, best: Result)
    returns (r: Result, ghost compared: nat)
    requires best.distance == delta0
    ensures AtMost(r.distance, delta0)
    ensures r == best || (Below(r.distance, delta0) && ReportsPairAt(r, Sy))
    ensures Sorted(Sy, ByY) ==> CheckedWithinCap(Sy, r.distance)
    ensures compared <= NeighbourCap * |Sy|
  {
    var delta := delta0;
    r := best;
    compared := 0;
    var m := |Sy|;
    for i := 0 to m
      invariant delta == r.distance && AtMost(delta, delta0)
      invariant r == best || (Below(delta, delta0) && ReportsPairAt(r, Sy))
      invariant Sorted(Sy, ByY) ==> forall a, b :: 0 <= a < i && a < b < m && b - a <= NeighbourCap ==>
        AtMost(delta, Finite(Dist2(Sy[a], Sy[b])))
      invariant compared <= NeighbourCap * i
    {
      var j := i + 1;
      while j < m && j <= i + NeighbourCap && YGapBelow(Sy[j].y - Sy[i].y, delta)
        invariant i + 1 <= j <= m && j <= i + NeighbourCap + 1
        invariant delta == r.distance && AtMost(delta, delta0)
        invariant r == best || (Below(delta, delta0) && ReportsPairAt(r, Sy))
        invariant Sorted(Sy, ByY) ==> forall a, b :: 0 <= a < i && a < b < m && b - a <= NeighbourCap ==>
          AtMost(delta, Finite(Dist2(Sy[a], Sy[b])))
        invariant forall b :: i < b < j ==> AtMost(delta, Finite(Dist2(Sy[i], Sy[b])))
        invariant compared <= NeighbourCap * i + (j - i - 1)
      {
        var dist := Dist2(Sy[i], Sy[j]);
        if Below(Finite(dist), delta) {
          delta := Finite(dist);
          r := Result(Sy[i].id, Sy[j].id, Finite(dist));
        }
        compared := compared + 1;
        j := j + 1;
      }
      if Sorted(Sy, ByY) && j < m && j <= i + NeighbourCap {
        forall b | j <= b < m ensures AtMost(delta, Finite(Dist2(Sy[i], Sy[b]))) {
          GapCut(Sy, i, j, b, delta);
        }
      }
    }
  }

  /** stripClosest (unused by the solvers): the same scan over a strip with a
      fixed bound d; the y-gap test uses d throughout while the result's distance
      is lowered. With no closer pair it returns ids -1 and distance d. */
  method StripClosest(strip: seq<Point>, d: Dist) returns (r: Result)
    ensures AtMost(r.distance, d)
    ensures r == Result(-1, -1, d) || (Below(r.distance, d) && ReportsPairAt(r, strip))
    ensures Sorted(strip, ByY) ==> CheckedWithinCap(strip, r.distance)
  {
    r := Result(-1, -1, d);
    var size := |strip|;
    for i := 0 to size
      invariant AtMost(r.distance, d)
      invariant r == Result(-1, -1, d) || (Below(r.distance, d) && ReportsPairAt(r, strip))
      invariant Sorted(strip, ByY) ==> forall a, b :: 0 <= a < i && a < b < size && b - a <= NeighbourCap ==>
        AtMost(r.distance, Finite(Dist2(strip[a], strip[b])))
    {
      var j := i + 1;
      while j < size && j <= i + NeighbourCap && YGapBelow(strip[j].y - strip[i].y, d)
        invariant i + 1 <= j <= size
        invariant AtMost(r.distance, d)
        invariant r == Result(-1, -1, d) || (Below(r.distance, d) && ReportsPairAt(r, strip))
        invariant Sorted(strip, ByY) ==> forall a, b :: 0 <= a < i && a < b < size && b - a <= NeighbourCap ==>
          AtMost(r.distance, Finite(Dist2(strip[a], strip[b])))
        invariant forall b :: i < b < j ==> AtMost(r.distance, Finite(Dist2(strip[i], strip[b])))
      {
        var dist := Dist2(strip[i], strip[j]);
        if Below(Finite(dist), r.distance) {
          r := Result(strip[i].id, strip[j].id, Finite(dist));
        }
        j := j + 1;
      }
      if Sorted(strip, ByY) && j < size && j <= i + NeighbourCap {
        forall b | j <= b < size ensures AtMost(r.distance, Finite(Dist2(strip[i], strip[b]))) {
          GapCut(strip, i, j, b, d);
        }
      }
    }
  }

  /** The merge of the two recursive results: the closer one, the left one on a tie. */
  function KeepCloser(q: Result, r: Result): (best: Result)
    ensures best == q || best == r
    ensures AtMost(best.distance, q.distance) && AtMost(best.distance, r.distance)
    ensures AtMost(q.distance, r.distance) ==> best == q
  {
    if AtMost(q.distance, r.distance) then q else r
  }

  // ---------------------------------------------------------------------------
  // The recursion

  /** The two views closestPairRec expects: Px strictly sorted by x (sorted,
      with distinct x-coordinates), Py sorted by y, and the same points in both. */
  ghost predicate Consistent(Px: seq<Point>, Py: seq<Point>) {
    StrictlySortedX(Px) && Sorted(Py, ByY) && multiset(Px) == multiset(Py)
  }

  /** closestPairRec. Without any precondition the reported pair is a pair of
      entries of Px or of Py; on consistent views it is also a closest pair. */
  method ClosestPairRec(Px: seq<Point>, Py: seq<Point>) returns (r: Result)
    ensures |Px| < 2 ==> r == NoPair
    ensures |Px| >= 2 ==> r.distance.Finite? && (SoundIn(r, Px) || SoundIn(r, Py))
    ensures Consistent(Px, Py) ==> OptimalIn(r, Px)
    decreases |Px|
  {
    var n := |Px|;
    if n <= BaseCaseSize {
      r := BruteForce(Px);
      if n >= 2 {
        ghost var i, j :| FirstMinPair(Px, i, j) && Reports(r, Px[i], Px[j]);
        FirstMinPairSoundOptimal(r, Px, i, j);
      }
      return;
    }

    var mid := n / 2;
    var midX := Px[mid - 1].x;
    var Qx, Rx := SplitAt(Px, mid);
    var Qy, Ry := SplitByX(Py, midX, mid);

    var qResult := ClosestPairRec(Qx, Qy);
    var rResult := ClosestPairRec(Rx, Ry);

    var delta := MinDist(qResult.distance, rResult.distance);
    var best := KeepCloser(qResult, rResult);
    var xStar := midX;
    var Sy := BuildStrip(Py, xStar, delta);
    ghost var compared;
    r, compared := ScanStrip(Sy, delta, best);

    MergeSound(Px, Py, Qx, Rx, Qy, Ry, qResult, rResult, best, Sy, xStar, delta, r);
    if Consistent(Px, Py) {
      SplitConsistent(Px, Py, mid, Qx, Rx, Qy, Ry);
      FilterSorted(Py, InStrip(xStar, delta), ByY);
      MergeOptimal(Px, Py, mid, qResult, rResult, delta, Sy, r);
    }
  }

  /** The merged result is a recursive result or a pair of strip points, so it
      reports two entries of Px or of Py. */
  lemma MergeSound(Px: seq<Point>, Py: seq<Point>, Qx: seq<Point>, Rx: seq<Point>,
                   Qy: seq<Point>, Ry: seq<Point>, q: Result, rr: Result, best: Result,
                   Sy: seq<Point>, xs: int, delta: Dist, r: Result)
    requires Qx + Rx == Px && multiset(Qy) + multiset(Ry) == multiset(Py)
    requires SoundIn(q, Qx) || SoundIn(q, Qy)
    requires SoundIn(rr, Rx) || SoundIn(rr, Ry)
    requires best == q || best == rr
    requires Sy == Filter(Py, InStrip(xs, delta))
    requires r == best || ReportsPairAt(r, Sy)
    ensures SoundIn(r, Px) || SoundIn(r, Py)
  {
    assert multiset(Px) == multiset(Qx) + multiset(Rx);
    if r == best {
      if best == q {
        if SoundIn(q, Qx) { SoundInSuper(r, Qx, Px); } else { SoundInSuper(r, Qy, Py); }
      } else {
        if SoundIn(rr, Rx) { SoundInSuper(r, Rx, Px); } else { SoundInSuper(r, Ry, Py); }
      }
    } else {
      ReportsPairAtSound(r, Sy);
      FilterSubMultiset(Py, InStrip(xs, delta));
      SoundInSuper(r, Sy, Py);
    }
  }

  /** On consistent views, the Qy / Ry pass reproduces the halves Qx / Rx:
      both recursive calls again get consistent views. */
  lemma SplitConsistent(Px: seq<Point>, Py: seq<Point>, mid: nat,
                        Qx: seq<Point>, Rx: seq<Point>, Qy: seq<Point>, Ry: seq<Point>)
    requires Consistent(Px, Py) && 0 < mid <= |Px|
    requires Qx + Rx == Px && |Qx| == mid
    requires var L := Filter(Py, LeftOf(Px[mid - 1].x));
      |Qy| == (if |L| < mid then |L| else mid) && Qy == L[..|Qy|]
    requires |Filter(Py, LeftOf(Px[mid - 1].x))| <= mid ==> Ry == Filter(Py, RightOf(Px[mid - 1].x))
    requires Sorted(Qy, ByY) && Sorted(Ry, ByY)
    ensures Consistent(Qx, Qy) && Consistent(Rx, Ry)
  {
    assert Qx == Px[..mid] && Rx == Px[mid..];
    HalvesMatch(Px, Py, mid, Qy, Ry);
    assert StrictlySortedX(Qx) by {
      forall i, j | 0 <= i < j < |Qx| ensures CompareX(Qx[i], Qx[j]) {
        assert Qx[i] == Px[i] && Qx[j] == Px[j];
      }
    }
    assert StrictlySortedX(Rx) by {
      forall i, j | 0 <= i < j < |Rx| ensures CompareX(Rx[i], Rx[j]) {
        assert Rx[i] == Px[mid + i] && Rx[j] == Px[mid + j];
      }
    }
  }

  /** With distinct x-coordinates the capacity test of the Qy / Ry pass never
      fires: Qy holds exactly the points of Qx and Ry those of Rx. */
  lemma HalvesMatch(Px: seq<Point>, Py: seq<Point>, mid: nat, Qy: seq<Point>, Ry: seq<Point>)
    requires StrictlySortedX(Px) && multiset(Px) == multiset(Py) && 0 < mid <= |Px|
    requires var L := Filter(Py, LeftOf(Px[mid - 1].x));
      |Qy| == (if |L| < mid then |L| else mid) && Qy == L[..|Qy|]
    requires |Filter(Py, LeftOf(Px[mid - 1].x))| <= mid ==> Ry == Filter(Py, RightOf(Px[mid - 1].x))
    ensures multiset(Qy) == multiset(Px[..mid]) && multiset(Ry) == multiset(Px[mid..])
  {
    var xs := Px[mid - 1].x;
    var L, R := Filter(Py, LeftOf(xs)), Filter(Py, RightOf(xs));
    SplitFilters(Px, mid);
    FilterPermutation(Px, Py, LeftOf(xs));
    FilterPermutation(Px, Py, RightOf(xs));
    assert |L| == mid by {
      assert |multiset(L)| == |L| && |multiset(Px[..mid])| == |Px[..mid]|;
    }
    assert Qy == L[..mid] == L;
  }

  /** The merge step is optimal: a closest pair of Px lies in one half, where the
      recursive result covers it, or straddles the split line, where both points
      are in the strip and, by the packing bound, at most seven positions apart
      there, so the capped scan compares them. */
  lemma MergeOptimal(Px: seq<Point>, Py: seq<Point>, mid: nat, q: Result, rr: Result,
                     delta: Dist, Sy: seq<Point>, r: Result)
    requires Consistent(Px, Py) && 0 < mid < |Px|
    requires OptimalIn(q, Px[..mid]) && OptimalIn(rr, Px[mid..])
    requires delta.Finite? && delta == MinDist(q.distance, rr.distance)
    requires Sy == Filter(Py, InStrip(Px[mid - 1].x, delta))
    requires AtMost(r.distance, delta) && CheckedWithinCap(Sy, r.distance)
    ensures OptimalIn(r, Px)
  {
    var xs, D := Px[mid - 1].x, delta.sq;
    forall k, l | 0 <= k < l < mid ensures D <= Dist2(Px[k], Px[l]) {
      assert Px[..mid][k] == Px[k] && Px[..mid][l] == Px[l];
    }
    forall k, l | mid <= k < l < |Px| ensures D <= Dist2(Px[k], Px[l]) {
      assert Px[mid..][k - mid] == Px[k] && Px[mid..][l - mid] == Px[l];
    }
    StripFacts(Px, Py, mid, D, Sy);
    forall i, j | 0 <= i < j < |Px| ensures AtMost(r.distance, Finite(Dist2(Px[i], Px[j]))) {
      if i < mid <= j {
        CrossPair(Px, Py, mid, D, Sy, r, i, j);
      }
    }
  }

  /** What the strip of consistent views looks like: y-sorted, within sqrt(D) of
      the split line, and with same-side points at least sqrt(D) apart. */
  lemma StripFacts(Px: seq<Point>, Py: seq<Point>, mid: nat, D: nat, Sy: seq<Point>)
    requires Consistent(Px, Py) && 0 < mid < |Px|
    requires forall k, l :: 0 <= k < l < mid ==> D <= Dist2(Px[k], Px[l])
    requires forall k, l :: mid <= k < l < |Px| ==> D <= Dist2(Px[k], Px[l])
    requires Sy == Filter(Py, InStrip(Px[mid - 1].x, Finite(D)))
    ensures Sorted(Sy, ByY)
    ensures forall k :: 0 <= k < |Sy| ==> Sq(Sy[k].x - Px[mid - 1].x) < D
    ensures forall k, l :: 0 <= k < l < |Sy| && (Sy[k].x <= Px[mid - 1].x <==> Sy[l].x <= Px[mid - 1].x) ==>
      D <= Dist2(Sy[k], Sy[l])
  {
    var xs := Px[mid - 1].x;
    var keep := InStrip(xs, Finite(D));
    FilterSorted(Py, keep, ByY);
    FilterSubMultiset(Py, keep);
    forall k | 0 <= k < |Sy| ensures Sq(Sy[k].x - xs) < D {
      FilterMember(Py, keep, Sy[k]);
    }
    StripSeparated(Px, mid, D, Sy);
  }

  /** Points of Sy, drawn from the points of Px, that lie on the same side of
      the split line are at least sqrt(D) apart. */
  lemma StripSeparated(Px: seq<Point>, mid: nat, D: nat, Sy: seq<Point>)
    requires StrictlySortedX(Px) && 0 < mid < |Px|
    requires forall k, l :: 0 <= k < l < mid ==> D <= Dist2(Px[k], Px[l])
    requires forall k, l :: mid <= k < l < |Px| ==> D <= Dist2(Px[k], Px[l])
    requires multiset(Sy) <= multiset(Px)
    ensures forall k, l :: 0 <= k < l < |Sy| && (Sy[k].x <= Px[mid - 1].x <==> Sy[l].x <= Px[mid - 1].x) ==>
      D <= Dist2(Sy[k], Sy[l])
  {
    var xs := Px[mid - 1].x;
    assert DistinctX(Px);
    DistinctXNoDup(Px);
    NoDupSub(Sy, Px);
    forall k, l | 0 <= k < l < |Sy| && (Sy[k].x <= xs <==> Sy[l].x <= xs)
      ensures D <= Dist2(Sy[k], Sy[l])
    {
      NoDupAt(Sy, k, l);
      assert Sy[k] in multiset(Sy) && Sy[l] in multiset(Sy);
      SameSideFar(Px, mid, D, Sy[k], Sy[l]);
    }
  }

  /** Two different points of Px on the same side of the split line are in
      the same half, so at least D apart. */
  lemma SameSideFar(Px: seq<Point>, mid: nat, D: nat, p: Point, q: Point)
    requires StrictlySortedX(Px) && 0 < mid < |Px|
    requires forall k, l :: 0 <= k < l < mid ==> D <= Dist2(Px[k], Px[l])
    requires forall k, l :: mid <= k < l < |Px| ==> D <= Dist2(Px[k], Px[l])
    requires p in multiset(Px) && q in multiset(Px) && p != q
    requires p.x <= Px[mid - 1].x <==> q.x <= Px[mid - 1].x
    ensures D <= Dist2(p, q)
  {
    var a :| 0 <= a < |Px| && Px[a] == p;
    var b :| 0 <= b < |Px| && Px[b] == q;
    SameSideSameHalf(Px, mid, a, b);
    if b < a {
      Dist2Symmetric(Px[a], Px[b]);
    }
  }

  /** In a strictly x-sorted sequence split after mid - 1, points on the same
      side of the split line sit in the same half. */
  lemma SameSideSameHalf(Px: seq<Point>, mid: nat, a: int, b: int)
    requires StrictlySortedX(Px) && 0 < mid <= |Px| && 0 <= a < |Px| && 0 <= b < |Px|
    ensures (Px[a].x <= Px[mid - 1].x) == (a < mid)
    ensures (Px[b].x <= Px[mid - 1].x) == (b < mid)
  {
    if a < mid - 1 { assert CompareX(Px[a], Px[mid - 1]); }
    if a >= mid { assert CompareX(Px[mid - 1], Px[a]); }
    if b < mid - 1 { assert CompareX(Px[b], Px[mid - 1]); }
    if b >= mid { assert CompareX(Px[mid - 1], Px[b]); }
  }

  /** A pair straddling the split line is no closer than the final result. */
  lemma CrossPair(Px: seq<Point>, Py: seq<Point>, mid: nat, D: nat, Sy: seq<Point>,
                  r: Result, i: int, j: int)
    requires Consistent(Px, Py) && 0 <= i < mid <= j < |Px|
    requires Sy == Filter(Py, InStrip(Px[mid - 1].x, Finite(D)))
    requires Sorted(Sy, ByY)
    requires forall k :: 0 <= k < |Sy| ==> Sq(Sy[k].x - Px[mid - 1].x) < D
    requires forall k, l :: 0 <= k < l < |Sy| && (Sy[k].x <= Px[mid - 1].x <==> Sy[l].x <= Px[mid - 1].x) ==>
      D <= Dist2(Sy[k], Sy[l])
    requires AtMost(r.distance, Finite(D)) && CheckedWithinCap(Sy, r.distance)
    ensures AtMost(r.distance, Finite(Dist2(Px[i], Px[j])))
  {
    var xs, p, q := Px[mid - 1].x, Px[i], Px[j];
    if Dist2(p, q) < D {
      SameSideSameHalf(Px, mid, i, j);
      StraddleInStrip(p, q, xs);
      assert p in multiset(Py) && q in multiset(Py) by {
        assert p in multiset(Px) && q in multiset(Px);
      }
      var a := StripPosition(Py, xs, D, Sy, p);
      var b := StripPosition(Py, xs, D, Sy, q);
      if a < b {
        StripPacking(Sy, xs, D, a, b);
      } else {
        Dist2Symmetric(p, q);
        StripPacking(Sy, xs, D, b, a);
      }
    }
  }

  /** Two points on either side of the line x = xs are each at least as close to
      the line as to one another. */
  lemma StraddleInStrip(p: Point, q: Point, xs: int)
    requires p.x <= xs < q.x
    ensures Sq(p.x - xs) <= Dist2(p, q) && Sq(q.x - xs) <= Dist2(p, q)
  {
    SqMono(xs - p.x, q.x - p.x);
    SqMono(q.x - xs, q.x - p.x);
    assert Sq(p.x - xs) == Sq(xs - p.x) && Sq(p.x - q.x) == Sq(q.x - p.x);
  }

  /** A point of Py close enough to the line has a position in the strip. */
  lemma StripPosition(Py: seq<Point>, xs: int, D: nat, Sy: seq<Point>, p: Point) returns (a: int)
    requires p in multiset(Py) && Sq(p.x - xs) < D
    requires Sy == Filter(Py, InStrip(xs, Finite(D)))
    ensures 0 <= a < |Sy| && Sy[a] == p
  {
    FilterMember(Py, InStrip(xs, Finite(D)), p);
    a :| 0 <= a < |Sy| && Sy[a] == p;
  }

  // ---------------------------------------------------------------------------
  // Entry point

  /** divideAndConquer: sort copies of the input by x and by y and recurse. */
  method DivideAndConquer(points: seq<Point>) returns (r: Result)
    ensures |points| < 2 ==> r == NoPair
    ensures |points| >= 2 ==> r.distance.Finite? && SoundIn(r, points)
    ensures |points| >= 2 && DistinctX(points) ==>
      OptimalIn(r, points) && r.distance == Finite(ClosestDist2(points))
  {
    var n := |points|;
    if n < 2 {
      return NoPair;
    }
    var Px := SortBy(points, ByX);
    var Py := SortBy(points, ByY);
    r := ClosestPairRec(Px, Py);
    if SoundIn(r, Px) {
      SoundInSuper(r, Px, points);
    } else {
      SoundInSuper(r, Py, points);
    }
    if DistinctX(points) {
      DistinctXPermutation(points, Px);
      assert StrictlySortedX(Px) by {
        forall i, j | 0 <= i < j < n ensures CompareX(Px[i], Px[j]) {
          assert !Precedes(ByX, Px[j], Px[i]);
        }
      }
      OptimalInPermutation(r, Px, points);
      SoundOptimalIsMin(r, points);
    }
  }

  /** Both solvers on the same input: with distinct x-coordinates they report
      the same distance, and each reported pair is a pair of input points. */
  method SolversAgree(points: seq<Point>) returns (brute: Result, fast: Result)
    ensures |points| < 2 ==> brute == fast == NoPair
    ensures |points| >= 2 ==> SoundIn(brute, points) && SoundIn(fast, points)
    ensures |points| >= 2 && DistinctX(points) ==> brute.distance == fast.distance
  {
    brute := BruteForce(points);
    fast := DivideAndConquer(points);
    if |points| >= 2 {
      ghost var i, j :| FirstMinPair(points, i, j) && Reports(brute, points[i], points[j]);
      FirstMinPairSoundOptimal(brute, points, i, j);
    }
  }

  /** Reordering the input does not change the reported distance: always for
      the brute-force solver, and with distinct x-coordinates for the
      divide-and-conquer solver. */
  method OrderIndependent(points: seq<Point>, permuted: seq<Point>)
    returns (brute: Result, brutePermuted: Result, fast: Result, fastPermuted: Result)
    requires multiset(points) == multiset(permuted)
    ensures brute.distance == brutePermuted.distance
    ensures DistinctX(points) ==> fast.distance == fastPermuted.distance
  {
    assert |points| == |multiset(points)| == |permuted|;
    brute := BruteForce(points);
    brutePermuted := BruteForce(permuted);
    fast := DivideAndConquer(points);
    fastPermuted := DivideAndConquer(permuted);
    if |points| >= 2 {
      ClosestDist2Permutation(points, permuted);
      if DistinctX(points) {
        DistinctXPermutation(points, permuted);
      }
    }
  }
}
