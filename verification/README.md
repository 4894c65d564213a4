# Closest pair of points — a verified Dafny model

This project models the closest-pair engine of the `closest-pair-of-points`
repository. The engine has two solvers over a list of identified planar points:

- `bruteForce` compares every pair `i < j` and replaces its best pair only when a
  pair is strictly closer, so it keeps the first closest pair in `(i, j)` order.
- `divideAndConquer` sorts copies of the input by x (`Px`) and by y (`Py`) and
  calls `closestPairRec`. That function:
  - solves at most three points by brute force;
  - otherwise splits `Px` at `n/2`, with the line `x*` at the last left point;
  - splits `Py` into `Qy` and `Ry` in one pass;
  - recurses on both halves and keeps the closer result, the left one on a tie;
  - collects the strip of `Py` points with `|x - x*| < δ`;
  - compares each strip point with at most 15 successors, stopping once the
    y-gap reaches δ.

It also models the point and result records, the two sort comparators and the
unused standalone strip routine `stripClosest`.

Distances are exact. Coordinates are `int` and every distance is kept
**squared**. Because the square root is monotone, each comparison in the engine
keeps its outcome:

- `dist < delta` becomes `d2 < D`;
- `|x - x*| < delta` becomes `(x - x*)² < D`;
- `y_j - y_i < delta` becomes `y_j - y_i < 0 || (y_j - y_i)² < D`.

The "no pair" sentinel (ids −1, distance = largest double) is `Result(-1, -1, Infinite)`.

Modules:

- `Points` (points.dfy): the point record and the squared distance.
- `Results` (results.dfy): the result record, the sentinel, `std::min` on
  distances and the comparators.
- `Views` (views.dfy): sortedness, the sort postcondition, and the filters that
  the push_back loops build.
- `PairSpec` (pairs.dfy): what a reported pair must satisfy, and a recursive
  reference definition `ClosestDist2` of the closest distance.
- `Packing` (packing.dfy): the eight-cell packing bound that justifies the
  capped strip scan.
- `ClosestPair` (closest_pair.dfy): the two solvers, written as imperative
  methods with the source's loops.

Main results:

- `BruteForce` returns the first minimum pair in `(i, j)` order, at distance `ClosestDist2`.
- `ClosestPairRec` needs no precondition. With two or more points it reports
  two entries of `Px` or of `Py`. When the views are consistent it reports a closest pair, with
  the 15-successor cap in place. Consistent means `Px` strictly sorted by x,
  `Py` sorted by y, and the same points in both.
- `DivideAndConquer` reports two input points when given two or more. With
  distinct x-coordinates it reports exactly `ClosestDist2`, the same distance
  as `BruteForce`.
- Reordering the input never changes the distance `BruteForce` reports. It
  does not change the distance `DivideAndConquer` reports either, when the
  x-coordinates are distinct.

## Model

| member | source | states |
|---|---|---|
| Points.Dist2 | Point.h:19-22 | The (squared) distance is a natural number, at least the squared gap on each axis |
| Points.Dist2Symmetric | Point.h:20-21 | distance(p, q) == distance(q, p) |
| Points.Dist2ZeroIff | Point.h:20-21 | The distance is 0 exactly when the two points have equal coordinates, so distance(p, p) == 0 |
| Points.SqMono | Point.h:20-21 | Squaring is monotone on non-negative numbers. This is the fact behind comparing squared distances in place of the `sqrt` distances the source compares |
| Results.MinDist | ClosestPair.cpp:97 | δ = min of the two recursive distances: at most each of them and equal to one of them |
| Results.PrecedesIsStrictWeakOrder | ClosestPair.h:36-42 | compareX / compareY hold exactly when x (y) is smaller, and are irreflexive, asymmetric and transitive, with transitive incomparability |
| Views.SortBy | ClosestPair.cpp:39-44 | The sorted copies Px and Py are permutations of the input, sorted ascending by x and by y |
| Views.FilterMember | ClosestPair.cpp:103-109 | A point is in the strip exactly when it is a point of Py with \|x - x*\| < δ |
| Views.FilterSorted | ClosestPair.cpp:111-112 | The strip built from y-sorted Py is itself y-sorted |
| Views.FilterSubMultiset | ClosestPair.cpp:103-109 | The strip holds only entries of Py, with no entry repeated more often than in Py |
| Views.SplitFilters | ClosestPair.cpp:63-88 | For strictly x-sorted Px, the points with x <= Px[mid-1].x are exactly Px[..mid] and the others exactly Px[mid..] |
| PairSpec.ClosestDist2Lower | ClosestPair.cpp:16-26 | The reference minimum is at most the distance of every pair i < j |
| PairSpec.ClosestDist2Attained | ClosestPair.cpp:16-26 | The reference minimum is the distance of some pair i < j |
| PairSpec.FirstMinPairIsMin | ClosestPair.cpp:17-24 | The first minimum pair in (i, j) order is at the reference minimum distance |
| PairSpec.FirstMinPairSoundOptimal | ClosestPair.cpp:13-28 | Reporting the first minimum pair gives a finite, sound and optimal result |
| PairSpec.SoundInSuper | ClosestPair.cpp:39-47 | A pair reported from Px or Py is a pair of the input, since both are permutations of it |
| PairSpec.SoundOptimalIsMin | ClosestPair.cpp:32-48 | A sound and optimal result has exactly the reference minimum distance, on any input of two or more points |
| PairSpec.ClosestDist2Permutation | ClosestPair.cpp:39-47 | The reference minimum distance does not depend on the order of the points |
| PairSpec.SoundDistinctIds | ClosestPair.cpp:19-24 | When identifiers are unique, a sound result names two different identifiers |
| Views.TwoPositions | ClosestPair.cpp:19-24 | Two entries of a sequence, read as a multiset, sit at two different positions |
| PairSpec.OptimalInPermutation | ClosestPair.cpp:39-47 | Optimality over Px carries over to the unsorted input, or to any other permutation |
| Packing.SameCellClose | ClosestPair.cpp:117-118 | Two points in the same of the eight δ/2 cells of the δ-by-2δ box are closer than δ |
| Packing.Pigeonhole | ClosestPair.cpp:117-118 | Pairwise different cell numbers below K are at most K in number |
| Packing.StripPacking | ClosestPair.cpp:117-118 | In a y-sorted strip whose same-side points are ≥ δ apart, two points closer than δ are fewer than 8 positions apart, so the cap of 15 loses nothing |
| ClosestPair.BruteForce | ClosestPair.cpp:7-29 | Sentinel for fewer than 2 points; otherwise it reports the ids of the first minimum pair (i, j) in enumeration order (strict <), at its distance, which is the reference minimum |
| ClosestPair.SplitAt | ClosestPair.cpp:71-79 | Qx ++ Rx == Px and \|Qx\| == mid |
| ClosestPair.SplitByX | ClosestPair.cpp:81-88 | Qy is the first mid points of Py with x <= x*. Ry is the rest of Py: exactly the x > x* points when the cap is not hit, and in every case Qy and Ry together hold the points of Py. Both are y-sorted when Py is |
| ClosestPair.SplitStep | ClosestPair.cpp:82-88 | One step of the Qy / Ry pass keeps the pass invariant, for each of its three branches |
| ClosestPair.RyStaysSorted | ClosestPair.cpp:85-87 | Appending the next point of y-sorted Py keeps Ry y-sorted |
| ClosestPair.BuildStrip | ClosestPair.cpp:103-112 | S is the Py-ordered filter of the points with \|x - x*\| < δ |
| ClosestPair.GapCut | ClosestPair.cpp:118 | Once the y-gap reaches δ, no later strip point is closer than δ, so stopping the inner loop loses nothing |
| ClosestPair.ScanStrip | ClosestPair.cpp:114-127 | δ only decreases; the result is the merged one or reports two strip points strictly below the starting δ; on a y-sorted strip, no two points within 15 positions are closer than the final δ; at most 15·\|S\| comparisons in total |
| ClosestPair.StripClosest | ClosestPair.cpp:134-155 | The same scan with a fixed bound d in the gap test: result ids −1 and distance d, or two strip points strictly below d; no pair within 15 positions is closer than the result |
| ClosestPair.KeepCloser | ClosestPair.cpp:98 | The merged result is one of the two, no farther than either, and the left one on a tie |
| ClosestPair.ClosestPairRec | ClosestPair.cpp:51-131 | Sentinel below 2 points. Otherwise a finite result reporting two entries of Px or of Py. On consistent views it is optimal: no pair of Px is strictly closer |
| ClosestPair.MergeSound | ClosestPair.cpp:96-130 | The merged or strip-updated result reports two entries of Px or Py |
| ClosestPair.SplitConsistent | ClosestPair.cpp:62-88 | Consistent views split into consistent views for both recursive calls |
| ClosestPair.HalvesMatch | ClosestPair.cpp:81-88 | With distinct x, Qy is a permutation of Qx and Ry of Rx (the cap test never fires) |
| ClosestPair.MergeOptimal | ClosestPair.cpp:96-130 | Optimal halves plus a capped strip scan give an optimal result for the whole of Px |
| ClosestPair.StripFacts | ClosestPair.cpp:103-112 | The strip is y-sorted, within δ of the line, and its same-side points are at least δ apart |
| ClosestPair.StripSeparated | ClosestPair.cpp:63-79 | Strip points on the same side of x* lie in the same half, so they are at least δ apart |
| ClosestPair.CrossPair | ClosestPair.cpp:114-127 | A pair straddling x* is no closer than the final result |
| ClosestPair.StraddleInStrip | ClosestPair.cpp:106 | Each point of a straddling pair is at least as close to the line as to the other point, so both lie in the strip when the pair is closer than δ |
| ClosestPair.DivideAndConquer | ClosestPair.cpp:32-48 | Sentinel for fewer than 2 points; otherwise a finite result reporting two input points. With distinct x it is optimal at exactly the reference minimum |
| ClosestPair.SolversAgree | ClosestPair.cpp:7-48 | Both solvers give the sentinel on fewer than 2 points and report input pairs otherwise. With distinct x they report the same distance |
| ClosestPair.OrderIndependent | ClosestPair.cpp:7-48 | Two orderings of the same points give the same brute-force distance. They also give the same divide-and-conquer distance when the x-coordinates are distinct |

## Left out

- main.cpp is not part of this model: random point generation, timing, console output and CSV output.
- Floating point: `double` coordinates, `sqrt`, rounding and NaN. Coordinates are integers and distances are squared.
- The sentinel distance `std::numeric_limits<double>::max()` is an explicit `Infinite`. A finite distance that reaches that value is not modelled.
- `std::sort` internals: only its contract (a sorted permutation) is used, and the insertion sort `Views.SortBy` stands in for it. The order it gives to equal keys is one admissible choice, and no proof depends on that order.
- The stream output `operator<<` on `Point`.
- Running-time claims. The scan's comparison count is bounded by a ghost out-parameter of `ScanStrip`, not by a cost model.
- `Point()`, `Point(id, x, y)`, `Result()` and `Result(i, j, d)` are datatype constructors: `DefaultPoint` and `NoPair` stand for the defaults, and they state no separate contract.
- ClosestPair.ClosestPairRec: optimality is promised only for consistent views, that is, distinct x-coordinates. With repeated x-coordinates the source itself can miss the closest pair; this is not just a gap in the proof. The `Qy` pass (ClosestPair.cpp:82-88) fills `Qy` in y-order until it holds `mid` points. Once `Qy` is full, a point with x strictly below `x*` goes to `Ry`. The left call builds its strip from `Qy` (ClosestPair.cpp:105), so it never sees that point. Only soundness holds on such inputs.
  - Input, as (id, x, y): (0,0,10), (1,2,100), (2,3,60), (3,100,0), (4,100,50), (5,300,0), (6,300,300), (7,600,0). Traced by hand through ClosestPair.cpp, not executed.
  - Top level: `mid` = 4 and `x*` = 100. `Qy` = [3, 0, 4, 2], and point 1 (x = 2) goes to `Ry`.
  - Left call: the split line is x = 2 and δ² = 8104. Its strip holds only points 0 and 2, giving (0, 2) at squared distance 2509. The pair (1, 2), at squared distance 1601, is never compared.
  - The top strip [3, 4] lowers δ² to 2500. So `divideAndConquer` reports (3, 4) at √2500, while `bruteForce` reports (1, 2) at √1601.
- ClosestPair.DivideAndConquer: optimality and agreement with `BruteForce` are promised only for input with distinct x-coordinates. On other inputs only soundness is stated. The example under `ClosestPair.ClosestPairRec` shows that the source needs this condition.
- ClosestPair.SolversAgree: equal distances are promised only for distinct x-coordinates. On the repeated-x input above, the two solvers of the source report different distances.
- ClosestPair.OrderIndependent: the divide-and-conquer distance is promised order-independent only for distinct x-coordinates. With repeated x-coordinates the source's result depends on how ties fall in the two sorts, and it can miss the minimum, as the example above shows.
- ClosestPair.SplitByX: `Qy` and `Ry` are stated as a multiset split of `Py` (plus the exact prefix for `Qy`), not as an interleaving of `Py`.
