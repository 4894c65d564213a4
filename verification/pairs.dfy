/** What a solver promises about the pair it reports, and the reference
    definition of the closest-pair distance the two solvers are measured against. */
module PairSpec {
  import opened Points
  import opened Results
  import opened Views

  /** r names points a and b (in that order) and carries their distance. */
  predicate Reports(r: Result, a: Point, b: Point) {
    r.idx1 == a.id && r.idx2 == b.id && r.distance == Finite(Dist2(a, b))
  }

  /** r reports the points at two positions i < j of s. */
  ghost predicate ReportsPairAt(r: Result, s: seq<Point>) {
    exists i, j :: 0 <= i < j < |s| && Reports(r, s[i], s[j])
  }

  /** r reports two entries of s (two different positions, read as a multiset). */
  ghost predicate SoundIn(r: Result, s: seq<Point>) {
    exists a, b :: multiset{a, b} <= multiset(s) && Reports(r, a, b)
  }

  /** No two positions of s are strictly closer than r says. */
  ghost predicate OptimalIn(r: Result, s: seq<Point>) {
    forall i, j :: 0 <= i < j < |s| ==> AtMost(r.distance, Finite(Dist2(s[i], s[j])))
  }

  /** No two positions of s carry the same identifier. */
  predicate UniqueIds(s: seq<Point>) {
    forall i, j :: 0 <= i < j < |s| ==> s[i].id != s[j].id
  }

  /** Pair (k, l) comes before pair (i, j) in the (i, j) enumeration order. */
  predicate PairBefore(k: int, l: int, i: int, j: int) {
    k < i || (k == i && l < j)
  }

  /** (i, j) is a closest pair of s, and every pair enumerated before it is
      strictly farther apart. */
  ghost predicate FirstMinPair(s: seq<Point>, i: int, j: int) {
    0 <= i < j < |s| &&
    forall k, l :: 0 <= k < l < |s| ==>
      Dist2(s[i], s[j]) <= Dist2(s[k], s[l]) &&
      (PairBefore(k, l, i, j) ==> Dist2(s[i], s[j]) < Dist2(s[k], s[l]))
  }

  // ---------------------------------------------------------------------------
  // Reference definition

  /** Least distance from p to a point of s. */
  function MinTo(p: Point, s: seq<Point>): nat
    requires |s| >= 1
  {
    if |s| == 1 then Dist2(p, s[0])
    else
      var m := MinTo(p, s[1..]);
      if Dist2(p, s[0]) <= m then Dist2(p, s[0]) else m
  }

  /** Least distance between two different positions of s. */
  function ClosestDist2(s: seq<Point>): nat
    requires |s| >= 2
  {
    if |s| == 2 then Dist2(s[0], s[1])
    else
      var here, later := MinTo(s[0], s[1..]), ClosestDist2(s[1..]);
      if here <= later then here else later
  }

  lemma {:induction false} MinToBounds(p: Point, s: seq<Point>)
    requires |s| >= 1
    ensures forall j :: 0 <= j < |s| ==> MinTo(p, s) <= Dist2(p, s[j])
    ensures exists j :: 0 <= j < |s| && MinTo(p, s) == Dist2(p, s[j])
  {
    if |s| == 1 {
      assert MinTo(p, s) == Dist2(p, s[0]);
    } else {
      MinToBounds(p, s[1..]);
      var j :| 0 <= j < |s[1..]| && MinTo(p, s[1..]) == Dist2(p, s[1..][j]);
      if MinTo(p, s) == Dist2(p, s[0]) {
        assert 0 <= 0 < |s| && MinTo(p, s) == Dist2(p, s[0]);
      } else {
        assert MinTo(p, s) == Dist2(p, s[j + 1]);
      }
      forall j | 1 <= j < |s| ensures MinTo(p, s) <= Dist2(p, s[j]) {
        assert s[j] == s[1..][j - 1];
      }
    }
  }

  /** ClosestDist2 is a lower bound on every pair of positions ... */
  lemma {:induction false} ClosestDist2Lower(s: seq<Point>, i: int, j: int)
    requires 0 <= i < j < |s|
    ensures ClosestDist2(s) <= Dist2(s[i], s[j])
  {
    if |s| > 2 {
      if i == 0 {
        MinToBounds(s[0], s[1..]);
        assert s[j] == s[1..][j - 1];
      } else {
        ClosestDist2Lower(s[1..], i - 1, j - 1);
      }
    }
  }

  /** ... and is the distance of some pair of positions. */
  lemma {:induction false} ClosestDist2Attained(s: seq<Point>)
    requires |s| >= 2
    ensures exists i, j :: 0 <= i < j < |s| && ClosestDist2(s) == Dist2(s[i], s[j])
  {
    if |s| == 2 {
      assert ClosestDist2(s) == Dist2(s[0], s[1]);
    } else {
      MinToBounds(s[0], s[1..]);
      ClosestDist2Attained(s[1..]);
      if MinTo(s[0], s[1..]) <= ClosestDist2(s[1..]) {
        var j :| 0 <= j < |s[1..]| && MinTo(s[0], s[1..]) == Dist2(s[0], s[1..][j]);
        assert ClosestDist2(s) == Dist2(s[0], s[j + 1]);
      } else {
        var i, j :| 0 <= i < j < |s[1..]| && ClosestDist2(s[1..]) == Dist2(s[1..][i], s[1..][j]);
        assert ClosestDist2(s) == Dist2(s[i + 1], s[j + 1]);
      }
    }
  }

  /** A first minimum pair is at the reference distance. */
  lemma FirstMinPairIsMin(s: seq<Point>, i: int, j: int)
    requires FirstMinPair(s, i, j)
    ensures Dist2(s[i], s[j]) == ClosestDist2(s)
  {
    var d := Dist2(s[i], s[j]);
    assert forall k, l :: 0 <= k < l < |s| ==> d <= Dist2(s[k], s[l]);
    LowerBoundOfAllPairs(s, d);
    ClosestDist2Lower(s, i, j);
  }

  /** A bound below every pair distance is below the reference distance. */
  lemma LowerBoundOfAllPairs(s: seq<Point>, d: nat)
    requires |s| >= 2
    requires forall k, l :: 0 <= k < l < |s| ==> d <= Dist2(s[k], s[l])
    ensures d <= ClosestDist2(s)
  {
    ClosestDist2Attained(s);
    var k, l :| 0 <= k < l < |s| && ClosestDist2(s) == Dist2(s[k], s[l]);
  }

  /** Reporting a first minimum pair makes a result sound and optimal. */
  lemma FirstMinPairSoundOptimal(r: Result, s: seq<Point>, i: int, j: int)
    requires FirstMinPair(s, i, j) && Reports(r, s[i], s[j])
    ensures r.distance.Finite? && SoundIn(r, s) && OptimalIn(r, s)
  {
    PairSubMultiset(s, i, j);
  }

  /** Reporting two positions of s makes a result sound in s. */
  lemma ReportsPairAtSound(r: Result, s: seq<Point>)
    requires ReportsPairAt(r, s)
    ensures SoundIn(r, s)
  {
    var i, j :| 0 <= i < j < |s| && Reports(r, s[i], s[j]);
    PairSubMultiset(s, i, j);
  }

  /** Soundness carries over to any sequence holding at least the same entries. */
  lemma SoundInSuper(r: Result, s: seq<Point>, t: seq<Point>)
    requires SoundIn(r, s) && multiset(s) <= multiset(t)
    ensures SoundIn(r, t)
  {
    var a, b :| multiset{a, b} <= multiset(s) && Reports(r, a, b);
    assert multiset{a, b} <= multiset(t);
  }

  /** The reference distance is at most the distance of any two entries of s. */
  lemma ClosestDist2AtMostEntries(s: seq<Point>, a: Point, b: Point)
    requires |s| >= 2 && multiset{a, b} <= multiset(s)
    ensures ClosestDist2(s) <= Dist2(a, b)
  {
    var k, l := TwoPositions(s, a, b);
    if k < l {
      ClosestDist2Lower(s, k, l);
    } else {
      ClosestDist2Lower(s, l, k);
      Dist2Symmetric(a, b);
    }
  }

  /** A sound and optimal result carries exactly the reference distance: any
      two solvers with these properties agree on it. */
  lemma SoundOptimalIsMin(r: Result, s: seq<Point>)
    requires |s| >= 2
    requires SoundIn(r, s) && OptimalIn(r, s)
    ensures r.distance == Finite(ClosestDist2(s))
  {
    var a, b :| multiset{a, b} <= multiset(s) && Reports(r, a, b);
    ClosestDist2AtMostEntries(s, a, b);
    ClosestDist2Attained(s);
    var k, l :| 0 <= k < l < |s| && ClosestDist2(s) == Dist2(s[k], s[l]);
    assert AtMost(r.distance, Finite(Dist2(s[k], s[l])));
    assert Dist2(a, b) <= ClosestDist2(s);
  }

  /** The reference distance does not depend on the order of the points. */
  lemma ClosestDist2Permutation(s: seq<Point>, t: seq<Point>)
    requires |s| >= 2 && multiset(s) == multiset(t)
    ensures |t| == |s| && ClosestDist2(s) == ClosestDist2(t)
  {
    assert |t| == |multiset(t)| == |multiset(s)| == |s|;
    ClosestDist2Below(s, t);
    ClosestDist2Below(t, s);
  }

  lemma ClosestDist2Below(s: seq<Point>, t: seq<Point>)
    requires |s| >= 2 && |t| >= 2 && multiset(s) == multiset(t)
    ensures ClosestDist2(s) <= ClosestDist2(t)
  {
    ClosestDist2Attained(t);
    var i, j :| 0 <= i < j < |t| && ClosestDist2(t) == Dist2(t[i], t[j]);
    PairSubMultiset(t, i, j);
    ClosestDist2AtMostEntries(s, t[i], t[j]);
  }

  /** With unique identifiers, a sound result names two different points. */
  lemma SoundDistinctIds(r: Result, s: seq<Point>)
    requires SoundIn(r, s) && UniqueIds(s)
    ensures r.idx1 != r.idx2
  {
    var a, b :| multiset{a, b} <= multiset(s) && Reports(r, a, b);
    var k, l := TwoPositions(s, a, b);
  }

  /** Optimality carries over to any permutation. */
  lemma OptimalInPermutation(r: Result, s: seq<Point>, t: seq<Point>)
    requires OptimalIn(r, s) && multiset(s) == multiset(t)
    ensures OptimalIn(r, t)
  {
    forall i, j | 0 <= i < j < |t| ensures AtMost(r.distance, Finite(Dist2(t[i], t[j]))) {
      PairSubMultiset(t, i, j);
      var a, b := TwoPositions(s, t[i], t[j]);
      if a < b {
        assert AtMost(r.distance, Finite(Dist2(s[a], s[b])));
      } else {
        assert AtMost(r.distance, Finite(Dist2(s[b], s[a])));
        Dist2Symmetric(s[a], s[b]);
      }
    }
  }

}
