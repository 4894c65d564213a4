/** Sequence views of a point set: the orders std::sort produces, the filters
    the divide-and-conquer solver builds with push_back loops, and the facts
    about multisets that relate the views to one another. */
module Views {
  import opened Points
  import opened Results

  /** Non-decreasing along an axis: no later point compares below an earlier one. */
  predicate Sorted(s: seq<Point>, axis: Axis) {
    forall i, j :: 0 <= i < j < |s| ==> !Precedes(axis, s[j], s[i])
  }

  /** Strictly increasing x-coordinates (sorted by x with no repeated x). */
  predicate StrictlySortedX(s: seq<Point>) {
    forall i, j :: 0 <= i < j < |s| ==> CompareX(s[i], s[j])
  }

  /** Pairwise distinct x-coordinates. */
  predicate DistinctX(s: seq<Point>) {
    forall i, j :: 0 <= i < j < |s| ==> s[i].x != s[j].x
  }

  /** No point value occurs twice. */
  ghost predicate NoDup(s: seq<Point>) {
    forall v :: multiset(s)[v] <= 1
  }

  // ---------------------------------------------------------------------------
  // Sorting: the postcondition of std::sort

  function Insert(p: Point, s: seq<Point>, axis: Axis): (t: seq<Point>)
    requires Sorted(s, axis)
    ensures Sorted(t, axis)
    ensures multiset(t) == multiset(s) + multiset{p}
    ensures |t| == |s| + 1
  {
    if s == [] then [p]
    else if !Precedes(axis, s[0], p) then
      [p] + s
    else
      var rest := Insert(p, s[1..], axis);
      assert s == [s[0]] + s[1..];
      assert forall k :: 0 <= k < |rest| ==> !Precedes(axis, rest[k], s[0]) by {
        forall k | 0 <= k < |rest|
          ensures !Precedes(axis, rest[k], s[0])
        {
          assert rest[k] in multiset(rest);
          if rest[k] != p {
            assert rest[k] in multiset(s[1..]);
            var m :| 0 <= m < |s[1..]| && s[1..][m] == rest[k];
            assert s[m + 1] == rest[k];
          }
        }
      }
      [s[0]] + rest
  }

  /** A sorted permutation of s along the axis (std::sort with compareX or
      compareY; any algorithm with this contract would serve). */
  function SortBy(s: seq<Point>, axis: Axis): (t: seq<Point>)
    ensures Sorted(t, axis)
    ensures multiset(t) == multiset(s)
    ensures |t| == |s|
  {
    if s == [] then []
    else
      assert s == [s[0]] + s[1..];
      Insert(s[0], SortBy(s[1..], axis), axis)
  }

  // ---------------------------------------------------------------------------
  // Filters

  /** Which points a push_back loop keeps. */
  datatype Keep =
    | LeftOf(xs: int)                // x <= x*
    | RightOf(xs: int)               // x > x*
    | InStrip(xs: int, delta: Dist)  // |x - x*| < delta, on squares

  predicate Keeps(k: Keep, p: Point) {
    match k
    case LeftOf(xs) => p.x <= xs
    case RightOf(xs) => p.x > xs
    case InStrip(xs, delta) => Below(Finite(Sq(p.x - xs)), delta)
  }

  /** The points of s that k keeps, in their order in s. */
  function Filter(s: seq<Point>, k: Keep): (t: seq<Point>)
    ensures |t| <= |s|
  {
    if s == [] then []
    else
      var last := s[|s| - 1];
      Filter(s[..|s| - 1], k) + (if Keeps(k, last) then [last] else [])
  }

  /** Filtering one more point at the end. */
  lemma FilterSnoc(s: seq<Point>, p: Point, k: Keep)
    ensures Filter(s + [p], k) == Filter(s, k) + (if Keeps(k, p) then [p] else [])
  {
    assert (s + [p])[..|s + [p]| - 1] == s;
  }

  /** Each point keeps its multiplicity if k keeps it and is dropped otherwise. */
  lemma {:induction false} FilterCount(s: seq<Point>, k: Keep, v: Point)
    ensures multiset(Filter(s, k))[v] == if Keeps(k, v) then multiset(s)[v] else 0
  {
    if s != [] {
      var init, last := s[..|s| - 1], s[|s| - 1];
      assert s == init + [last];
      FilterCount(init, k, v);
    }
  }

  lemma FilterSubMultiset(s: seq<Point>, k: Keep)
    ensures multiset(Filter(s, k)) <= multiset(s)
  {
    forall v ensures multiset(Filter(s, k))[v] <= multiset(s)[v] {
      FilterCount(s, k, v);
    }
  }

  lemma FilterMember(s: seq<Point>, k: Keep, p: Point)
    ensures p in Filter(s, k) <==> p in s && Keeps(k, p)
  {
    FilterCount(s, k, p);
    assert p in Filter(s, k) <==> p in multiset(Filter(s, k));
    assert p in s <==> p in multiset(s);
  }

  /** Filtering two permutations of each other gives permutations of each other. */
  lemma FilterPermutation(s: seq<Point>, t: seq<Point>, k: Keep)
    requires multiset(s) == multiset(t)
    ensures multiset(Filter(s, k)) == multiset(Filter(t, k))
  {
    forall v ensures multiset(Filter(s, k))[v] == multiset(Filter(t, k))[v] {
      FilterCount(s, k, v);
      FilterCount(t, k, v);
    }
  }

  lemma {:induction false} FilterAppend(s: seq<Point>, t: seq<Point>, k: Keep)
    ensures Filter(s + t, k) == Filter(s, k) + Filter(t, k)
    decreases |t|
  {
    if t != [] {
      var init, last := t[..|t| - 1], t[|t| - 1];
      assert (s + t)[..|s + t| - 1] == s + init;
      FilterAppend(s, init, k);
    } else {
      assert s + t == s;
    }
  }

  lemma {:induction false} FilterAll(s: seq<Point>, k: Keep)
    requires forall i :: 0 <= i < |s| ==> Keeps(k, s[i])
    ensures Filter(s, k) == s
  {
    if s != [] {
      FilterAll(s[..|s| - 1], k);
    }
  }

  lemma {:induction false} FilterNone(s: seq<Point>, k: Keep)
    requires forall i :: 0 <= i < |s| ==> !Keeps(k, s[i])
    ensures Filter(s, k) == []
  {
    if s != [] {
      FilterNone(s[..|s| - 1], k);
    }
  }

  /** A filter of a sorted sequence is sorted. */
  lemma {:induction false} FilterSorted(s: seq<Point>, k: Keep, axis: Axis)
    requires Sorted(s, axis)
    ensures Sorted(Filter(s, k), axis)
  {
    if s != [] {
      var init, last := s[..|s| - 1], s[|s| - 1];
      FilterSorted(init, k, axis);
      var f := Filter(init, k);
      forall i | 0 <= i < |f| ensures !Precedes(axis, last, f[i]) {
        FilterMember(init, k, f[i]);
        var m :| 0 <= m < |init| && init[m] == f[i];
      }
    }
  }

  lemma SortedPrefix(s: seq<Point>, n: nat, axis: Axis)
    requires Sorted(s, axis) && n <= |s|
    ensures Sorted(s[..n], axis)
  {
    forall i, j | 0 <= i < j < n ensures !Precedes(axis, s[..n][j], s[..n][i]) {
      assert s[..n][i] == s[i] && s[..n][j] == s[j];
    }
  }

  /** Splitting a strictly x-sorted sequence after position mid - 1: the left
      filter is the prefix and the right filter the suffix. */
  lemma SplitFilters(s: seq<Point>, mid: nat)
    requires StrictlySortedX(s) && 0 < mid <= |s|
    ensures Filter(s, LeftOf(s[mid - 1].x)) == s[..mid]
    ensures Filter(s, RightOf(s[mid - 1].x)) == s[mid..]
  {
    SplitSides(s, mid);
    assert s == s[..mid] + s[mid..];
    SplitFiltersOf(s[..mid], s[mid..], s[mid - 1].x);
  }

  /** The prefix up to mid lies at or left of s[mid - 1].x, the rest strictly right. */
  lemma SplitSides(s: seq<Point>, mid: nat)
    requires StrictlySortedX(s) && 0 < mid <= |s|
    ensures forall i :: 0 <= i < |s[..mid]| ==> s[..mid][i].x <= s[mid - 1].x
    ensures forall i :: 0 <= i < |s[mid..]| ==> s[mid..][i].x > s[mid - 1].x
  {
    forall i | 0 <= i < mid ensures s[..mid][i].x <= s[mid - 1].x {
      if i < mid - 1 { assert CompareX(s[i], s[mid - 1]); }
    }
    forall i | 0 <= i < |s| - mid ensures s[mid..][i].x > s[mid - 1].x {
      assert CompareX(s[mid - 1], s[mid + i]);
    }
  }

  lemma SplitFiltersOf(lo: seq<Point>, hi: seq<Point>, xs: int)
    requires forall i :: 0 <= i < |lo| ==> lo[i].x <= xs
    requires forall i :: 0 <= i < |hi| ==> hi[i].x > xs
    ensures Filter(lo + hi, LeftOf(xs)) == lo
    ensures Filter(lo + hi, RightOf(xs)) == hi
  {
    FilterAppend(lo, hi, LeftOf(xs));
    FilterAppend(lo, hi, RightOf(xs));
    FilterAll(lo, LeftOf(xs));
    FilterNone(hi, LeftOf(xs));
    FilterNone(lo, RightOf(xs));
    FilterAll(hi, RightOf(xs));
    assert lo + [] == lo && [] + hi == hi;
  }

  // ---------------------------------------------------------------------------
  // Positions and multiplicities

  /** Two different positions of s form a sub-multiset of s. */
  lemma PairSubMultiset(s: seq<Point>, i: int, j: int)
    requires 0 <= i < |s| && 0 <= j < |s| && i != j
    ensures multiset{s[i], s[j]} <= multiset(s)
  {
    var a, b := if i < j then i else j, if i < j then j else i;
    var front := s[..b];
    assert s == front + [s[b]] + s[b + 1..];
    assert front[a] == s[a];
    assert s[a] in multiset(front);
    assert multiset(s) == multiset(front) + multiset{s[b]} + multiset(s[b + 1..]);
    assert multiset{s[i], s[j]} == multiset{s[a]} + multiset{s[b]};
  }

  /** Without duplicates, different positions hold different points. */
  lemma NoDupAt(s: seq<Point>, i: int, j: int)
    requires NoDup(s) && 0 <= i < |s| && 0 <= j < |s| && i != j
    ensures s[i] != s[j]
  {
    PairSubMultiset(s, i, j);
  }

  /** A two-entry sub-multiset of t sits at two different positions of t. */
  lemma TwoPositions(t: seq<Point>, a: Point, b: Point) returns (k: int, l: int)
    requires multiset{a, b} <= multiset(t)
    ensures 0 <= k < |t| && 0 <= l < |t| && k != l && t[k] == a && t[l] == b
  {
    assert a in multiset(t);
    k :| 0 <= k < |t| && t[k] == a;
    var u := t[..k] + t[k + 1..];
    assert t == t[..k] + [a] + t[k + 1..];
    assert multiset(t) == multiset(u) + multiset{a};
    assert multiset{a, b} == multiset{b} + multiset{a};
    assert b in multiset(u);
    var m :| 0 <= m < |u| && u[m] == b;
    l := if m < k then m else m + 1;
  }

  lemma {:induction false} DistinctXNoDup(s: seq<Point>)
    requires DistinctX(s)
    ensures NoDup(s)
  {
    if s != [] {
      var rest := s[1..];
      assert DistinctX(rest);
      DistinctXNoDup(rest);
      assert s == [s[0]] + rest;
      assert s[0] !in rest;
      forall v ensures multiset(s)[v] <= 1 {
        assert multiset(s)[v] == multiset{s[0]}[v] + multiset(rest)[v];
      }
    }
  }

  lemma NoDupSub(s: seq<Point>, t: seq<Point>)
    requires NoDup(t) && multiset(s) <= multiset(t)
    ensures NoDup(s)
  {
    forall v ensures multiset(s)[v] <= 1 {
      assert multiset(s)[v] <= multiset(t)[v];
    }
  }

  /** Distinct x-coordinates survive a permutation. */
  lemma DistinctXPermutation(s: seq<Point>, t: seq<Point>)
    requires DistinctX(s) && multiset(s) == multiset(t)
    ensures DistinctX(t)
  {
    DistinctXNoDup(s);
    NoDupSub(t, s);
    forall i, j | 0 <= i < j < |t| ensures t[i].x != t[j].x {
      NoDupAt(t, i, j);
      assert t[i] in multiset(s) && t[j] in multiset(s);
      var a :| 0 <= a < |s| && s[a] == t[i];
      var b :| 0 <= b < |s| && s[b] == t[j];
      assert a != b;
    }
  }
}
