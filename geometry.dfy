/** `closest_pair_line` from geometry.py: the two closest numbers on a line. */
module Geometry {
  import opened Wrappers
  import opened Builtins

  /** The distance between two points on the line. */
  function Distance(x: int, y: int): int {
    if x <= y then y - x else x - y
  }

  /** The gap between sorted neighbours i - 1 and i. */
  function Gap(v: seq<int>, i: int): int
    requires 1 <= i < |v|
  {
    v[i] - v[i - 1]
  }

  /**
   * The index i in [1, k] of the least gap, the earliest one on ties: `min`
   * over the tuples `(gap, (i, i - 1))` compares the index after the gap.
   */
  function MinGapIndex(v: seq<int>, k: int): (i: int)
    requires 1 <= k < |v|
    ensures 1 <= i <= k
    ensures forall m :: 1 <= m <= k ==> Gap(v, i) <= Gap(v, m)
    ensures forall m :: 1 <= m < i ==> Gap(v, m) > Gap(v, i)
  {
    if k == 1 then 1
    else
      var best := MinGapIndex(v, k - 1);
      if Gap(v, k) < Gap(v, best) then k else best
  }

  /** The pair at the least (earliest) gap of a sorted list, smaller first. */
  function ClosestNeighbours(v: seq<int>): (r: (int, int))
    requires |v| >= 2
  {
    var i := MinGapIndex(v, |v| - 1);
    var x, y := v[i], v[i - 1];
    (if x <= y then x else y, if x <= y then y else x)
  }

  /**
   * `closest_pair_line(sequence)`: sort, take the least gap between sorted
   * neighbours, and return its two ends smaller first.
   */
  function ClosestPairLine(s: seq<int>): (r: Result<(int, int)>)
    ensures |s| < 2 <==> r.Failure?
    ensures r.Failure? ==> r.error == ValueError
    ensures r.Success? ==> r.value.0 <= r.value.1
  {
    if |s| < 2 then Failure(ValueError) else Success(ClosestNeighbours(Sort(s)))
  }

  /** Two values held at two positions p < q form a sub-multiset. */
  lemma OrderedPositionsGivePair(s: seq<int>, p: int, q: int)
    requires 0 <= p < q < |s|
    ensures multiset{s[p], s[q]} <= multiset(s)
  {
    var a, b := s[..q], s[q..];
    assert s == a + b;
    assert s[p] == a[p] && s[q] == b[0];
    assert multiset(s) == multiset(a) + multiset(b);
  }

  /** Two values held at two distinct positions form a sub-multiset. */
  lemma PositionsGivePair(s: seq<int>, p: int, q: int)
    requires 0 <= p < |s| && 0 <= q < |s| && p != q
    ensures multiset{s[p], s[q]} <= multiset(s)
  {
    if p < q {
      OrderedPositionsGivePair(s, p, q);
    } else {
      OrderedPositionsGivePair(s, q, p);
      assert multiset{s[p], s[q]} == multiset{s[q], s[p]};
    }
  }

  /** A sub-multiset of two values sits at two distinct positions. */
  lemma PairGivesPositions(s: seq<int>, x: int, y: int)
    requires multiset{x, y} <= multiset(s)
    ensures exists p, q :: 0 <= p < |s| && 0 <= q < |s| && p != q && s[p] == x && s[q] == y
  {
    assert x in multiset(s);
    var p :| 0 <= p < |s| && s[p] == x;
    var rest := s[..p] + s[p + 1..];
    assert s == s[..p] + [x] + s[p + 1..];
    assert multiset(rest) == multiset(s) - multiset{x};
    assert y in multiset(rest);
    var r :| 0 <= r < |rest| && rest[r] == y;
    var q := if r < p then r else r + 1;
    assert s[q] == y;
  }

  /** `ClosestPairLine` on a list of at least two is `ClosestNeighbours` of its sorted copy. */
  lemma ClosestPairOfSorted(s: seq<int>)
    requires |s| >= 2
    ensures ClosestPairLine(s) == Success(ClosestNeighbours(Sort(s)))
  {
  }

  /** In a sorted list the neighbours at the least gap come out in list order. */
  lemma NeighboursInOrder(v: seq<int>)
    requires |v| >= 2 && Sorted(v)
    ensures var k := MinGapIndex(v, |v| - 1); ClosestNeighbours(v) == (v[k - 1], v[k])
  {
    var k := MinGapIndex(v, |v| - 1);
    assert v[k - 1] <= v[k];
  }

  /** The neighbours of a sorted permutation of s sit at two distinct positions of s. */
  lemma NeighboursFromInput(s: seq<int>, v: seq<int>)
    requires |v| >= 2 && Sorted(v) && multiset(v) == multiset(s)
    ensures exists p, q ::
      0 <= p < |s| && 0 <= q < |s| && p != q &&
      s[p] == ClosestNeighbours(v).0 && s[q] == ClosestNeighbours(v).1
  {
    NeighboursInOrder(v);
    var k := MinGapIndex(v, |v| - 1);
    PositionsGivePair(v, k - 1, k);
    PairGivesPositions(s, v[k - 1], v[k]);
  }

  /** The result is taken from two distinct positions of the input. */
  lemma ClosestPairFromInput(s: seq<int>)
    requires |s| >= 2
    ensures exists p, q ::
      0 <= p < |s| && 0 <= q < |s| && p != q &&
      s[p] == ClosestPairLine(s).value.0 && s[q] == ClosestPairLine(s).value.1
  {
    ClosestPairOfSorted(s);
    NeighboursFromInput(s, Sort(s));
  }

  /** In sorted order, two distinct positions are at least the least neighbour gap apart. */
  lemma SortedDistanceAtLeastMinGap(v: seq<int>, p: int, q: int)
    requires Sorted(v) && 0 <= p < q < |v|
    ensures v[q] - v[p] >= Gap(v, MinGapIndex(v, |v| - 1))
  {
    assert Gap(v, p + 1) >= Gap(v, MinGapIndex(v, |v| - 1));
    assert p + 1 == q || v[p + 1] <= v[q];
  }

  /** No two distinct positions of s are closer than the neighbours of its sorted permutation. */
  lemma NeighboursAreClosest(s: seq<int>, v: seq<int>, p: int, q: int)
    requires |v| >= 2 && Sorted(v) && multiset(v) == multiset(s)
    requires 0 <= p < |s| && 0 <= q < |s| && p != q
    ensures ClosestNeighbours(v).1 - ClosestNeighbours(v).0 <= Distance(s[p], s[q])
  {
    NeighboursInOrder(v);
    PositionsGivePair(s, p, q);
    PairGivesPositions(v, s[p], s[q]);
    var pp, qq :| 0 <= pp < |v| && 0 <= qq < |v| && pp != qq && v[pp] == s[p] && v[qq] == s[q];
    if pp < qq {
      SortedDistanceAtLeastMinGap(v, pp, qq);
    } else {
      SortedDistanceAtLeastMinGap(v, qq, pp);
    }
  }

  /** No two distinct positions of the input are closer than the returned pair. */
  lemma ClosestPairIsClosest(s: seq<int>, p: int, q: int)
    requires 0 <= p < |s| && 0 <= q < |s| && p != q
    ensures ClosestPairLine(s).Success?
    ensures ClosestPairLine(s).value.1 - ClosestPairLine(s).value.0 <= Distance(s[p], s[q])
  {
    ClosestPairOfSorted(s);
    NeighboursAreClosest(s, Sort(s), p, q);
  }

  /** The earliest least gap is the one `MinGapIndex` finds. */
  lemma EarliestMinGapIsUnique(v: seq<int>, i: int)
    requires 1 <= i < |v|
    requires forall m :: 1 <= m < |v| ==> Gap(v, i) <= Gap(v, m)
    requires forall m :: 1 <= m < i ==> Gap(v, m) > Gap(v, i)
    ensures MinGapIndex(v, |v| - 1) == i
  {
    var k := MinGapIndex(v, |v| - 1);
    assert Gap(v, i) <= Gap(v, k) && Gap(v, k) <= Gap(v, i);
  }

  /**
   * The pair is the two ends of the least gap between sorted neighbours;
   * among equal least gaps, the earliest one wins.
   */
  lemma ClosestPairIsEarliestNeighbours(s: seq<int>, v: seq<int>, i: int)
    requires |s| >= 2 && v == Sort(s) && 1 <= i < |v|
    requires forall m :: 1 <= m < |v| ==> Gap(v, i) <= Gap(v, m)
    requires forall m :: 1 <= m < i ==> Gap(v, m) > Gap(v, i)
    ensures ClosestPairLine(s) == Success((v[i - 1], v[i]))
  {
    ClosestPairOfSorted(s);
    EarliestMinGapIsUnique(v, i);
    NeighboursInOrder(v);
  }

  /** Any sorted permutation of s is what `sorted` returns, so it determines the result. */
  lemma ClosestPairFromSortedCopy(s: seq<int>, v: seq<int>)
    requires |v| >= 2 && Sorted(v) && multiset(v) == multiset(s)
    ensures ClosestPairLine(s) == Success(ClosestNeighbours(v))
  {
    assert |s| == |multiset(s)| == |multiset(v)| == |v|;
    SortedPermutationsAreEqual(Sort(s), v);
  }

  /** In a sorted list whose earliest least gap is at i, the neighbours are v[i - 1] and v[i]. */
  lemma NeighboursAt(v: seq<int>, i: int)
    requires Sorted(v) && 1 <= i < |v|
    requires forall m :: 1 <= m < |v| ==> Gap(v, i) <= Gap(v, m)
    requires forall m :: 1 <= m < i ==> Gap(v, m) > Gap(v, i)
    ensures ClosestNeighbours(v) == (v[i - 1], v[i])
  {
    EarliestMinGapIsUnique(v, i);
    NeighboursInOrder(v);
  }

  // The docstring and test-file examples, stated on the sorted copies of their
  // inputs; `ClosestPairFromSortedCopy` carries each to the input itself.

  /** `closest_pair_line([0, 25, 50, 22, 75, 100]) == (22, 25)`. */
  lemma ExampleDoc1(v: seq<int>)
    requires v == [0, 22, 25, 50, 75, 100]
    ensures ClosestNeighbours(v) == (22, 25)
  {
    NeighboursAt(v, 2);
  }

  /** `closest_pair_line([100, 0, -100, 50, -50, -98]) == (-100, -98)`. */
  lemma ExampleDoc2(v: seq<int>)
    requires v == [-100, -98, -50, 0, 50, 100]
    ensures ClosestNeighbours(v) == (-100, -98)
  {
    NeighboursAt(v, 1);
  }

  /** `closest_pair_line([0, 2, 3, 5, 8]) == (2, 3)`. */
  lemma ExampleTest1(v: seq<int>)
    requires v == [0, 2, 3, 5, 8]
    ensures ClosestNeighbours(v) == (2, 3)
  {
    NeighboursAt(v, 2);
  }

  /** `closest_pair_line([5, 8]) == (5, 8)`. */
  lemma ExampleTest2(v: seq<int>)
    requires v == [5, 8]
    ensures ClosestNeighbours(v) == (5, 8)
  {
    NeighboursAt(v, 1);
  }

  /** `closest_pair_line([0, 20, 35, 40, 60, 80, 57]) == (57, 60)`. */
  lemma ExampleTest3(v: seq<int>)
    requires v == [0, 20, 35, 40, 57, 60, 80]
    ensures ClosestNeighbours(v) == (57, 60)
  {
    NeighboursAt(v, 5);
  }

  /** `closest_pair_line([50, 10, 30, 40, 20, 35, 14, 28]) == (28, 30)`. */
  lemma ExampleTest4(v: seq<int>)
    requires v == [10, 14, 20, 28, 30, 35, 40, 50]
    ensures ClosestNeighbours(v) == (28, 30)
  {
    NeighboursAt(v, 4);
  }

  /** `closest_pair_line([-20, -10, 0, 10, 20, -15, -6]) == (-10, -6)`. */
  lemma ExampleTest5(v: seq<int>)
    requires v == [-20, -15, -10, -6, 0, 10, 20]
    ensures ClosestNeighbours(v) == (-10, -6)
  {
    NeighboursAt(v, 3);
  }
}
