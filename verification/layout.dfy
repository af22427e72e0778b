/** The index's storage: two parallel arrays `ids` and `points` reorganised
    into an implicit KD-tree, the swap that keeps them in step, and the
    invariants that construction establishes and the queries rely on. */
module Layout {
  import opened Geometry

  /** The built index. `ids[i]` is the input position of the point stored
      at `points[i]`; ranges of at most `nodeSize + 1` positions are leaf
      buckets. The Rust implementation stores `nodeSize` as an 8-bit
      integer. */
  datatype KDBush = KDBush(ids: seq<nat>, points: seq<Point>, nodeSize: nat)

  /** The identifiers 0, 1, ..., n-1 in input order. */
  function Iota(n: nat): (s: seq<nat>)
    ensures |s| == n
  {
    if n == 0 then [] else Iota(n - 1) + [n - 1]
  }

  /** Each identifier below `n` occurs exactly once in `Iota(n)`, and no
      other identifier occurs. */
  lemma {:induction false} IotaCount(n: nat, id: nat)
    ensures multiset(Iota(n))[id] == if id < n then 1 else 0
  {
    if n > 0 {
      IotaCount(n - 1, id);
      CountSnoc(Iota(n), Iota(n - 1), n - 1, id);
    } else {
      assert Iota(n) == [];
    }
  }

  /** Appending `x` adds one occurrence of `x` and none of anything else. */
  lemma CountSnoc(b: seq<nat>, a: seq<nat>, x: nat, id: nat)
    requires b == a + [x]
    ensures multiset(b)[id] == multiset(a)[id] + (if id == x then 1 else 0)
  {
    assert multiset(a + [x]) == multiset(a) + multiset{x};
  }

  /** Position by position, `pts` holds the input point that `ids` names. */
  ghost predicate Paired(ids: seq<nat>, pts: seq<Point>, src: seq<Point>) {
    && |ids| == |pts|
    && forall i :: 0 <= i < |ids| ==> ids[i] < |src| && pts[i] == src[ids[i]]
  }

  /** Every position of [lo, hi] has `axis`-coordinate at most `v`. */
  ghost predicate AllAtMost(pts: seq<Point>, lo: int, hi: int, axis: Axis, v: int)
    requires 0 <= lo && hi < |pts|
  {
    forall p {:trigger Coord(pts[p], axis)} :: lo <= p <= hi ==> Coord(pts[p], axis) <= v
  }

  /** Every position of [lo, hi] has `axis`-coordinate at least `v`. */
  ghost predicate AllAtLeast(pts: seq<Point>, lo: int, hi: int, axis: Axis, v: int)
    requires 0 <= lo && hi < |pts|
  {
    forall p {:trigger Coord(pts[p], axis)} :: lo <= p <= hi ==> v <= Coord(pts[p], axis)
  }

  /** `ids'`/`pts'` arise from `ids`/`pts` by rearranging positions inside
      [lo, hi] only: both arrays keep their contents, and every position
      outside the range is untouched. */
  ghost predicate PermutedWithin(ids: seq<nat>, pts: seq<Point>, ids': seq<nat>, pts': seq<Point>, lo: int, hi: int) {
    && |ids| == |pts| == |ids'| == |pts'|
    && multiset(ids') == multiset(ids)
    && multiset(pts') == multiset(pts)
    && forall p :: 0 <= p < |pts| && (p < lo || hi < p) ==> ids'[p] == ids[p] && pts'[p] == pts[p]
  }

  /** The KD invariant of the range [left, right] split on `axis`: a range
      longer than a leaf bucket has its mid position `(left + right) / 2`
      bounding the left part from above and the right part from below on
      `axis`, and both parts satisfy the invariant on the other axis. */
  ghost predicate KdOrdered(pts: seq<Point>, left: int, right: int, axis: Axis, nodeSize: nat)
    requires 0 <= left && right < |pts|
    decreases right - left
  {
    || right - left <= nodeSize
    || var m := (left + right) / 2;
       && AllAtMost(pts, left, m - 1, axis, Coord(pts[m], axis))
       && AllAtLeast(pts, m + 1, right, axis, Coord(pts[m], axis))
       && KdOrdered(pts, left, m - 1, NextAxis(axis), nodeSize)
       && KdOrdered(pts, m + 1, right, NextAxis(axis), nodeSize)
  }

  /** What a finished build guarantees about an index over the input `src`:
      the ids are a permutation of 0..N-1, each position holds the input
      point its id names, the whole array satisfies the KD invariant, and
      the node size is 0 only over a single point. */
  ghost predicate Built(t: KDBush, src: seq<Point>) {
    && |src| >= 1
    && (t.nodeSize >= 1 || |src| == 1)
    && |t.ids| == |src|
    && multiset(t.ids) == multiset(Iota(|src|))
    && Paired(t.ids, t.points, src)
    && KdOrdered(t.points, 0, |src| - 1, 0, t.nodeSize)
  }

  /** Exchanges positions `i` and `j` in both arrays at once. */
  method SwapItem(ids: seq<nat>, pts: seq<Point>, i: int, j: int) returns (ids': seq<nat>, pts': seq<Point>)
    requires |ids| == |pts| && 0 <= i < |ids| && 0 <= j < |ids|
    ensures |ids'| == |pts'| == |ids|
    ensures ids'[i] == ids[j] && pts'[i] == pts[j]
    ensures ids'[j] == ids[i] && pts'[j] == pts[i]
    ensures forall p :: 0 <= p < |ids| && p != i && p != j ==> ids'[p] == ids[p] && pts'[p] == pts[p]
    ensures multiset(ids') == multiset(ids) && multiset(pts') == multiset(pts)
    ensures forall src :: Paired(ids, pts, src) ==> Paired(ids', pts', src)
  {
    ids' := ids[i := ids[j]][j := ids[i]];
    pts' := pts[i := pts[j]][j := pts[i]];
    forall src | Paired(ids, pts, src)
      ensures Paired(ids', pts', src)
    {
      forall p | 0 <= p < |ids'|
        ensures ids'[p] < |src| && pts'[p] == src[ids'[p]]
      {
        var q := if p == j then i else if p == i then j else p;
        assert ids'[p] == ids[q] && pts'[p] == pts[q];
      }
    }
  }

  /** Rearranging inside [lo, hi] leaves the range holding the same
      multiset of elements. */
  lemma SliceMultiset<T>(a: seq<T>, b: seq<T>, lo: int, hi: int)
    requires |a| == |b| && 0 <= lo <= hi < |a|
    requires multiset(a) == multiset(b)
    requires forall p :: 0 <= p < |a| && (p < lo || hi < p) ==> a[p] == b[p]
    ensures multiset(a[lo..hi + 1]) == multiset(b[lo..hi + 1])
  {
    assert a[..lo] == b[..lo];
    assert a[hi + 1..] == b[hi + 1..];
    assert a == a[..lo] + a[lo..hi + 1] + a[hi + 1..];
    assert b == b[..lo] + b[lo..hi + 1] + b[hi + 1..];
    assert multiset(a) == multiset(a[..lo]) + multiset(a[lo..hi + 1]) + multiset(a[hi + 1..]);
    assert multiset(b) == multiset(b[..lo]) + multiset(b[lo..hi + 1]) + multiset(b[hi + 1..]);
    assert multiset(a[lo..hi + 1]) == multiset(a) - multiset(a[..lo]) - multiset(a[hi + 1..]);
    assert multiset(b[lo..hi + 1]) == multiset(b) - multiset(b[..lo]) - multiset(b[hi + 1..]);
  }

  /** A lower bound on a range survives any rearrangement inside it. */
  lemma AtLeastKept(a: seq<Point>, b: seq<Point>, lo: int, hi: int, axis: Axis, v: int)
    requires |a| == |b| && 0 <= lo && hi < |a|
    requires multiset(a) == multiset(b)
    requires forall p :: 0 <= p < |a| && (p < lo || hi < p) ==> a[p] == b[p]
    requires AllAtLeast(a, lo, hi, axis, v)
    ensures AllAtLeast(b, lo, hi, axis, v)
  {
    if lo <= hi {
      SliceMultiset(a, b, lo, hi);
      forall q | lo <= q <= hi
        ensures v <= Coord(b[q], axis)
      {
        assert b[q] == b[lo..hi + 1][q - lo];
        assert b[q] in multiset(a[lo..hi + 1]);
        var w :| 0 <= w < hi + 1 - lo && a[lo..hi + 1][w] == b[q];
        assert a[lo + w] == b[q];
      }
    }
  }

  /** An upper bound on a range survives any rearrangement inside it. */
  lemma AtMostKept(a: seq<Point>, b: seq<Point>, lo: int, hi: int, axis: Axis, v: int)
    requires |a| == |b| && 0 <= lo && hi < |a|
    requires multiset(a) == multiset(b)
    requires forall p :: 0 <= p < |a| && (p < lo || hi < p) ==> a[p] == b[p]
    requires AllAtMost(a, lo, hi, axis, v)
    ensures AllAtMost(b, lo, hi, axis, v)
  {
    if lo <= hi {
      SliceMultiset(a, b, lo, hi);
      forall q | lo <= q <= hi
        ensures Coord(b[q], axis) <= v
      {
        assert b[q] == b[lo..hi + 1][q - lo];
        assert b[q] in multiset(a[lo..hi + 1]);
        var w :| 0 <= w < hi + 1 - lo && a[lo..hi + 1][w] == b[q];
        assert a[lo + w] == b[q];
      }
    }
  }

  /** The KD invariant of [left, right] depends only on the points stored
      inside that range. */
  lemma {:induction false} KdOrderedFrame(a: seq<Point>, b: seq<Point>, left: int, right: int, axis: Axis, nodeSize: nat)
    requires |a| == |b| && 0 <= left && right < |a|
    requires forall p :: left <= p <= right ==> a[p] == b[p]
    requires KdOrdered(a, left, right, axis, nodeSize)
    ensures KdOrdered(b, left, right, axis, nodeSize)
    decreases right - left
  {
    if right - left > nodeSize {
      var m := (left + right) / 2;
      KdOrderedFrame(a, b, left, m - 1, NextAxis(axis), nodeSize);
      KdOrderedFrame(a, b, m + 1, right, NextAxis(axis), nodeSize);
    }
  }

  /** A range longer than a leaf bucket is KD-ordered once its median
      position `m` bounds both halves and both halves are KD-ordered on the
      other axis. */
  lemma KdOrderedNode(pts: seq<Point>, left: int, right: int, m: int, axis: Axis, nodeSize: nat)
    requires 0 <= left && right < |pts| && right - left > nodeSize && m == (left + right) / 2
    requires AllAtMost(pts, left, m - 1, axis, Coord(pts[m], axis))
    requires AllAtLeast(pts, m + 1, right, axis, Coord(pts[m], axis))
    requires KdOrdered(pts, left, m - 1, NextAxis(axis), nodeSize)
    requires KdOrdered(pts, m + 1, right, NextAxis(axis), nodeSize)
    ensures KdOrdered(pts, left, right, axis, nodeSize)
  {
  }

  /** A bound on a range depends only on the points inside it. */
  lemma AtMostFrame(a: seq<Point>, b: seq<Point>, lo: int, hi: int, axis: Axis, v: int)
    requires |a| == |b| && 0 <= lo && hi < |a|
    requires forall p :: lo <= p <= hi ==> a[p] == b[p]
    requires AllAtMost(a, lo, hi, axis, v)
    ensures AllAtMost(b, lo, hi, axis, v)
  {
    forall p | lo <= p <= hi
      ensures Coord(b[p], axis) <= v
    {
      assert a[p] == b[p];
    }
  }

  /** A lower bound on a range depends only on the points inside it. */
  lemma AtLeastFrame(a: seq<Point>, b: seq<Point>, lo: int, hi: int, axis: Axis, v: int)
    requires |a| == |b| && 0 <= lo && hi < |a|
    requires forall p :: lo <= p <= hi ==> a[p] == b[p]
    requires AllAtLeast(a, lo, hi, axis, v)
    ensures AllAtLeast(b, lo, hi, axis, v)
  {
    forall p | lo <= p <= hi
      ensures v <= Coord(b[p], axis)
    {
      assert a[p] == b[p];
    }
  }

  /** Two rearrangements inside sub-ranges of [lo, hi] compose to a
      rearrangement inside [lo, hi]. */
  lemma PermutedWithinTrans(ids0: seq<nat>, pts0: seq<Point>, ids1: seq<nat>, pts1: seq<Point>, ids2: seq<nat>, pts2: seq<Point>,
                            lo: int, hi: int, lo1: int, hi1: int, lo2: int, hi2: int)
    requires PermutedWithin(ids0, pts0, ids1, pts1, lo1, hi1)
    requires PermutedWithin(ids1, pts1, ids2, pts2, lo2, hi2)
    requires lo <= lo1 && hi1 <= hi && lo <= lo2 && hi2 <= hi
    ensures PermutedWithin(ids0, pts0, ids2, pts2, lo, hi)
  {
  }

  /** The four facts a KD-ordered range longer than a leaf bucket holds of
      its median position `m` and its two halves. */
  lemma KdOrderedParts(pts: seq<Point>, left: int, right: int, axis: Axis, nodeSize: nat, m: int)
    requires 0 <= left && right < |pts| && right - left > nodeSize && m == (left + right) / 2
    requires KdOrdered(pts, left, right, axis, nodeSize)
    ensures left <= m <= right
    ensures AllAtMost(pts, left, m - 1, axis, Coord(pts[m], axis))
    ensures AllAtLeast(pts, m + 1, right, axis, Coord(pts[m], axis))
    ensures KdOrdered(pts, left, m - 1, NextAxis(axis), nodeSize)
    ensures KdOrdered(pts, m + 1, right, NextAxis(axis), nodeSize)
  {
  }
}
