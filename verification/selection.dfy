/** Partial selection over the parallel arrays: rearranges a range so that
    one position holds the value a full sort on one axis would put there,
    with everything before it no greater and everything after it no
    smaller. This is the Hoare-partition loop of Floyd and Rivest's
    quickselect; the sampling step that narrows very large ranges is not
    modelled. */
module Selection {
  import opened Geometry
  import opened Layout

  /** One round of the two-pointer scan (the body of the inner loop of
      select): swap the out-of-place pair at `i` and `j`, step both
      pointers inward, then move `i` right past values below `t` and `j`
      left past values above `t`. The swapped values act as sentinels, so
      neither scan leaves the range. */
  method Exchange(ids: seq<nat>, pts: seq<Point>, i: int, j: int, left: int, right: int, axis: Axis, t: int)
    returns (ids': seq<nat>, pts': seq<Point>, i': int, j': int)
    requires |ids| == |pts| && 0 <= left <= i < j <= right < |pts|
    requires t <= Coord(pts[i], axis) && Coord(pts[j], axis) <= t
    requires AllAtMost(pts, left, i - 1, axis, t)
    requires AllAtLeast(pts, j + 1, right, axis, t)
    ensures |ids'| == |pts'| == |ids|
    ensures ids'[i] == ids[j] && pts'[i] == pts[j] && ids'[j] == ids[i] && pts'[j] == pts[i]
    ensures forall p :: 0 <= p < |ids| && p != i && p != j ==> ids'[p] == ids[p] && pts'[p] == pts[p]
    ensures multiset(ids') == multiset(ids) && multiset(pts') == multiset(pts)
    ensures forall src :: Paired(ids, pts, src) ==> Paired(ids', pts', src)
    ensures i < i' <= j && i <= j' < j
    ensures t <= Coord(pts'[i'], axis) && Coord(pts'[j'], axis) <= t
    ensures AllAtMost(pts', left, i' - 1, axis, t)
    ensures AllAtLeast(pts', j' + 1, right, axis, t)
  {
    ids', pts' := SwapItem(ids, pts, i, j);
    i' := i + 1;
    j' := j - 1;
    while Coord(pts'[i'], axis) < t
      invariant i < i' <= j
      invariant AllAtMost(pts', left, i' - 1, axis, t)
      decreases j - i'
    {
      i' := i' + 1;
    }
    while Coord(pts'[j'], axis) > t
      invariant i <= j' < j
      invariant AllAtLeast(pts', j' + 1, right, axis, t)
      decreases j' - i
    {
      j' := j' - 1;
    }
  }

  /** One pass of the selection loop over [left, right] with pivot value
      `t`, the coordinate found at `k`: the pivot is parked at a boundary
      (left if the right end is greater than `t`, otherwise right), a
      two-pointer scan swaps out-of-place pairs until the pointers cross,
      and the pivot is then moved to its settled position `j`. */
  method Partition(ids: seq<nat>, pts: seq<Point>, k: int, left: int, right: int, axis: Axis, ghost src: seq<Point>)
    returns (ids': seq<nat>, pts': seq<Point>, j: int)
    requires |ids| == |pts| && 0 <= left <= k <= right < |pts| && left < right
    requires Paired(ids, pts, src)
    ensures PermutedWithin(ids, pts, ids', pts', left, right)
    ensures Paired(ids', pts', src)
    ensures left <= j <= right
    ensures Coord(pts'[j], axis) == Coord(pts[k], axis)
    ensures AllAtMost(pts', left, j - 1, axis, Coord(pts[k], axis))
    ensures AllAtLeast(pts', j + 1, right, axis, Coord(pts[k], axis))
  {
    var t := Coord(pts[k], axis);
    var i := left;
    j := right;

    ids', pts' := SwapItem(ids, pts, left, k);
    if Coord(pts'[right], axis) > t {
      ids', pts' := SwapItem(ids', pts', left, right);
    }

    while i < j
      invariant left <= i <= right && left <= j <= right
      invariant PermutedWithin(ids, pts, ids', pts', left, right)
      invariant Paired(ids', pts', src)
      invariant AllAtMost(pts', left, i - 1, axis, t)
      invariant AllAtLeast(pts', j + 1, right, axis, t)
      invariant t <= Coord(pts'[i], axis) && Coord(pts'[j], axis) <= t
      invariant i == left ==> j == right && (Coord(pts'[left], axis) == t || Coord(pts'[right], axis) == t)
      invariant left < i ==> j < right && Coord(pts'[left], axis) <= t
      invariant left < i && Coord(pts'[left], axis) != t ==> Coord(pts'[right], axis) == t
      decreases j - i
    {
      ids', pts', i, j := Exchange(ids', pts', i, j, left, right, axis, t);
    }

    ghost var prevIds, prevPts := ids', pts';
    ids', pts', j := SettlePivot(ids', pts', i, j, left, right, axis, t);
    PermutedWithinTrans(ids, pts, prevIds, prevPts, ids', pts', left, right, left, right, left, right);
  }

  /** The end of a pass, once the pointers have crossed: the pivot value
      `t` sits at one end of the range; it is swapped to `j` if it is at the
      left end, otherwise to `j + 1`, so that it separates the two sides. */
  method SettlePivot(ids: seq<nat>, pts: seq<Point>, i: int, j: int, left: int, right: int, axis: Axis, t: int)
    returns (ids': seq<nat>, pts': seq<Point>, j': int)
    requires |ids| == |pts| && 0 <= left < i <= right < |pts| && left <= j < right && j <= i
    requires Coord(pts[j], axis) <= t
    requires AllAtMost(pts, left, i - 1, axis, t)
    requires AllAtLeast(pts, j + 1, right, axis, t)
    requires Coord(pts[left], axis) == t || Coord(pts[right], axis) == t
    ensures PermutedWithin(ids, pts, ids', pts', left, right)
    ensures forall src :: Paired(ids, pts, src) ==> Paired(ids', pts', src)
    ensures left <= j' <= right
    ensures Coord(pts'[j'], axis) == t
    ensures AllAtMost(pts', left, j' - 1, axis, t)
    ensures AllAtLeast(pts', j' + 1, right, axis, t)
  {
    if Coord(pts[left], axis) == t {
      j' := j;
      ids', pts' := SwapItem(ids, pts, left, j);
      forall p | left <= p <= j - 1
        ensures Coord(pts'[p], axis) <= t
      {
        if p != left {
          assert pts'[p] == pts[p];
        }
      }
      forall p | j + 1 <= p <= right
        ensures t <= Coord(pts'[p], axis)
      {
        assert pts'[p] == pts[p];
      }
    } else {
      j' := j + 1;
      ids', pts' := SwapItem(ids, pts, j', right);
      forall p | left <= p <= j
        ensures Coord(pts'[p], axis) <= t
      {
        assert pts'[p] == pts[p];
      }
      forall p | j' + 1 <= p <= right
        ensures t <= Coord(pts'[p], axis)
      {
        if p != right {
          assert pts'[p] == pts[p];
        }
      }
    }
  }

  /** Rearranges [left, right] so that position `k` holds the `k - left`-th
      smallest `axis`-coordinate of the range: every position in [left, k)
      has a coordinate no greater, every position in (k, right] one no
      smaller. Only positions inside the range move, and ids move with
      their points. */
  method Select(ids: seq<nat>, pts: seq<Point>, k: int, left: int, right: int, axis: Axis, ghost src: seq<Point>)
    returns (ids': seq<nat>, pts': seq<Point>)
    requires |ids| == |pts| && 0 <= left <= k <= right < |pts|
    requires Paired(ids, pts, src)
    ensures PermutedWithin(ids, pts, ids', pts', left, right)
    ensures Paired(ids', pts', src)
    ensures AllAtMost(pts', left, k - 1, axis, Coord(pts'[k], axis))
    ensures AllAtLeast(pts', k + 1, right, axis, Coord(pts'[k], axis))
  {
    ids', pts' := ids, pts;
    var l, r := left, right;
    // Once the window has moved off an end of [left, right], `below`
    // (`above`) is a value separating the settled part on that side from
    // the rest.
    ghost var below, above := 0, 0;
    while r > l
      invariant left <= l && r <= right
      invariant (l <= k <= r) || (l == k + 1 && r == k - 1)
      invariant PermutedWithin(ids, pts, ids', pts', left, right)
      invariant Paired(ids', pts', src)
      invariant left < l ==> AllAtMost(pts', left, l - 1, axis, below) && AllAtLeast(pts', l, right, axis, below)
      invariant r < right ==> AllAtMost(pts', left, r, axis, above) && AllAtLeast(pts', r + 1, right, axis, above)
      decreases r - l
    {
      ghost var prevPts := pts';
      var j;
      ids', pts', j := Partition(ids', pts', k, l, r, axis, src);
      ghost var t := Coord(pts'[j], axis);
      if left < l {
        AtLeastKept(prevPts, pts', l, r, axis, below);
      }
      if r < right {
        AtMostKept(prevPts, pts', l, r, axis, above);
      }
      PivotSettles(pts', left, right, l, r, j, axis, below, above);
      if j <= k {
        l := j + 1;
        below := t;
      }
      if k <= j {
        r := j - 1;
        above := t;
      }
    }
  }

  /** After a pass over the window [l, r] of [left, right] that settled
      position `j`, the pivot value at `j` separates [left, j] from
      (j, right] and [left, j) from [j, right], given the separations
      already established at the window's ends. */
  lemma PivotSettles(pts: seq<Point>, left: int, right: int, l: int, r: int, j: int, axis: Axis, below: int, above: int)
    requires 0 <= left <= l <= j <= r <= right < |pts|
    requires left < l ==> AllAtMost(pts, left, l - 1, axis, below) && AllAtLeast(pts, l, right, axis, below)
    requires r < right ==> AllAtMost(pts, left, r, axis, above) && AllAtLeast(pts, r + 1, right, axis, above)
    requires AllAtMost(pts, l, j - 1, axis, Coord(pts[j], axis))
    requires AllAtLeast(pts, j + 1, r, axis, Coord(pts[j], axis))
    ensures AllAtMost(pts, left, j, axis, Coord(pts[j], axis)) && AllAtLeast(pts, j + 1, right, axis, Coord(pts[j], axis))
    ensures AllAtMost(pts, left, j - 1, axis, Coord(pts[j], axis)) && AllAtLeast(pts, j, right, axis, Coord(pts[j], axis))
  {
  }
}
