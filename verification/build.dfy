/** Bulk construction: copy the input into the parallel arrays with ids
    0..N-1, then lay the range out as an implicit KD-tree by selecting the
    median of each range on alternating axes. */
module Build {
  import opened Geometry
  import opened Layout
  import opened Selection
  import opened Wrappers

  /** Why a build is refused. The Rust implementation checks none of these
      and treats each as the caller's obligation; the model refuses them as
      invalid arguments. */
  datatype BuildError =
    | SizeMismatch   // the declared size is not the number of points supplied
    | EmptyInput     // no points: `size - 1` underflows
    | ZeroNodeSize   // node size 0 with two or more points: most sizes reach an empty child range, whose bounds underflow

  /** Leaf threshold: the Rust implementation stores it as an unsigned
      8-bit integer. */
  type NodeSize = n: nat | n < 256

  /** Lays out [left, right] as a KD-tree split first on `axis`: a range of
      more than `nodeSize + 1` positions gets its median on `axis` at
      `m = (left + right) / 2`, then both halves are laid out on the other
      axis. Ranges no longer than that are leaf buckets and stay as they
      are. */
  method SortKd(ids: seq<nat>, pts: seq<Point>, left: int, right: int, axis: Axis, nodeSize: nat, ghost src: seq<Point>)
    returns (ids': seq<nat>, pts': seq<Point>)
    requires |ids| == |pts| && 0 <= left <= right < |pts|
    requires nodeSize >= 1 || left == right
    requires Paired(ids, pts, src)
    ensures PermutedWithin(ids, pts, ids', pts', left, right)
    ensures Paired(ids', pts', src)
    ensures KdOrdered(pts', left, right, axis, nodeSize)
    ensures right - left <= nodeSize ==> ids' == ids && pts' == pts
    decreases right - left
  {
    if right - left <= nodeSize {
      return ids, pts;
    }
    var m := (left + right) / 2;
    var ids1, pts1 := Select(ids, pts, m, left, right, axis, src);
    var ids2, pts2 := SortKd(ids1, pts1, left, m - 1, NextAxis(axis), nodeSize, src);
    ids', pts' := SortKd(ids2, pts2, m + 1, right, NextAxis(axis), nodeSize, src);
    SplitOrdered(ids1, pts1, ids2, pts2, ids', pts', left, right, m, axis, nodeSize);
    assert PermutedWithin(ids, pts, ids', pts', left, right) by {
      PermutedWithinTrans(ids, pts, ids1, pts1, ids2, pts2, left, right, left, right, left, m - 1);
      PermutedWithinTrans(ids, pts, ids2, pts2, ids', pts', left, right, left, right, m + 1, right);
    }
  }

  /** The two halves of a split range, each laid out in turn after the
      median `m` was selected, make the whole range KD-ordered. */
  lemma SplitOrdered(ids1: seq<nat>, pts1: seq<Point>, ids2: seq<nat>, pts2: seq<Point>, ids3: seq<nat>, pts3: seq<Point>,
                     left: int, right: int, m: int, axis: Axis, nodeSize: nat)
    requires |pts1| == |ids1| && 0 <= left && right < |pts1| && right - left > nodeSize && m == (left + right) / 2
    requires AllAtMost(pts1, left, m - 1, axis, Coord(pts1[m], axis))
    requires AllAtLeast(pts1, m + 1, right, axis, Coord(pts1[m], axis))
    requires PermutedWithin(ids1, pts1, ids2, pts2, left, m - 1)
    requires KdOrdered(pts2, left, m - 1, NextAxis(axis), nodeSize)
    requires PermutedWithin(ids2, pts2, ids3, pts3, m + 1, right)
    requires KdOrdered(pts3, m + 1, right, NextAxis(axis), nodeSize)
    ensures KdOrdered(pts3, left, right, axis, nodeSize)
  {
    var c := Coord(pts1[m], axis);
    assert pts3[m] == pts2[m] == pts1[m];
    AtMostKept(pts1, pts2, left, m - 1, axis, c);
    AtMostFrame(pts2, pts3, left, m - 1, axis, c);
    AtLeastFrame(pts1, pts2, m + 1, right, axis, c);
    AtLeastKept(pts2, pts3, m + 1, right, axis, c);
    KdOrderedFrame(pts2, pts3, left, m - 1, NextAxis(axis), nodeSize);
    KdOrderedNode(pts3, left, right, m, axis, nodeSize);
  }

  /** Builds the index over `points`, of which the caller declares there are
      `size`: ids are assigned 0..N-1 in input order, then the whole array is
      laid out starting on the x axis. A declared size that is not the
      number of points, an empty input, and a node size of 0 over two or
      more points are refused; every other input gives a built index. */
  method Fill(points: seq<Point>, size: nat, nodeSize: NodeSize) returns (r: Result<KDBush, BuildError>)
    ensures size != |points| ==> r == Failure(SizeMismatch)
    ensures size == |points| == 0 ==> r == Failure(EmptyInput)
    ensures size == |points| >= 2 && nodeSize == 0 ==> r == Failure(ZeroNodeSize)
    ensures size == |points| >= 1 && (nodeSize >= 1 || size == 1) ==> r.Success?
    ensures r.Success? ==> Built(r.value, points) && r.value.nodeSize == nodeSize
  {
    if size != |points| {
      return Failure(SizeMismatch);
    }
    if size == 0 {
      return Failure(EmptyInput);
    }
    if nodeSize == 0 && size >= 2 {
      return Failure(ZeroNodeSize);
    }
    var t := BuildIndex(points, nodeSize);
    r := Success(t);
  }

  /** The build proper, on an input that passed the checks: copy, then lay
      out the whole array starting on the x axis. */
  method BuildIndex(points: seq<Point>, nodeSize: nat) returns (t: KDBush)
    requires |points| >= 1 && (nodeSize >= 1 || |points| == 1)
    ensures Built(t, points) && t.nodeSize == nodeSize
  {
    var ids, pts := Identity(points);
    var ids', pts' := SortKd(ids, pts, 0, |points| - 1, 0, nodeSize, points);
    t := KDBush(ids', pts', nodeSize);
    BuiltFromSort(ids, pts, ids', pts', points, nodeSize);
  }

  /** The arrays before layout: ids 0..N-1 in input order, each paired with
      its own input point. */
  method Identity(points: seq<Point>) returns (ids: seq<nat>, pts: seq<Point>)
    ensures ids == Iota(|points|) && pts == points
    ensures Paired(ids, pts, points)
  {
    ids, pts := [], [];
    var i := 0;
    while i < |points|
      invariant i <= |points|
      invariant ids == Iota(i) && pts == points[..i]
      invariant forall p :: 0 <= p < i ==> ids[p] == p
    {
      pts := pts + [points[i]];
      ids := ids + [i];
      i := i + 1;
    }
    assert pts == points;
  }

  /** Laying out the identity arrays over the whole range yields a built
      index. */
  lemma BuiltFromSort(ids: seq<nat>, pts: seq<Point>, ids': seq<nat>, pts': seq<Point>, points: seq<Point>, nodeSize: nat)
    requires |points| >= 1 && ids == Iota(|points|) && pts == points
    requires nodeSize >= 1 || |points| == 1
    requires PermutedWithin(ids, pts, ids', pts', 0, |points| - 1)
    requires Paired(ids', pts', points)
    requires KdOrdered(pts', 0, |points| - 1, 0, nodeSize)
    ensures Built(KDBush(ids', pts', nodeSize), points)
  {
  }
}
