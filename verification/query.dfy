/** The box and radius queries. Both walk the implicit tree the build laid
    out, recomputing each node's range from indices: a leaf bucket is
    scanned in ascending position order; an internal range reports its mid
    point first if it matches, then visits the left half and then the right
    half, each only when the query reaches across the mid point's
    coordinate on the range's axis. The visitor callback of the Rust
    implementation is modelled by returning the visited ids in visiting
    order. */
module Query {
  import opened Geometry
  import opened Layout

  /** The id stored at position `p` if `g` contains its point, else
      nothing: what a query reports for one position. */
  function Here(t: KDBush, g: Region, p: int): (r: seq<nat>)
    requires |t.ids| == |t.points| && 0 <= p < |t.points|
    ensures forall id :: id in r ==> id == t.ids[p] && Contains(g, t.points[p])
  {
    if Contains(g, t.points[p]) then [t.ids[p]] else []
  }

  /** The ids of the points of [left, right] that `g` contains, in
      ascending position order: the leaf scan, and over a whole index the
      brute-force answer a query must agree with. */
  function Scan(t: KDBush, g: Region, left: int, right: int): (r: seq<nat>)
    requires |t.ids| == |t.points| && 0 <= left <= right + 1 <= |t.points|
    ensures forall id :: id in r <==> exists p :: left <= p <= right && t.ids[p] == id && Contains(g, t.points[p])
    decreases right - left + 1
  {
    if right < left then []
    else Here(t, g, left) + Scan(t, g, left + 1, right)
  }

  /** The traversal shared by both queries over the range [left, right]
      split on `axis`. Every id it reports belongs to a point of the range
      that `g` contains. */
  function Visit(t: KDBush, g: Region, left: int, right: int, axis: Axis): (r: seq<nat>)
    requires |t.ids| == |t.points| && 0 <= left <= right + 1 <= |t.points|
    ensures forall id :: id in r ==> exists p :: left <= p <= right && t.ids[p] == id && Contains(g, t.points[p])
    decreases right - left
  {
    if right - left <= t.nodeSize then Scan(t, g, left, right)
    else
      var m := (left + right) / 2;
      var c := Coord(t.points[m], axis);
      Here(t, g, m)
      + (if LowerReach(g, axis) <= c then Visit(t, g, left, m - 1, NextAxis(axis)) else [])
      + (if UpperReach(g, axis) >= c then Visit(t, g, m + 1, right, NextAxis(axis)) else [])
  }

  /** Box query: the ids visited for the box [minX, maxX] x [minY, maxY],
      bounds inclusive. Every reported id belongs to a point in the box. */
  function Range(t: KDBush, minX: int, minY: int, maxX: int, maxY: int): (r: seq<nat>)
    requires |t.ids| == |t.points| >= 1
    ensures forall id :: id in r ==>
      exists p :: 0 <= p < |t.ids| && t.ids[p] == id && minX <= t.points[p].x <= maxX && minY <= t.points[p].y <= maxY
  {
    Visit(t, Box(minX, minY, maxX, maxY), 0, |t.ids| - 1, 0)
  }

  /** Radius query: the ids visited for the disc of radius `r` around
      (qx, qy), boundary inclusive. Every reported id belongs to a point at
      squared distance at most `r * r` from the centre. */
  function Within(t: KDBush, qx: int, qy: int, r: int): (res: seq<nat>)
    requires |t.ids| == |t.points| >= 1
    ensures forall id :: id in res ==>
      exists p :: 0 <= p < |t.ids| && t.ids[p] == id && SqDist(t.points[p].x, t.points[p].y, qx, qy) <= r * r
  {
    Visit(t, Circle(qx, qy, r), 0, |t.ids| - 1, 0)
  }

  /** Scanning [left, right] is scanning [left, mid) and then [mid, right]. */
  lemma {:induction false} ScanSplit(t: KDBush, g: Region, left: int, mid: int, right: int)
    requires |t.ids| == |t.points| && 0 <= left <= mid <= right + 1 <= |t.points|
    ensures Scan(t, g, left, right) == Scan(t, g, left, mid - 1) + Scan(t, g, mid, right)
    decreases mid - left
  {
    if left < mid {
      ScanSplit(t, g, left + 1, mid, right);
    }
  }

  /** A range holding no contained point scans to nothing. */
  lemma {:induction false} ScanNone(t: KDBush, g: Region, left: int, right: int)
    requires |t.ids| == |t.points| && 0 <= left <= right + 1 <= |t.points|
    requires forall p :: left <= p <= right ==> !Contains(g, t.points[p])
    ensures Scan(t, g, left, right) == []
    decreases right - left + 1
  {
    if left <= right {
      ScanNone(t, g, left + 1, right);
    }
  }

  /** A part of a range lying wholly below the region's lower reach on
      `axis` holds no match. */
  lemma PrunedBelow(t: KDBush, g: Region, lo: int, hi: int, axis: Axis, c: int)
    requires |t.ids| == |t.points| && 0 <= lo <= hi + 1 <= |t.points|
    requires WellFormed(g) && c < LowerReach(g, axis)
    requires AllAtMost(t.points, lo, hi, axis, c)
    ensures Scan(t, g, lo, hi) == []
  {
    forall p | lo <= p <= hi
      ensures !Contains(g, t.points[p])
    {
      PruneSound(g, t.points[p], axis);
    }
    ScanNone(t, g, lo, hi);
  }

  /** A part of a range lying wholly above the region's upper reach on
      `axis` holds no match. */
  lemma PrunedAbove(t: KDBush, g: Region, lo: int, hi: int, axis: Axis, c: int)
    requires |t.ids| == |t.points| && 0 <= lo <= hi + 1 <= |t.points|
    requires WellFormed(g) && c > UpperReach(g, axis)
    requires AllAtLeast(t.points, lo, hi, axis, c)
    ensures Scan(t, g, lo, hi) == []
  {
    forall p | lo <= p <= hi
      ensures !Contains(g, t.points[p])
    {
      PruneSound(g, t.points[p], axis);
    }
    ScanNone(t, g, lo, hi);
  }

  /** Pruning loses nothing and the three parts of a node never overlap:
      over a KD-ordered range and a well-formed region, the traversal
      reports exactly the ids of the brute-force scan, each as many times,
      only in a different order. */
  lemma {:induction false} VisitMatchesScan(t: KDBush, g: Region, left: int, right: int, axis: Axis)
    requires |t.ids| == |t.points| && 0 <= left <= right + 1 <= |t.points|
    requires WellFormed(g)
    requires KdOrdered(t.points, left, right, axis, t.nodeSize)
    ensures multiset(Visit(t, g, left, right, axis)) == multiset(Scan(t, g, left, right))
    decreases right - left, 1
  {
    if right - left > t.nodeSize {
      var m := (left + right) / 2;
      KdOrderedParts(t.points, left, right, axis, t.nodeSize, m);
      LowerMatches(t, g, left, m, axis, Coord(t.points[m], axis));
      UpperMatches(t, g, m, right, axis, Coord(t.points[m], axis));
      NodeMatches(t, g, left, right, axis, m);
    }
  }

  /** At an internal node, the traversal matches the scan as soon as each
      half the traversal enters matches its scan and each half it skips
      scans to nothing. */
  lemma NodeMatches(t: KDBush, g: Region, left: int, right: int, axis: Axis, m: int)
    requires |t.ids| == |t.points| && 0 <= left <= right < |t.points|
    requires right - left > t.nodeSize && m == (left + right) / 2
    requires LowerReach(g, axis) <= Coord(t.points[m], axis)
             ==> multiset(Visit(t, g, left, m - 1, NextAxis(axis))) == multiset(Scan(t, g, left, m - 1))
    requires LowerReach(g, axis) > Coord(t.points[m], axis) ==> Scan(t, g, left, m - 1) == []
    requires UpperReach(g, axis) >= Coord(t.points[m], axis)
             ==> multiset(Visit(t, g, m + 1, right, NextAxis(axis))) == multiset(Scan(t, g, m + 1, right))
    requires UpperReach(g, axis) < Coord(t.points[m], axis) ==> Scan(t, g, m + 1, right) == []
    ensures multiset(Visit(t, g, left, right, axis)) == multiset(Scan(t, g, left, right))
  {
    VisitNodeCount(t, g, left, right, axis, m);
    ScanAroundCount(t, g, left, m, right);
    var c := Coord(t.points[m], axis);
    AddUp(multiset(Visit(t, g, left, right, axis)), multiset(Scan(t, g, left, right)), multiset(Here(t, g, m)),
          multiset(Visit(t, g, left, m - 1, NextAxis(axis))), multiset(Visit(t, g, m + 1, right, NextAxis(axis))),
          multiset(Scan(t, g, left, m - 1)), multiset(Scan(t, g, m + 1, right)),
          LowerReach(g, axis) <= c, UpperReach(g, axis) >= c);
  }

  /** The traversal of an internal node, counted: the mid point's id if it
      matches, plus the ids of each half the region reaches into. */
  lemma VisitNodeCount(t: KDBush, g: Region, left: int, right: int, axis: Axis, m: int)
    requires |t.ids| == |t.points| && 0 <= left <= right < |t.points|
    requires right - left > t.nodeSize && m == (left + right) / 2
    ensures multiset(Visit(t, g, left, right, axis))
         == multiset(Here(t, g, m))
          + (if LowerReach(g, axis) <= Coord(t.points[m], axis) then multiset(Visit(t, g, left, m - 1, NextAxis(axis))) else multiset{})
          + (if UpperReach(g, axis) >= Coord(t.points[m], axis) then multiset(Visit(t, g, m + 1, right, NextAxis(axis))) else multiset{})
  {
    VisitNode(t, g, left, right, axis);
    var c := Coord(t.points[m], axis);
    var lower: seq<nat> := if LowerReach(g, axis) <= c then Visit(t, g, left, m - 1, NextAxis(axis)) else [];
    var upper: seq<nat> := if UpperReach(g, axis) >= c then Visit(t, g, m + 1, right, NextAxis(axis)) else [];
    assert multiset(Here(t, g, m) + lower + upper) == multiset(Here(t, g, m)) + multiset(lower) + multiset(upper);
  }

  /** The scan of a range, counted: the scan below `m`, the id at `m` if
      it matches, and the scan above `m`. */
  lemma ScanAroundCount(t: KDBush, g: Region, left: int, m: int, right: int)
    requires |t.ids| == |t.points| && 0 <= left <= m <= right < |t.points|
    ensures multiset(Scan(t, g, left, right))
         == multiset(Scan(t, g, left, m - 1)) + multiset(Here(t, g, m)) + multiset(Scan(t, g, m + 1, right))
  {
    ScanSplit(t, g, left, m, right);
    var a, b, c := Scan(t, g, left, m - 1), Here(t, g, m), Scan(t, g, m + 1, right);
    assert Scan(t, g, m, right) == b + c;
    assert multiset(a + (b + c)) == multiset(a) + multiset(b) + multiset(c);
  }

  /** Adding up the counts of a node's parts: the traversal's count equals
      the scan's count when each half entered matches its scan and each
      half skipped scans to nothing. */
  lemma AddUp(v: multiset<nat>, s: multiset<nat>, here: multiset<nat>, lower: multiset<nat>, upper: multiset<nat>,
              sl: multiset<nat>, su: multiset<nat>, goLow: bool, goHigh: bool)
    requires v == here + (if goLow then lower else multiset{}) + (if goHigh then upper else multiset{})
    requires s == sl + here + su
    requires goLow ==> lower == sl
    requires !goLow ==> sl == multiset{}
    requires goHigh ==> upper == su
    requires !goHigh ==> su == multiset{}
    ensures v == s
  {
  }

  /** The traversal of an internal node: the mid point if it matches, then
      the left half if the region reaches below the mid coordinate, then
      the right half if it reaches above. */
  lemma VisitNode(t: KDBush, g: Region, left: int, right: int, axis: Axis)
    requires |t.ids| == |t.points| && 0 <= left <= right < |t.points| && right - left > t.nodeSize
    ensures var m := (left + right) / 2;
            var c := Coord(t.points[m], axis);
            Visit(t, g, left, right, axis)
              == Here(t, g, m)
               + (if LowerReach(g, axis) <= c then Visit(t, g, left, m - 1, NextAxis(axis)) else [])
               + (if UpperReach(g, axis) >= c then Visit(t, g, m + 1, right, NextAxis(axis)) else [])
  {
  }

  /** The left half [left, m - 1] of a node split at coordinate `c` on
      `axis`: its contribution to the traversal matches its scan, because
      either it is visited, or it lies wholly below the region's lower
      reach. */
  lemma {:induction false} LowerMatches(t: KDBush, g: Region, left: int, m: int, axis: Axis, c: int)
    requires |t.ids| == |t.points| && 0 <= left <= m < |t.points| && WellFormed(g)
    requires AllAtMost(t.points, left, m - 1, axis, c)
    requires KdOrdered(t.points, left, m - 1, NextAxis(axis), t.nodeSize)
    ensures LowerReach(g, axis) <= c ==> multiset(Visit(t, g, left, m - 1, NextAxis(axis))) == multiset(Scan(t, g, left, m - 1))
    ensures LowerReach(g, axis) > c ==> Scan(t, g, left, m - 1) == []
    decreases m - left, 0
  {
    if LowerReach(g, axis) <= c {
      VisitMatchesScan(t, g, left, m - 1, NextAxis(axis));
    } else {
      PrunedBelow(t, g, left, m - 1, axis, c);
    }
  }

  /** The right half [m + 1, right] of a node split at coordinate `c` on
      `axis`: its contribution to the traversal matches its scan, because
      either it is visited, or it lies wholly above the region's upper
      reach. */
  lemma {:induction false} UpperMatches(t: KDBush, g: Region, m: int, right: int, axis: Axis, c: int)
    requires |t.ids| == |t.points| && 0 <= m <= right < |t.points| && WellFormed(g)
    requires AllAtLeast(t.points, m + 1, right, axis, c)
    requires KdOrdered(t.points, m + 1, right, NextAxis(axis), t.nodeSize)
    ensures UpperReach(g, axis) >= c ==> multiset(Visit(t, g, m + 1, right, NextAxis(axis))) == multiset(Scan(t, g, m + 1, right))
    ensures UpperReach(g, axis) < c ==> Scan(t, g, m + 1, right) == []
    decreases right - m, 0
  {
    if UpperReach(g, axis) >= c {
      VisitMatchesScan(t, g, m + 1, right, NextAxis(axis));
    } else {
      PrunedAbove(t, g, m + 1, right, axis, c);
    }
  }

  /** A non-empty slice is its first element followed by the rest. */
  lemma SliceHead<T>(s: seq<T>, lo: int, hi: int)
    requires 0 <= lo < hi <= |s|
    ensures multiset(s[lo..hi]) == multiset{s[lo]} + multiset(s[lo + 1..hi])
  {
    var a := s[lo..hi];
    assert a == [a[0]] + a[1..];
    assert a[1..] == s[lo + 1..hi];
  }

  /** How often the scan of [left, right] reports `id`: as often as `id`
      occurs in the range if its input point lies in `g`, else never. */
  lemma {:induction false} ScanCount(t: KDBush, src: seq<Point>, g: Region, left: int, right: int, id: nat)
    requires |t.ids| == |t.points| && 0 <= left <= right + 1 <= |t.points|
    requires Paired(t.ids, t.points, src)
    ensures multiset(Scan(t, g, left, right))[id]
         == if id < |src| && Contains(g, src[id]) then multiset(t.ids[left..right + 1])[id] else 0
    decreases right - left + 1
  {
    if left <= right {
      ScanCount(t, src, g, left + 1, right, id);
      SliceHead(t.ids, left, right + 1);
      CountCons(Scan(t, g, left, right), Scan(t, g, left + 1, right), t.ids[left..right + 1], t.ids[left + 1..right + 1],
                t.ids[left], id, Contains(g, t.points[left]), id < |src| && Contains(g, src[id]));
    } else {
      assert t.ids[left..right + 1] == [];
    }
  }

  /** The counting step of a scan: prepending an id that is reported
      exactly when it lies in the region keeps the count of `id` equal to
      its count among the positions scanned, or to zero outside the
      region. */
  lemma CountCons(scan: seq<nat>, scanRest: seq<nat>, ids: seq<nat>, idsRest: seq<nat>,
                  x: nat, id: nat, reported: bool, inside: bool)
    requires scan == (if reported then [x] else []) + scanRest
    requires multiset(ids) == multiset{x} + multiset(idsRest)
    requires x == id ==> reported == inside
    requires multiset(scanRest)[id] == if inside then multiset(idsRest)[id] else 0
    ensures multiset(scan)[id] == if inside then multiset(ids)[id] else 0
  {
    assert multiset(scan) == multiset(if reported then [x] else []) + multiset(scanRest);
  }

  /** Over an index built from `src`, a query with a well-formed region
      reports every input point it contains exactly once and nothing
      else. */
  lemma QueryExactlyOnce(t: KDBush, src: seq<Point>, g: Region, id: nat)
    requires Built(t, src) && WellFormed(g)
    ensures multiset(Visit(t, g, 0, |src| - 1, 0))[id] == if id < |src| && Contains(g, src[id]) then 1 else 0
  {
    VisitMatchesScan(t, g, 0, |src| - 1, 0);
    ScanExactlyOnce(t, src, g, id);
  }

  /** Over ids that are a permutation of 0..N-1 paired with the input, the
      brute-force scan of the whole index holds every input point `g`
      contains exactly once and nothing else. */
  lemma ScanExactlyOnce(t: KDBush, src: seq<Point>, g: Region, id: nat)
    requires |src| >= 1 && |t.ids| == |src|
    requires multiset(t.ids) == multiset(Iota(|src|)) && Paired(t.ids, t.points, src)
    ensures multiset(Scan(t, g, 0, |src| - 1))[id] == if id < |src| && Contains(g, src[id]) then 1 else 0
  {
    ScanCount(t, src, g, 0, |src| - 1, id);
    SliceAll(t.ids);
    IotaCount(|src|, id);
  }

  /** The slice of a whole sequence is the sequence. */
  lemma SliceAll<T>(s: seq<T>)
    ensures s[0..|s|] == s
  {
  }

  /** The box query reports each input point inside the box exactly once,
      and no other id. */
  lemma RangeExactlyOnce(t: KDBush, src: seq<Point>, minX: int, minY: int, maxX: int, maxY: int, id: nat)
    requires Built(t, src)
    ensures multiset(Range(t, minX, minY, maxX, maxY))[id]
         == if id < |src| && minX <= src[id].x <= maxX && minY <= src[id].y <= maxY then 1 else 0
  {
    QueryExactlyOnce(t, src, Box(minX, minY, maxX, maxY), id);
  }

  /** With a non-negative radius, the radius query reports each input point
      within distance `r` of the centre exactly once, and no other id. */
  lemma WithinExactlyOnce(t: KDBush, src: seq<Point>, qx: int, qy: int, r: int, id: nat)
    requires Built(t, src) && r >= 0
    ensures multiset(Within(t, qx, qy, r))[id]
         == if id < |src| && SqDist(src[id].x, src[id].y, qx, qy) <= r * r then 1 else 0
  {
    QueryExactlyOnce(t, src, Circle(qx, qy, r), id);
  }

  /** A range holding no point the region contains is visited without
      reporting anything. */
  lemma {:induction false} VisitNone(t: KDBush, g: Region, left: int, right: int, axis: Axis)
    requires |t.ids| == |t.points| && 0 <= left <= right + 1 <= |t.points|
    requires forall p :: left <= p <= right ==> !Contains(g, t.points[p])
    ensures Visit(t, g, left, right, axis) == []
    decreases right - left
  {
    if right - left <= t.nodeSize {
      ScanNone(t, g, left, right);
    } else {
      var m := (left + right) / 2;
      VisitNone(t, g, left, m - 1, NextAxis(axis));
      VisitNone(t, g, m + 1, right, NextAxis(axis));
      VisitNode(t, g, left, right, axis);
    }
  }

  /** A box with its minimum above its maximum on either axis reports
      nothing. */
  lemma InvertedBoxIsEmpty(t: KDBush, minX: int, minY: int, maxX: int, maxY: int)
    requires |t.ids| == |t.points| >= 1
    requires minX > maxX || minY > maxY
    ensures Range(t, minX, minY, maxX, maxY) == []
  {
    VisitNone(t, Box(minX, minY, maxX, maxY), 0, |t.ids| - 1, 0);
  }

  /** A three-point index, laid out as a build over these points with node
      size 1 would leave it: ids in input order, the middle point splitting
      the range on x. */
  const SamplePoints: seq<Point> := [Point(0, 0), Point(0, 9), Point(1, 0)]
  const SampleIndex: KDBush := KDBush([0, 1, 2], SamplePoints, 1)

  /** The sample index satisfies everything a build guarantees. */
  lemma SampleIsBuilt()
    ensures Built(SampleIndex, SamplePoints)
  {
    assert Iota(3) == [0, 1, 2];
    assert KdOrdered(SamplePoints, 0, 0, 1, 1) && KdOrdered(SamplePoints, 2, 2, 1, 1);
  }

  /** A negative radius is not rejected, and the radius query then
      disagrees with the brute-force scan: the containment test squares the
      radius, while the pruning subtracts and adds it with its sign. The
      sample index satisfies every build guarantee, yet while the disc of
      radius -1 around the origin contains points 0 and 2, the query
      reports neither. */
  lemma NegativeRadiusMissesMatches()
    ensures Built(SampleIndex, SamplePoints)
    ensures Scan(SampleIndex, Circle(0, 0, -1), 0, 2) == [0, 2]
    ensures Within(SampleIndex, 0, 0, -1) == []
  {
    SampleIsBuilt();
    SampleNegativeRadius();
  }

  /** On the sample index, the disc of radius -1 around the origin contains
      points 0 and 2, and the radius query reports nothing. */
  lemma SampleNegativeRadius()
    ensures Scan(SampleIndex, Circle(0, 0, -1), 0, 2) == [0, 2]
    ensures Within(SampleIndex, 0, 0, -1) == []
  {
    var g := Circle(0, 0, -1);
    assert Scan(SampleIndex, g, 2, 2) == [2];
    assert Scan(SampleIndex, g, 1, 2) == [2];
  }
}
