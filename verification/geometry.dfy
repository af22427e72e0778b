/** Points, splitting axes, squared distances and the two query regions of
    the index. Coordinates are exact integers: the index only compares them
    and squares their differences. */
module Geometry {

  /** A 2D point. */
  datatype Point = Point(x: int, y: int)

  /** Splitting axis of a tree level: 0 is x, 1 is y. */
  type Axis = a: nat | a < 2

  /** The coordinate of `p` on `axis`. */
  function Coord(p: Point, axis: Axis): int {
    if axis == 0 then p.x else p.y
  }

  /** The axis of the next tree level; the levels alternate x, y, x, ... */
  function NextAxis(axis: Axis): Axis {
    (axis + 1) % 2
  }

  /** Squaring is strictly monotone on non-negative integers: the step
      `PruneSound` uses to compare a squared offset with the squared
      radius. */
  lemma SquareGrows(a: int, b: int)
    requires 0 <= a < b
    ensures a * a < b * b
  {
    assert a * a <= a * b;
    assert a * b < b * b;
  }

  /** A sum of two squares is never negative, and is zero only when both
      terms are. */
  lemma SumOfSquares(a: int, b: int)
    ensures a * a + b * b >= 0
    ensures a * a + b * b == 0 <==> a == 0 && b == 0
  {
  }

  /** Squared Euclidean distance between (px, py) and (qx, qy). */
  function SqDist(px: int, py: int, qx: int, qy: int): (d: int)
    ensures d >= 0
    ensures d == 0 <==> px == qx && py == qy
  {
    var dx, dy := px - qx, py - qy;
    SumOfSquares(dx, dy);
    dx * dx + dy * dy
  }

  /** What a query asks for: an axis-aligned box with inclusive bounds, or a
      disc given by its centre and radius. */
  datatype Region =
    | Box(minX: int, minY: int, maxX: int, maxY: int)
    | Circle(qx: int, qy: int, r: int)

  /** The containment test a query applies to the mid point of a node and to
      every point of a leaf bucket. */
  predicate Contains(g: Region, p: Point) {
    match g
    case Box(minX, minY, maxX, maxY) =>
      p.x >= minX && p.x <= maxX && p.y >= minY && p.y <= maxY
    case Circle(qx, qy, r) =>
      SqDist(p.x, p.y, qx, qy) <= r * r
  }

  /** The query's lower reach on `axis`: the left subtree is visited when
      this is at most the node's coordinate. */
  function LowerReach(g: Region, axis: Axis): int {
    match g
    case Box(minX, minY, _, _) => if axis == 0 then minX else minY
    case Circle(qx, qy, r) => (if axis == 0 then qx else qy) - r
  }

  /** The query's upper reach on `axis`: the right subtree is visited when
      this is at least the node's coordinate. */
  function UpperReach(g: Region, axis: Axis): int {
    match g
    case Box(_, _, maxX, maxY) => if axis == 0 then maxX else maxY
    case Circle(qx, qy, r) => (if axis == 0 then qx else qy) + r
  }

  /** Regions for which pruning by reach is sound: any box, and a disc whose
      radius is not negative. */
  predicate WellFormed(g: Region) {
    g.Circle? ==> g.r >= 0
  }

  /** Every point a well-formed region contains lies between the region's
      reaches on either axis, so a subtree lying wholly beyond a reach holds
      no match and may be skipped. */
  lemma PruneSound(g: Region, p: Point, axis: Axis)
    requires WellFormed(g)
    ensures Contains(g, p) ==> LowerReach(g, axis) <= Coord(p, axis) <= UpperReach(g, axis)
  {
    if g.Circle? && Contains(g, p) {
      var q := if axis == 0 then g.qx else g.qy;
      var c := Coord(p, axis);
      var o := if axis == 0 then p.y - g.qy else p.x - g.qx;
      assert SqDist(p.x, p.y, g.qx, g.qy) == (c - q) * (c - q) + o * o;
      assert o * o >= 0;
      if c < q - g.r {
        assert (c - q) * (c - q) == (q - c) * (q - c);
        SquareGrows(g.r, q - c);
        assert false;
      }
      if c > q + g.r {
        SquareGrows(g.r, c - q);
        assert false;
      }
    }
  }
}
