/**
 * Plane geometry of the quadtree: bounding boxes, a node's centre and
 * half-extents, the four child extents a split creates, the quadrant
 * classifier used by insertion and by redistribution, and the strict
 * overlap test used by the query. Coordinates are exact reals.
 */
module Geometry {

  /** An axis-aligned box (xmin, ymin, xmax, ymax), the column order of the tables. */
  datatype Box = Box(xmin: real, ymin: real, xmax: real, ymax: real)

  datatype Point = Point(x: real, y: real)

  /** The lower corner does not exceed the upper one. */
  predicate Proper(b: Box) {
    b.xmin <= b.xmax && b.ymin <= b.ymax
  }

  /** Positive width and positive height. */
  predicate Solid(b: Box) {
    b.xmin < b.xmax && b.ymin < b.ymax
  }

  /** Closed containment of a point. */
  predicate Inside(b: Box, p: Point) {
    b.xmin <= p.x <= b.xmax && b.ymin <= p.y <= b.ymax
  }

  /** Containment of a point in the open interior. */
  predicate Interior(b: Box, p: Point) {
    b.xmin < p.x < b.xmax && b.ymin < p.y < b.ymax
  }

  /**
   * The query's bounds check: the query q and the box b overlap with positive
   * length on both axes (touching edges do not count).
   */
  predicate Overlaps(q: Box, b: Box) {
    q.xmin < b.xmax && q.xmax > b.xmin && q.ymin < b.ymax && q.ymax > b.ymin
  }

  function HalfWidth(b: Box): real {
    (b.xmax - b.xmin) / 2.0
  }

  function HalfHeight(b: Box): real {
    (b.ymax - b.ymin) / 2.0
  }

  /** A node's centre, computed as the lower corner plus the half-extents. */
  function Center(b: Box): (c: Point)
    ensures 2.0 * c.x == b.xmin + b.xmax && 2.0 * c.y == b.ymin + b.ymax
    ensures Proper(b) ==> Inside(b, c)
  {
    Point(b.xmin + HalfWidth(b), b.ymin + HalfHeight(b))
  }

  /**
   * The extent of child q (1 = SW, 2 = SE, 3 = NW, 4 = NE) of a node with
   * extent b, computed as split does: a quarter-width box around the centre
   * of that quadrant. Over the reals it is the quadrant of b cut at the centre.
   */
  function ChildExtent(b: Box, q: int): (r: Box)
    requires 1 <= q <= 4
    ensures var c := Center(b);
      && r.xmin == (if q == 1 || q == 3 then b.xmin else c.x)
      && r.xmax == (if q == 1 || q == 3 then c.x else b.xmax)
      && r.ymin == (if q <= 2 then b.ymin else c.y)
      && r.ymax == (if q <= 2 then c.y else b.ymax)
  {
    var c := Center(b);
    var quartWidth := HalfWidth(b) / 2.0;
    var quartHeight := HalfHeight(b) / 2.0;
    var x1 := c.x - quartWidth;
    var x2 := c.x + quartWidth;
    var y1 := c.y - quartHeight;
    var y2 := c.y + quartHeight;
    var qx := if q == 1 || q == 3 then x1 else x2;
    var qy := if q <= 2 then y1 else y2;
    Box(qx - quartWidth, qy - quartHeight, qx + quartWidth, qy + quartHeight)
  }

  /** A child quadrant: 1 = SW, 2 = SE, 3 = NW, 4 = NE. */
  type Quad = q: int | 1 <= q <= 4 witness 1

  /**
   * The quadrant classifier: the child quadrants a box b is sent to, for a
   * node whose centre is c. The x side is tested with <= / >, the y side with
   * <= / >=, in the order 1, 3, 2, 4.
   */
  function Quadrants(b: Box, c: Point): (quads: seq<Quad>) {
    var west: seq<Quad> := if b.xmin <= c.x
      then (if b.ymin <= c.y then [1] else []) + (if b.ymax >= c.y then [3] else [])
      else [];
    var east: seq<Quad> := if b.xmax > c.x
      then (if b.ymin <= c.y then [2] else []) + (if b.ymax >= c.y then [4] else [])
      else [];
    west + east
  }

  /**
   * Whether box b reaches into quadrant q about the centre c, read off the
   * two half-planes: west (1, 3) when b.xmin <= c.x, east (2, 4) when
   * b.xmax > c.x, south (1, 2) when b.ymin <= c.y, north (3, 4) when
   * b.ymax >= c.y.
   */
  predicate Reaches(b: Box, c: Point, q: Quad) {
    && (if q == 1 || q == 3 then b.xmin <= c.x else b.xmax > c.x)
    && (if q <= 2 then b.ymin <= c.y else b.ymax >= c.y)
  }

  /** The classifier names exactly the quadrants the box reaches. */
  lemma QuadrantsMember(b: Box, c: Point, q: Quad)
    ensures q in Quadrants(b, c) <==> Reaches(b, c, q)
  {
  }

  /** A proper box reaches at least one quadrant. */
  lemma QuadrantsNonEmpty(b: Box, c: Point)
    requires Proper(b)
    ensures |Quadrants(b, c)| > 0
  {
  }

  /** The classifier names each quadrant at most once. */
  lemma QuadrantsDistinct(b: Box, c: Point)
    ensures var quads := Quadrants(b, c);
      forall j, k :: 0 <= j < k < |quads| ==> quads[j] != quads[k]
  {
  }

  /** The four children cover the parent: every point of it lies in one of them. */
  lemma ChildrenCover(b: Box, p: Point)
    requires Proper(b) && Inside(b, p)
    ensures Inside(ChildExtent(b, 1), p) || Inside(ChildExtent(b, 2), p)
         || Inside(ChildExtent(b, 3), p) || Inside(ChildExtent(b, 4), p)
  {
  }

  /** Each child lies within its parent. */
  lemma ChildWithinParent(b: Box, q: int, p: Point)
    requires Proper(b) && 1 <= q <= 4 && Inside(ChildExtent(b, q), p)
    ensures Inside(b, p)
  {
  }

  /** The children do not overlap: no point is interior to two of them. */
  lemma ChildInteriorsDisjoint(b: Box, q1: int, q2: int, p: Point)
    requires 1 <= q1 <= 4 && 1 <= q2 <= 4 && q1 != q2
    ensures !(Interior(ChildExtent(b, q1), p) && Interior(ChildExtent(b, q2), p))
  {
  }

  /** The lexicographic order (ymin, xmin) that subnodes() sorts children by. */
  predicate CornerBefore(a: Box, b: Box) {
    a.ymin < b.ymin || (a.ymin == b.ymin && a.xmin < b.xmin)
  }

  /**
   * For a parent of positive area, the children in creation order 1..4 are
   * strictly increasing in (ymin, xmin), so sorting them by that key gives
   * back the creation order; and each child again has positive area.
   */
  lemma ChildrenInCornerOrder(b: Box, q1: int, q2: int)
    requires Solid(b) && 1 <= q1 < q2 <= 4
    ensures CornerBefore(ChildExtent(b, q1), ChildExtent(b, q2))
    ensures Solid(ChildExtent(b, q1)) && Solid(ChildExtent(b, q2))
  {
  }

  /**
   * The step that makes the query complete. If a node's extent n overlaps the
   * query q, an item box b overlaps q, b is proper and q has positive width
   * and height, then one of the quadrants the classifier sends b to is a
   * child whose extent still overlaps q.
   */
  lemma QuadrantReachesQuery(n: Box, b: Box, q: Box) returns (quad: int)
    requires Overlaps(q, n) && Overlaps(q, b) && Proper(b) && Solid(q)
    ensures quad in Quadrants(b, Center(n))
    ensures 1 <= quad <= 4 && Overlaps(q, ChildExtent(n, quad))
  {
    var c := Center(n);
    // west half if the query reaches west of the centre and the box does too
    var west := q.xmin < c.x && b.xmin <= c.x;
    // south half if the query reaches south of the centre and the box does too
    var south := q.ymin < c.y && b.ymin <= c.y;
    quad := if west then (if south then 1 else 3) else (if south then 2 else 4);
    QuadrantsMember(b, c, quad);
  }
}
