/** Planar (Mercator) geometry used by the locality finder: points and axis-aligned rectangles
  * with the inclusive containment and intersection tests of m2::Rect. Coordinates are reals:
  * the source's doubles without rounding. */
module Geometry {

  datatype Point = Point(x: real, y: real)

  /** An axis-aligned rectangle [minX, maxX] x [minY, maxY]. A rectangle whose minimum exceeds
    * its maximum on some axis is empty: no point is inside it. */
  datatype Rect = Rect(minX: real, minY: real, maxX: real, maxY: real)

  /** m2::Rect::IsPointInside: the borders belong to the rectangle. */
  predicate IsPointInside(r: Rect, p: Point) {
    !(r.minX > p.x || p.x > r.maxX || r.minY > p.y || p.y > r.maxY)
  }

  /** m2::Rect::IsIntersect: two rectangles touching at a border intersect. */
  predicate IsIntersect(a: Rect, b: Rect) {
    !(a.maxX < b.minX || a.minX > b.maxX || a.maxY < b.minY || a.minY > b.maxY)
  }

  /** The degenerate rectangle m2::RectD(pt, pt) used to query the spatial tree at one point. */
  function PointRect(p: Point): (r: Rect)
    ensures IsPointInside(r, p)
    ensures forall q :: IsPointInside(r, q) ==> q == p
  {
    Rect(p.x, p.y, p.x, p.y)
  }

  function Center(r: Rect): Point {
    Point((r.minX + r.maxX) / 2.0, (r.minY + r.maxY) / 2.0)
  }

  function LeftTop(r: Rect): Point {
    Point(r.minX, r.maxY)
  }

  function RightBottom(r: Rect): Point {
    Point(r.maxX, r.minY)
  }

  /** `inner` lies within `outer` (every point of `inner` is a point of `outer`). */
  predicate ContainsRect(outer: Rect, inner: Rect) {
    outer.minX <= inner.minX && inner.maxX <= outer.maxX &&
    outer.minY <= inner.minY && inner.maxY <= outer.maxY
  }

  /** Clamping of one coordinate into [lo, hi], as MercatorBounds::ClampX / ClampY do with the
    * bounds of the Mercator plane (the upper bound is tested first). */
  function Clamp(v: real, lo: real, hi: real): (r: real)
    ensures lo <= hi ==> lo <= r <= hi
    ensures lo <= v <= hi ==> r == v
    ensures v <= hi ==> r <= v || r == lo
    ensures v >= lo ==> r >= v || r == hi
  {
    if v > hi then hi else if v < lo then lo else v
  }

  /** A query at a point meets a rectangle exactly when the point is inside it: the tree filter
    * `IsIntersect(item, PointRect(p))` and the cache test `IsPointInside` agree. */
  lemma IntersectPointRect(r: Rect, p: Point)
    ensures IsIntersect(r, PointRect(p)) <==> IsPointInside(r, p)
  {
  }
}
