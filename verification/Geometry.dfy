/** Points of the image plane; float64 coordinates are modelled as reals. */
module Geometry {

  datatype Point = Point(x: real, y: real)

  function Min(a: real, b: real): real { if a <= b then a else b }

  function Max(a: real, b: real): real { if a >= b then a else b }

  /** Twice the signed area of the triangle (a, b, p): positive exactly when p is left of a -> b. */
  function CrossProduct(a: Point, b: Point, p: Point): real {
    (b.x - a.x) * (p.y - a.y) - (b.y - a.y) * (p.x - a.x)
  }

  /** The point a fraction t of the way from a to b. */
  function Along(a: Point, b: Point, t: real): Point {
    Point(a.x + t * (b.x - a.x), a.y + t * (b.y - a.y))
  }

  /** r lies on the closed segment from a to b. */
  ghost predicate InSegment(r: Point, a: Point, b: Point) {
    exists t: real :: 0.0 <= t <= 1.0 && r == Along(a, b, t)
  }

}
