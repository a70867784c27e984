/** Plane points and axis-aligned boxes, with the `std::min`/`std::max` the
    bounding-box reduction uses. */
module Geometry {

  datatype Point2D = Point2D(x: real, y: real)

  datatype Box2D = Box2D(min: Point2D, max: Point2D)

  /** `std::min(a, b)`: `b` only when it is strictly smaller. */
  function Min(a: real, b: real): (r: real)
    ensures r <= a && r <= b && (r == a || r == b)
  {
    if b < a then b else a
  }

  /** `std::max(a, b)`: `b` only when it is strictly larger. */
  function Max(a: real, b: real): (r: real)
    ensures a <= r && b <= r && (r == a || r == b)
  {
    if a < b then b else a
  }

  predicate Encloses(b: Box2D, p: Point2D) {
    b.min.x <= p.x <= b.max.x && b.min.y <= p.y <= b.max.y
  }
}
