/** Points and the distance between them.

    The source computes great-circle distance with the haversine formula in
    floating point (src/model/util.rs:60-71). This model keeps that function
    abstract: every operation that needs a distance receives it as a parameter
    of type `Metric`, and the only fact the proofs use is that a distance is
    never negative. */
module Geometry {

  /** A latitude/longitude pair in degrees. */
  datatype Point = Point(lat: real, lon: real)

  /** Any non-negative distance function on points. */
  type Metric = d: (Point, Point) -> real | forall p: Point, q: Point :: d(p, q) >= 0.0
    witness (p: Point, q: Point) => 0.0
}
