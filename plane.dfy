/** Points of the plane, used for polygon vertices, triangle vertices and Mercator results. */
module Plane {

  /** A 2D point `[x, y]`. */
  datatype Point2 = Point2(x: real, y: real)
}
