/** Points and spheres of the three-dimensional kernel, as the sphere sorter sees them. */
module Geometry {
  /** A point of the kernel; the sorter never changes one, it only moves it within the range. */
  datatype Point = Point(x: real, y: real, z: real)

  /** A sphere given by its centre and its squared radius. */
  datatype Sphere = Sphere(center: Point, squaredRadius: real)

  function Origin(): Point { Point(0.0, 0.0, 0.0) }

  /** The sphere the sorter uses when none is given: centred at the origin, squared radius 1. */
  function UnitSphere(): Sphere { Sphere(Origin(), 1.0) }
}
