/**
 * Plane geometry shared by the client entities: integer vectors, axis-aligned
 * rectangles and PixiJS's mutable `Point` object.
 */
module Geometry {

  /** An immutable point or displacement, as produced by `getLocalPosition`. */
  datatype Vec = Vec(x: int, y: int)

  function Sub(a: Vec, b: Vec): Vec {
    Vec(a.x - b.x, a.y - b.y)
  }

  /** An axis-aligned rectangle: top-left corner and size. */
  datatype Rect = Rect(x: int, y: int, width: int, height: int)

  /** A PixiJS `Point`: a mutable pair that several owners may share. */
  class Point {
    var x: int
    var y: int

    constructor (x: int, y: int)
      ensures this.x == x && this.y == y
    {
      this.x := x;
      this.y := y;
    }

    function Value(): Vec
      reads this
    {
      Vec(x, y)
    }

    /** `Point.set`: overwrites both coordinates in place. */
    method Set(x: int, y: int)
      modifies this
      ensures Value() == Vec(x, y)
    {
      this.x := x;
      this.y := y;
    }
  }
}
