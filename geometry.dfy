/** The two types of Go's image package that the BGR32 adapter relies on:
    a point and a half-open axis-aligned rectangle. */
module Geometry {

  /** image.Point: an (X, Y) coordinate pair. */
  datatype Point = Point(X: int, Y: int) {

    /** image.Point.In: Min is inclusive, Max exclusive, on both axes. */
    predicate In(r: Rectangle) {
      r.Min.X <= X < r.Max.X && r.Min.Y <= Y < r.Max.Y
    }
  }

  /** image.Rectangle: the points p with Min <= p < Max componentwise. */
  datatype Rectangle = Rectangle(Min: Point, Max: Point) {

    /** image.Rectangle.Dx: the width. */
    function Dx(): int { Max.X - Min.X }

    /** image.Rectangle.Dy: the height. */
    function Dy(): int { Max.Y - Min.Y }

    /** image.Rectangle.Empty: the rectangle holds no point. */
    predicate Empty() { Min.X >= Max.X || Min.Y >= Max.Y }
  }
}
