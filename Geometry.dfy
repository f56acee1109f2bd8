/** Points of the plane. `Point` compares by coordinate value, which is what
    the solver relies on when it uses points as map keys. */
module Geometry {

  datatype Point = Point(x: real, y: real)

  /** The solver treats the two coordinates independently and identically. */
  datatype Axis = X | Y

  function Coord(p: Point, ax: Axis): real
  {
    match ax
    case X => p.x
    case Y => p.y
  }

  const Origin := Point(0.0, 0.0)

  function Add(p: Point, q: Point): Point
  {
    Point(p.x + q.x, p.y + q.y)
  }

  function Sub(p: Point, q: Point): Point
  {
    Point(p.x - q.x, p.y - q.y)
  }

  function Scale(k: real, p: Point): Point
  {
    Point(k * p.x, k * p.y)
  }
}
