/** Signed grid coordinates and the direction offsets the puzzles use. */
module Points {

  /** A cell address: `x` is the column, `y` the row; both may be negative. */
  datatype Point = Point(x: int, y: int) {
    /** Componentwise addition, used to step to a neighbour. */
    function Add(d: Point): Point {
      Point(x + d.x, y + d.y)
    }
  }

  /** The previous row. */
  const UP := Point(0, -1)
  const LEFT := Point(-1, 0)
  const RIGHT := Point(1, 0)
}
