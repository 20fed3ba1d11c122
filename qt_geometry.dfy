/**
 * The parts of Qt's integer geometry the canvas relies on.  A `QRect` keeps
 * its top-left and bottom-right corners, both INCLUSIVE, so its width is
 * `x2 - x1 + 1` and `right()` is `x2`.  Coordinates are unbounded integers
 * here; Qt stores them in 32 bits.
 */
module QtGeometry {

  /** `QPoint`. */
  datatype Point = Point(x: int, y: int) {
    /**
     * `QPoint.isNull()`.  PySide converts a `QPoint` to `bool` through
     * `isNull()`, so `if point:` is false for the origin.
     */
    predicate IsNull()
    {
      x == 0 && y == 0
    }
  }

  /** `QRect`, stored as Qt stores it: two inclusive corners. */
  datatype Rect = Rect(x1: int, y1: int, x2: int, y2: int) {
    function Left(): int { x1 }
    function Top(): int { y1 }
    function Right(): int { x2 }
    function Bottom(): int { y2 }
    function Width(): int { x2 - x1 + 1 }
    function Height(): int { y2 - y1 + 1 }

    /**
     * `QRect.normalized()`: an axis whose width or height is negative has
     * its two corners swapped, and the corners switch between inclusive and
     * exclusive as they do so; the size keeps its magnitude.
     */
    function Normalized(): (r: Rect)
      ensures r.Width() >= 0 && r.Height() >= 0
      ensures Width() >= 0 ==> r.Left() == Left() && r.Right() == Right()
      ensures Height() >= 0 ==> r.Top() == Top() && r.Bottom() == Bottom()
      ensures r.Width() == Abs(Width()) && r.Height() == Abs(Height())
    {
      Rect(NormLow(x1, x2), NormLow(y1, y2), NormHigh(x1, x2), NormHigh(y1, y2))
    }
  }

  function Abs(v: int): int
  {
    if v < 0 then -v else v
  }

  /** The new low corner coordinate of one axis of `normalized()`. */
  function NormLow(a: int, b: int): int
  {
    if b < a then b + 1 else a
  }

  /** The new high corner coordinate of one axis of `normalized()`. */
  function NormHigh(a: int, b: int): int
  {
    if b < a then a - 1 else b
  }

  /** `QRect(p1, p2)`: `p1` is the top-left corner, `p2` the bottom-right one. */
  function FromCorners(p1: Point, p2: Point): Rect
  {
    Rect(p1.x, p1.y, p2.x, p2.y)
  }

}
