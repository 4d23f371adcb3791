/** A displacement (a handle vector), never an absolute position. */
module Offsets {

  datatype IntOffset = IntOffset(x: int, y: int)

  function Zero(): (r: IntOffset)
    ensures r.x == 0 && r.y == 0
  {
    IntOffset(0, 0)
  }

  /** `IntOffset::new` stores both coordinates unchanged. */
  function New(x: int, y: int): (r: IntOffset)
    ensures r.x == x && r.y == y
  {
    IntOffset(x, y)
  }
}
