/** A path anchor: an absolute point with optional incoming and outgoing handle offsets. */
module Anchors {
  import opened Options
  import opened Offsets
  import opened Points

  datatype IntBezierAnchor = IntBezierAnchor(point: IntPoint, handleIn: Option<IntOffset>, handleOut: Option<IntOffset>)
  {
    /** The absolute position of the incoming handle, present exactly when the handle is. */
    function HandleInPoint(): (r: Option<IntPoint>)
      ensures r.None? <==> handleIn.None?
      ensures r.Some? ==> ToOffset(r.value.Sub(point)) == handleIn.value
      ensures r.Some? ==> r.value.x == point.x + handleIn.value.x && r.value.y == point.y + handleIn.value.y
    {
      HandlePoint(point, handleIn)
    }

    /** The absolute position of the outgoing handle, present exactly when the handle is. */
    function HandleOutPoint(): (r: Option<IntPoint>)
      ensures r.None? <==> handleOut.None?
      ensures r.Some? ==> ToOffset(r.value.Sub(point)) == handleOut.value
      ensures r.Some? ==> r.value.x == point.x + handleOut.value.x && r.value.y == point.y + handleOut.value.y
    {
      HandlePoint(point, handleOut)
    }
  }

  /** `handle.map(|offset| point + offset)`. */
  function HandlePoint(point: IntPoint, handle: Option<IntOffset>): Option<IntPoint>
  {
    match handle
    case None => None
    case Some(o) => Some(point.AddOffset(o))
  }
}
