/**
  The part of an anchor the editor drags: the anchor point itself or one of
  its two handles. Reading a part gives an absolute position; writing a part
  stores a new absolute position back into the anchor.
 */
module EditorState {
  import opened Options
  import opened Offsets
  import opened Points
  import opened Anchors

  datatype AnchorPart = Point | HandleIn | HandleOut

  /** `unwrap_or(IntOffset::zero())`: an absent handle sits on the anchor point. */
  function HandleOrZero(handle: Option<IntOffset>): IntOffset
  {
    match handle
    case None => Offsets.Zero()
    case Some(o) => o
  }

  /**
    `AnchorPart::point`: the anchor point, or the absolute position of the
    handle, which is the anchor point itself when the handle is absent.
   */
  function PointOf(part: AnchorPart, anchor: IntBezierAnchor): (r: IntPoint)
    ensures part == Point ==> r == anchor.point
    ensures part == HandleIn ==> r == (if anchor.handleIn.None? then anchor.point else anchor.HandleInPoint().value)
    ensures part == HandleOut ==> r == (if anchor.handleOut.None? then anchor.point else anchor.HandleOutPoint().value)
  {
    match part
    case Point => anchor.point
    case HandleIn => anchor.point.AddOffset(HandleOrZero(anchor.handleIn))
    case HandleOut => anchor.point.AddOffset(HandleOrZero(anchor.handleOut))
  }

  /** The anchor after `update_point(point, anchor)`. */
  function Updated(part: AnchorPart, point: IntPoint, anchor: IntBezierAnchor): IntBezierAnchor
  {
    match part
    case Point => anchor.(point := point)
    case HandleIn => anchor.(handleIn := Some(ToOffset(point.Sub(anchor.point))))
    case HandleOut => anchor.(handleOut := Some(ToOffset(point.Sub(anchor.point))))
  }

  /**
    `AnchorPart::update_point` writes one field of the anchor it is given:
    the point for `Point`, the handle, now present, for a handle part. The
    part then reads back the position that was written.
   */
  method UpdatePoint(part: AnchorPart, point: IntPoint, anchor: IntBezierAnchor) returns (updated: IntBezierAnchor)
    ensures updated == Updated(part, point, anchor)
    ensures PointOf(part, updated) == point
  {
    updated := anchor;
    match part {
      case Point =>
        updated := updated.(point := point);
      case HandleIn =>
        updated := updated.(handleIn := Some(ToOffset(point.Sub(updated.point))));
      case HandleOut =>
        updated := updated.(handleOut := Some(ToOffset(point.Sub(updated.point))));
    }
    UpdateThenRead(part, point, anchor);
  }

  /** Writing a position and reading the same part gives that position back. */
  lemma UpdateThenRead(part: AnchorPart, point: IntPoint, anchor: IntBezierAnchor)
    ensures PointOf(part, Updated(part, point, anchor)) == point
  {
    var p := anchor.point;
    if part != Point {
      assert p.AddOffset(ToOffset(point.Sub(p))) == point;
    }
  }

  /**
    Moving the anchor point keeps the handle offsets, so the absolute handle
    positions move by the same displacement; the handles' own fields are untouched.
   */
  lemma MovePointCarriesHandles(point: IntPoint, anchor: IntBezierAnchor)
    ensures Updated(Point, point, anchor).handleIn == anchor.handleIn
    ensures Updated(Point, point, anchor).handleOut == anchor.handleOut
    ensures PointOf(HandleIn, Updated(Point, point, anchor)).Sub(point) == PointOf(HandleIn, anchor).Sub(anchor.point)
    ensures PointOf(HandleOut, Updated(Point, point, anchor)).Sub(point) == PointOf(HandleOut, anchor).Sub(anchor.point)
  {
  }

  /** Moving a handle changes nothing else: the anchor point and the other handle stay put. */
  lemma MoveHandleKeepsRest(point: IntPoint, anchor: IntBezierAnchor)
    ensures Updated(HandleIn, point, anchor).point == anchor.point
    ensures Updated(HandleIn, point, anchor).handleOut == anchor.handleOut
    ensures Updated(HandleOut, point, anchor).point == anchor.point
    ensures Updated(HandleOut, point, anchor).handleIn == anchor.handleIn
    ensures PointOf(Point, Updated(HandleIn, point, anchor)) == PointOf(Point, anchor)
    ensures PointOf(HandleOut, Updated(HandleIn, point, anchor)) == PointOf(HandleOut, anchor)
    ensures PointOf(HandleIn, Updated(HandleOut, point, anchor)) == PointOf(HandleIn, anchor)
  {
  }

  /**
    Writing back the position a part already reads leaves the anchor unchanged,
    except for a handle part whose handle is absent: that handle becomes a
    present, zero offset.
   */
  lemma ReadThenUpdate(part: AnchorPart, anchor: IntBezierAnchor)
    ensures Updated(part, PointOf(part, anchor), anchor) == anchor <==>
      !((part == HandleIn && anchor.handleIn.None?) || (part == HandleOut && anchor.handleOut.None?))
  {
    var p := anchor.point;
    match part {
      case Point =>
      case HandleIn =>
        if anchor.handleIn.Some? {
          assert ToOffset(PointOf(part, anchor).Sub(p)) == anchor.handleIn.value;
        }
      case HandleOut =>
        if anchor.handleOut.Some? {
          assert ToOffset(PointOf(part, anchor).Sub(p)) == anchor.handleOut.value;
        }
    }
  }

  /** The last write wins: updating the same part twice is updating it once with the second position. */
  lemma UpdateTwice(part: AnchorPart, p: IntPoint, q: IntPoint, anchor: IntBezierAnchor)
    ensures Updated(part, q, Updated(part, p, anchor)) == Updated(part, q, anchor)
  {
  }
}
