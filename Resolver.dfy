/** Computing the candidate placement of the element under drag from the
    snapshot taken at press time and the grid cell now under the pointer. */
module Resolver {
  import opened GridTypes

  /** A computed span below 1 becomes 1. */
  function FloorSpan(span: int): int
  {
    if span <= 0 then 1 else span
  }

  /** A computed position below 0 becomes 0. */
  function ClampAtZero(x: int): int
  {
    if x < 0 then 0 else x
  }

  /** ApplyNewPositionIfScaling: the new position and span along one axis of a
      resize. `pointer` is the cell now under the pointer, `prev` and
      `prevLength` the position and span at press time, and `fromStart` tells
      that the start (left or top) edge was grabbed. The incoming `pos` and
      `span` are only checked: a negative position or a non-positive span is
      an argument-out-of-range error.

      When the start edge is dragged, or the pointer is before the initial
      position, the far edge stays where it was (unless the span collapses
      to 1); otherwise the start edge stays and the far edge follows the
      pointer. Either way the cell under the pointer is covered. */
  function ApplyScaling(pointer: int, prev: int, prevLength: int, fromStart: bool, pos: int, span: int): (r: Checked<Axis>)
    ensures r == OutOfRange("pos") <==> pos < 0
    ensures r == OutOfRange("span") <==> pos >= 0 && span <= 0
    ensures r.Ok? <==> pos >= 0 && span > 0
    ensures r.Ok? ==> r.value.span >= 1 && r.value.pos <= pointer < r.value.pos + r.value.span
    ensures r.Ok? && pointer < prev ==> r.value.pos == pointer && r.value.span > prevLength
    ensures r.Ok? && (pointer < prev || fromStart) ==>
      && r.value.pos == pointer
      && (r.value.pos + r.value.span == prev + prevLength || (r.value.span == 1 && pointer >= prev + prevLength))
    ensures r.Ok? && pointer >= prev && !fromStart ==>
      r.value.pos == prev && r.value.pos + r.value.span == pointer + 1
  {
    if pos < 0 then OutOfRange("pos")
    else if span <= 0 then OutOfRange("span")
    else if pointer < prev then Ok(Axis(pointer, FloorSpan(prevLength + prev - pointer)))
    else if fromStart then Ok(Axis(pointer, FloorSpan(prevLength + prev - pointer)))
    else Ok(Axis(prev, FloorSpan(pointer - prev + 1)))
  }

  /** The position and span of one axis at press time are acceptable to
      ApplyScaling. */
  predicate AxisInRange(pos: int, span: int)
  {
    pos >= 0 && span > 0
  }

  /** GetNewPosition and GetCurrentControlState: the candidate placement for
      the cell (`col`, `row`) under the pointer. A press that set neither
      transform flag moves the element by the pointer's displacement from the
      anchor cell, clamped at 0; otherwise each flagged axis is resized by
      ApplyScaling, its start-edge flag being `origin > 0.5`. */
  function Resolve(initial: ControlState, transformX: bool, transformY: bool,
                   originX: real, originY: real, col: int, row: int): (r: Checked<Placement>)
    ensures r.OutOfRange? <==>
      || (transformX && !AxisInRange(initial.place.col, initial.place.colSpan))
      || (transformY && !AxisInRange(initial.place.row, initial.place.rowSpan))
    // a move keeps the spans, never goes negative, and keeps the pointer's
    // offset from the element's origin wherever it is not clamped
    ensures !transformX && !transformY ==>
      && r.Ok?
      && r.value.rowSpan == initial.place.rowSpan && r.value.colSpan == initial.place.colSpan
      && r.value.row >= 0 && r.value.col >= 0
      && (r.value.row > 0 ==> row - r.value.row == initial.mouseRow - initial.place.row)
      && (r.value.row == 0 ==> row - (initial.mouseRow - initial.place.row) <= 0)
      && (r.value.col > 0 ==> col - r.value.col == initial.mouseCol - initial.place.col)
      && (r.value.col == 0 ==> col - (initial.mouseCol - initial.place.col) <= 0)
    // a resize changes only the flagged axes, each independently of the other
    ensures r.Ok? && (transformX || transformY) ==>
      && (transformX ==>
            Axis(r.value.col, r.value.colSpan) ==
            ApplyScaling(col, initial.place.col, initial.place.colSpan, originX > 0.5, initial.place.col, initial.place.colSpan).value)
      && (!transformX ==> r.value.col == initial.place.col && r.value.colSpan == initial.place.colSpan)
      && (transformY ==>
            Axis(r.value.row, r.value.rowSpan) ==
            ApplyScaling(row, initial.place.row, initial.place.rowSpan, originY > 0.5, initial.place.row, initial.place.rowSpan).value)
      && (!transformY ==> r.value.row == initial.place.row && r.value.rowSpan == initial.place.rowSpan)
    // from a well-formed snapshot and a pointer inside the grid's coordinates
    // the candidate is always well-formed
    ensures WellPlaced(initial.place) && col >= 0 && row >= 0 ==> r.Ok? && WellPlaced(r.value)
  {
    var p := initial.place;
    if transformX || transformY then
      var c := if transformX then ApplyScaling(col, p.col, p.colSpan, originX > 0.5, p.col, p.colSpan)
               else Ok(Axis(p.col, p.colSpan));
      var rr := if transformY then ApplyScaling(row, p.row, p.rowSpan, originY > 0.5, p.row, p.rowSpan)
                else Ok(Axis(p.row, p.rowSpan));
      if c.OutOfRange? then OutOfRange(c.param)
      else if rr.OutOfRange? then OutOfRange(rr.param)
      else Ok(Placement(rr.value.pos, c.value.pos, rr.value.span, c.value.span))
    else
      Ok(Placement(
        ClampAtZero(row - (initial.mouseRow - p.row)),
        ClampAtZero(col - (initial.mouseCol - p.col)),
        p.rowSpan,
        p.colSpan))
  }

  /** Whatever the interaction and however far the pointer goes, the
      candidate's spans never drop below 1 when the press-time spans were
      at least 1. */
  lemma SpanFloor(initial: ControlState, transformX: bool, transformY: bool,
                  originX: real, originY: real, col: int, row: int)
    requires initial.place.rowSpan >= 1 && initial.place.colSpan >= 1 && initial.place.row >= 0 && initial.place.col >= 0
    ensures var r := Resolve(initial, transformX, transformY, originX, originY, col, row);
      r.Ok? && r.value.rowSpan >= 1 && r.value.colSpan >= 1
  {
  }

  /** The cell under the pointer stays inside the element along every resized
      axis. */
  lemma ResizeCoversPointer(initial: ControlState, transformX: bool, transformY: bool,
                            originX: real, originY: real, col: int, row: int)
    requires WellPlaced(initial.place)
    ensures var r := Resolve(initial, transformX, transformY, originX, originY, col, row);
      && (transformX ==> r.value.col <= col < r.value.col + r.value.colSpan)
      && (transformY ==> r.value.row <= row < r.value.row + r.value.rowSpan)
  {
  }
}
