/** The values the grid control works with: points and margins from the host
    toolkit, the placement a child holds through the grid's attached
    properties, the snapshot taken when a drag starts, and the configured
    collision policy. */
module GridTypes {

  /** A position in device-independent units. The host reports doubles; the
      model uses exact reals. */
  datatype Point = Point(x: real, y: real)

  /** The four margins of an element. */
  datatype Thickness = Thickness(left: real, top: real, right: real, bottom: real)

  /** Where a child sits in the grid: its Row, Column, RowSpan and ColumnSpan. */
  datatype Placement = Placement(row: int, col: int, rowSpan: int, colSpan: int)

  /** The host toolkit only accepts a non-negative row and column and a
      positive row span and column span. */
  predicate WellPlaced(p: Placement)
  {
    p.row >= 0 && p.col >= 0 && p.rowSpan >= 1 && p.colSpan >= 1
  }

  /** One child of the grid with the properties the grid reads and writes:
      its placement, ZIndex, Margin, the edit-mode flag and the flag that
      excludes it from collision calculations. */
  datatype Cell = Cell(place: Placement, zIndex: int, margin: Thickness, editable: bool, skip: bool)

  /** The snapshot taken when a drag starts: the element (its index among the
      grid's children), its placement, ZIndex and Margin, and the grid cell the
      pointer was over (the drag anchor). */
  datatype ControlState = ControlState(
    element: nat,
    place: Placement,
    zIndex: int,
    margin: Thickness,
    mouseRow: int,
    mouseCol: int)

  /** What a release does when the candidate placement collides with other
      children. */
  datatype CollisionResult =
    | None                  // collisions are not computed; the candidate is always committed
    | RollbackIfCollideAny  // any collision restores the initial placement
    | CustomBehavour        // a collision leaves the placement as it was

  /** A reference that may be null, such as the grid's current element. */
  datatype Option<T> = Null | Some(value: T)

  /** The outcome of an operation that throws an argument-out-of-range error
      naming the offending parameter. */
  datatype Checked<T> = Ok(value: T) | OutOfRange(param: string)

  /** Position and span on one axis. */
  datatype Axis = Axis(pos: int, span: int)

  /** The arguments of the grid's change notifications: the initial state of
      the drag, the candidate placement and the colliding children, in child
      order. */
  datatype StateChanged = StateChanged(initial: ControlState, finish: Placement, collisions: seq<nat>)
}
