# InteractiveGrid: the drag-between-cells grid, modelled in Dafny

`DragableBetweenCellsGrid` is a WPF `Grid` whose children a user can move and
resize by dragging. A press on an editable child is classified by where it
lands inside the child:
- near an edge it resizes;
- in the central band it moves;
- anywhere else nothing happens.

While the pointer moves, the grid computes the candidate placement (row,
column, spans) from the cell under the pointer. It announces the candidate
together with the children it would overlap. On release it applies the
grid's collision policy:
- commit the candidate;
- roll back to the press-time placement;
- or, for the custom policy, leave the child where it is.

It then restores the child's ZIndex and Margin and ends the session.

The project models that logic in six modules:

- `GridTypes`: the value types.
  - `Placement` (row, column, spans) and `Cell`, a child with its attached
    properties (placement, ZIndex, Margin, edit-mode flag, skip flag).
  - `ControlState`, the press-time snapshot.
  - `CollisionResult`.
  - `StateChanged`, the payload of the ControlChanging and
    FinishingWithCollisions notifications.
  - `Checked`, which stands for the `ArgumentOutOfRangeException` path.
- `Geometry`: the pointer-to-cell mapping of `GetPosition`.
  - `CellIndex` is a recursive reference definition.
  - `IsCellIndex` characterises it as the least index whose prefix sum
    reaches the pointer.
  - `AxisCell` is the accumulating loop, proved equal to `CellIndex`.
- `PressClassifier`: `ShowArrows`. It returns the transform flags, acceptance
  and render origins as a pure function of the pointer's position inside the
  child.
- `Resolver`:
  - `ApplyScaling` (`ApplyNewPositionIfScaling`);
  - `Resolve` (`GetNewPosition` with `GetCurrentControlState`).
- `CollisionEngine`:
  - the unit-cell footprint of a placement;
  - `Collisions`, the reference definition of what is reported;
  - `Figure` and `CheckCollisions`, the nested loops of the source, proved
    equal to it.
- `DragGrid`: the `Grid` class.
  - Its fields are the children's attached properties and the drag session:
    `CurrentElement`, `_isInDrag`, `_initalState`, `_mouseOffset`, the
    transform flags and the render origins.
  - Its methods are the press, move and release handlers and the edit-mode
    setters.
  - `Settle` is the release policy; lemmas state what each policy
    guarantees.

Pointer coordinates and element sizes are exact `real`s. The source works
in `double`, but every comparison it makes is linear with constant factors.
Rows, columns and spans are unbounded `int`s.

### Behaviour of the code worth knowing

- **Beyond the last row or column.** `GetPosition` returns the row (column)
  count, one past the last index, because its loop then ends without
  `break` (:481-487; `Geometry.CellIndexBeyondEnd`). It does not clamp to
  the last index.
- **Central band.** A press is rejected only when it is strictly outside
  `[w/4, 3w/4] x [h/4, 3h/4]` (:572-578), so the band includes its border.
- **Render origin.** The render origin is `1.0` when the pointer is in the
  left or top band (:584, :594). `ApplyNewPositionIfScaling` receives
  `renderOrigin > 0.5`, which is therefore true when the start edge is
  grabbed. Its branch moves the start edge to the pointer's cell and keeps
  the far edge. A press in the right or bottom band keeps the start edge
  (`DragGrid.LeftEdgeGrabKeepsRightEdge`, `DragGrid.RightEdgeGrabKeepsLeftEdge`).
- **CustomBehavour.** The body of this policy's branch on release is
  commented out (:284-287). A colliding release under `CustomBehavour`
  therefore leaves the child's placement untouched.

## Model

| member | source | states |
|---|---|---|
| Geometry.CellIndex | InteractiveGrid/DragableBetweenCellsGrid.cs:475-496 | the cell index under a coordinate is between 0 and the row (column) count inclusive |
| Geometry.CellIndexIsLeast | InteractiveGrid/DragableBetweenCellsGrid.cs:475-496 | the index is the least one whose first i+1 sizes sum to at least the coordinate; it is the count when no prefix reaches it |
| Geometry.CellIndexUnique | InteractiveGrid/DragableBetweenCellsGrid.cs:475-496 | that characterisation determines the index |
| Geometry.CellIndexAtStart | InteractiveGrid/DragableBetweenCellsGrid.cs:478-496 | a coordinate at or before the grid's start gives index 0 |
| Geometry.CellIndexBeyondEnd | InteractiveGrid/DragableBetweenCellsGrid.cs:481-496 | a coordinate past the total extent gives the count, one past the last index |
| Geometry.CellIndexWithinExtent | InteractiveGrid/DragableBetweenCellsGrid.cs:481-496 | a coordinate inside the extent lies inside the returned cell: after its start and no later than its end |
| Geometry.CellIndexMonotone | InteractiveGrid/DragableBetweenCellsGrid.cs:481-496 | a larger coordinate never gives an earlier cell |
| Geometry.AxisCell | InteractiveGrid/DragableBetweenCellsGrid.cs:481-487 | the accumulate-and-break loop returns exactly the reference cell index |
| PressClassifier.ShowArrows | InteractiveGrid/DragableBetweenCellsGrid.cs:558-614 | each transform flag holds iff the pointer is in that axis's edge band; a press is rejected iff it is in no band and outside the closed central band; an accepted press's origin is 1.0 iff the pointer is in the left (top) band, and 0 otherwise |
| PressClassifier.CentrePressMoves | InteractiveGrid/DragableBetweenCellsGrid.cs:565-578 | on a non-degenerate element a press in the central band is an accepted move with neither transform flag |
| PressClassifier.CornerPressResizesBoth | InteractiveGrid/DragableBetweenCellsGrid.cs:565-600 | a press in the left and bottom bands resizes both axes, drags the left edge, and drags the top edge only if the pointer is also in the top band |
| Resolver.ApplyScaling | InteractiveGrid/DragableBetweenCellsGrid.cs:437-469 | a negative pos or non-positive span is out of range, and otherwise the result is Ok; the result's span is at least 1 and covers the pointer cell; a pointer before the initial position moves the start there and widens the span; a grabbed start edge keeps the far edge unless the span collapses to 1; otherwise the start stays and the far edge is the pointer cell |
| Resolver.Resolve | InteractiveGrid/DragableBetweenCellsGrid.cs:387-435 | out of range iff a resized axis has an invalid press-time position or span; a move keeps both spans, never goes below 0, and keeps the pointer's offset from the element wherever it is not clamped; a resize applies ApplyScaling with flag origin > 0.5 to each flagged axis and leaves an unflagged axis unchanged; a well-formed snapshot always gives a well-formed candidate |
| Resolver.SpanFloor | InteractiveGrid/DragableBetweenCellsGrid.cs:437-465 | from press-time spans of at least 1 every candidate has spans of at least 1, whatever the pointer |
| Resolver.ResizeCoversPointer | InteractiveGrid/DragableBetweenCellsGrid.cs:389-406 | along each resized axis the candidate contains the cell under the pointer |
| CollisionEngine.CollideIffOverlap | InteractiveGrid/DragableBetweenCellsGrid.cs:317-342 | two unit-cell footprints intersect iff the spans are positive and the row intervals and the column intervals both overlap |
| CollisionEngine.CollideSymmetric | InteractiveGrid/DragableBetweenCellsGrid.cs:317-342 | collision is symmetric |
| CollisionEngine.EmptySpanNeverCollides | InteractiveGrid/DragableBetweenCellsGrid.cs:319-337 | a placement with a non-positive span collides with nothing, in either order |
| CollisionEngine.CollisionsUpTo | InteractiveGrid/DragableBetweenCellsGrid.cs:327-345 | among the first n children, exactly those that are not skipped, not current and colliding are reported, in strictly increasing child order |
| CollisionEngine.Collisions | InteractiveGrid/DragableBetweenCellsGrid.cs:311-348 | exactly the non-skipped children other than the current one whose footprint meets the candidate's are reported, in child order |
| CollisionEngine.CollisionsIgnoreCurrent | InteractiveGrid/DragableBetweenCellsGrid.cs:329-330 | what the current element's own cell holds does not change the report |
| CollisionEngine.CollisionsSymmetric | InteractiveGrid/DragableBetweenCellsGrid.cs:327-345 | for two participating children, each is reported against the other's placement iff the other is reported against its own |
| CollisionEngine.Figure | InteractiveGrid/DragableBetweenCellsGrid.cs:317-324 | the nested loops list exactly the unit cells of the placement |
| CollisionEngine.CheckCollisions | InteractiveGrid/DragableBetweenCellsGrid.cs:311-348 | a candidate whose span product `rowSpan * colSpan` is negative (exactly one span negative) makes the list allocation throw an out-of-range error on `capacity`; otherwise the loop over the children returns exactly the reference collision list |
| CollisionEngine.WellPlacedHasCapacity | InteractiveGrid/DragableBetweenCellsGrid.cs:313-317 | a well-formed candidate, the only kind the handlers pass, never makes that allocation throw |
| DragGrid.ReleaseCollisionsReport | InteractiveGrid/DragableBetweenCellsGrid.cs:261-266 | under policy None a release computes no collisions; under the other policies it has exactly the children CheckCollisions reports, in child order |
| DragGrid.Settle | InteractiveGrid/DragableBetweenCellsGrid.cs:268-291 | the placement a release commits is one of the candidate, the initial placement and the current placement: the candidate when nothing collides; on a collision, the initial placement under RollbackIfCollideAny and the current one otherwise |
| DragGrid.NoneAlwaysCommits | InteractiveGrid/DragableBetweenCellsGrid.cs:260-271 | under policy None the candidate is committed even if it overlaps |
| DragGrid.RollbackNeverCommitsCollision | InteractiveGrid/DragableBetweenCellsGrid.cs:260-281 | under RollbackIfCollideAny a release ends at the initial placement or at one that collides with no participating child |
| DragGrid.CustomKeepsPlacementOnCollision | InteractiveGrid/DragableBetweenCellsGrid.cs:267-289 | under CustomBehavour a collision leaves the element's placement as it was; without one the candidate is committed |
| DragGrid.SettleWellPlaced | InteractiveGrid/DragableBetweenCellsGrid.cs:266-291 | every policy outcome is well formed when the placements involved are |
| DragGrid.Dragged | InteractiveGrid/DragableBetweenCellsGrid.cs:213-221 | during a move the child's margin becomes the grid's own Margin with the left (top) side plus the pointer's displacement since the press and the right (bottom) side minus it, so the child keeps its size |
| DragGrid.LeftEdgeGrabKeepsRightEdge | InteractiveGrid/DragableBetweenCellsGrid.cs:393-399 | a press in the left band makes a horizontal resize that puts the left edge at the pointer's column and keeps the right edge, unless the span collapses to 1 |
| DragGrid.RightEdgeGrabKeepsLeftEdge | InteractiveGrid/DragableBetweenCellsGrid.cs:393-399 | a press in the right band and not in the left band makes a horizontal resize; while the pointer's column is at or after the element's initial column, the resize keeps the left edge and ends the element at the pointer's column |
| DragGrid.MoveBesideNeighbourCommits | InteractiveGrid/DragableBetweenCellsGrid.cs:408-418 | moving a one-cell child next to its neighbour reports no collision and commits |
| DragGrid.MoveOntoNeighbourRollsBack | InteractiveGrid/DragableBetweenCellsGrid.cs:260-281 | moving a one-cell child onto its neighbour reports the neighbour and rolls back |
| DragGrid.ResizeExamples | InteractiveGrid/DragableBetweenCellsGrid.cs:437-469 | pulling the left edge of a 2x2 child one column left gives three columns; pulling its right edge to column 4 gives four columns from column 1 |
| DragGrid.Grid.constructor | InteractiveGrid/DragableBetweenCellsGrid.cs:45-55 | a new grid has policy RollbackIfCollideAny, edit mode off, no current element and no session |
| DragGrid.Grid.GetPosition | InteractiveGrid/DragableBetweenCellsGrid.cs:471-497 | the returned row and column are the reference cell indices of the pointer's Y and X |
| DragGrid.Grid.ValidateElement | InteractiveGrid/DragableBetweenCellsGrid.cs:504-508 | an accepted event comes from a child in the grid during a session with a well-formed snapshot |
| DragGrid.Grid.CandidateAt | InteractiveGrid/DragableBetweenCellsGrid.cs:425-435 | the candidate for any pointer during a session is a well-formed placement |
| DragGrid.Grid.Press | InteractiveGrid/DragableBetweenCellsGrid.cs:124-157 | the pressed child always becomes current; a non-editable child changes nothing else; a rejected press writes only the transform flags; an accepted one writes the flags and origins, snapshots the child and the pointer's cell, raises the child's ZIndex to 1000 and starts the session |
| DragGrid.Grid.Move | InteractiveGrid/DragableBetweenCellsGrid.cs:159-239 | an event outside the session, or a rejected shrink, changes nothing and notifies nothing; a resize notifies the candidate and its collisions; a move also sets the child's margin to the grid's own Margin shifted by the pointer's displacement since the press (`Dragged`) |
| DragGrid.Grid.Release | InteractiveGrid/DragableBetweenCellsGrid.cs:241-305 | ends with no current element and no session; without a session it changes nothing else; otherwise it notifies once, settles the placement by policy, and restores ZIndex and Margin; under RollbackIfCollideAny the committed placement is the initial one or collides with nothing |
| DragGrid.Grid.SetEditModeEnabled | InteractiveGrid/DragableBetweenCellsGrid.cs:528-539 | a new value sets every child's edit-mode flag to it and changes nothing else; the current value changes nothing |
| DragGrid.Grid.SetEditMode | InteractiveGrid/DragableBetweenCellsGrid.cs:541-544 | exactly one child's edit-mode flag changes |
| DragGrid.Grid.SetSkipInCollisionCalculations | InteractiveGrid/DragableBetweenCellsGrid.cs:63-66 | exactly one child's skip flag changes |

`DragGrid.PressFirstNeighbour` and `DragGrid.DragOntoNeighbour` call the
handlers in sequence on a concrete grid: a press
in the centre of the first child, then a release over its neighbour's
column. The rollback leaves the children exactly as they were.

Definitions without a row are helpers whose meaning the rows above state:
`Footprint`, `Collide`, `IntervalsOverlap` and `Hits` (the unit cells of
:317-324 and :332-339 and the reporting test of :327-341); `MinReal`,
`EdgeOffset`, `NearVerticalEdge`, `NearHorizontalEdge` and `InCentre` (the
bands of :565-578); `PrefixSum`, `NonNegative` and `IsCellIndex`;
`FloorSpan`, `ClampAtZero` and `AxisInRange`; `ReleaseCollisions`, whose
meaning `ReleaseCollisionsReport` states; `Grid.Valid`; and the fixtures
`Neighbours`, `NeighbourMove`, `NeighbourLayout` and `PressFirstNeighbour`.

## Left out

- `UnsafeMethods` and `Win32Point` (:728-748): P/Invoke calls into user32.dll to read and set the cursor position; these are foreign calls.
- Cursor selection (`Mouse.OverrideCursor`, :562-611) and the hover call to `ShowArrows` in `root_MouseMove` (:163-166) and `MouseEnter`: they only choose a cursor.
- DragGrid.Grid.Move: the scale-transform maths and the minimum-size check (:174-209) are double-precision render scaling. Their verdict is the parameter `shrinkRejected`. `RowDefinitions.Min` throwing on a grid with no definitions is not modelled.
- DragGrid.Grid.Move: the ControlChanging notification is raised only when a listener is attached (:233). The model always returns the notification it would carry.
- DragGrid.Grid.Release: FinishingWithCollisions likewise goes to a listener only if one is attached.
- DragGrid.Grid.Release: the `element == null` return (:251) is not modelled. It is reached only when the host sets the public `CurrentElement` property (:49-51, :103-107) to null during a drag. That return leaves `_isInDrag` set, so later moves are ignored and later releases return early until the next accepted press. The model has no `CurrentElement` setter, and `Valid` excludes a session without a current element.
- Render transforms, scale reset, mouse capture, `e.Handled` and `Debug.Print` are rendering and WPF plumbing. This includes `AddHandlersToChild` (:616-657) and `OnVisualChildrenChanged` (:514-526).
- The `AllElements` field of `StateChangedEventArgs` (:681) is left out; it is just the children list.
- The finish state of a notification carries only the placement. The source's `ControlState` for it leaves the other fields at their defaults (:425-435).
- The mouse position and button state are inputs:
  - the pointer relative to the grid and relative to the child, and the child's actual size;
  - `leftPressed` for `Mouse.LeftButton`.
- CollisionEngine.CheckCollisions: the product `rowSpan * colSpan` is computed on unbounded integers; a 32-bit overflow of that product is not modelled.
- Floating-point rounding is left out; sizes and coordinates are exact reals.
- Children are identified by their index in child order. Object identity and adding or removing children are not part of this model.
- `MainWindow.xaml.cs` is a consumer of the control with no grid logic; it is not part of this model.
