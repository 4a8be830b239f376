/** The grid control: its children with their attached properties, the drag
    session, and the press / move / release handlers that drive a session and
    apply the collision policy on release. */
module DragGrid {
  import opened GridTypes
  import opened Geometry
  import opened PressClassifier
  import opened Resolver
  import opened CollisionEngine

  /** The ZIndex the element under drag is raised to. */
  const DragZIndex: int := 1000

  /** The collisions a release acts on: under policy None none are computed. */
  function ReleaseCollisions(policy: CollisionResult, cells: seq<Cell>, current: Option<nat>, candidate: Placement): seq<nat>
  {
    if policy == CollisionResult.None then [] else Collisions(cells, current, candidate)
  }

  /** What a release acts on: nothing under policy None; under the other
      policies exactly the reported children, in child order. */
  lemma ReleaseCollisionsReport(policy: CollisionResult, cells: seq<Cell>, current: Option<nat>, candidate: Placement)
    ensures policy == CollisionResult.None ==> ReleaseCollisions(policy, cells, current, candidate) == []
    ensures policy != CollisionResult.None ==>
      forall k: nat :: k in ReleaseCollisions(policy, cells, current, candidate) <==> Hits(cells, current, candidate, k)
    ensures var r := ReleaseCollisions(policy, cells, current, candidate);
      forall x, y :: 0 <= x < y < |r| ==> r[x] < r[y]
  {
  }

  /** The placement the dragged element ends with: the candidate when nothing
      collides; the initial placement under RollbackIfCollideAny; otherwise
      (CustomBehavour, whose handler is disabled) the placement it had. */
  function Settle(policy: CollisionResult, placed: Placement, initial: Placement,
                  candidate: Placement, collisions: seq<nat>): (r: Placement)
    ensures r == candidate || r == initial || r == placed
    ensures collisions == [] ==> r == candidate
    ensures collisions != [] && policy == RollbackIfCollideAny ==> r == initial
    ensures collisions != [] && policy != RollbackIfCollideAny ==> r == placed
  {
    if |collisions| == 0 then candidate
    else if policy == RollbackIfCollideAny then initial
    else placed
  }

  /** Under policy None the candidate is always committed, overlaps included. */
  lemma NoneAlwaysCommits(cells: seq<Cell>, e: nat, initial: Placement, candidate: Placement)
    requires e < |cells|
    ensures Settle(CollisionResult.None, cells[e].place, initial, candidate,
                   ReleaseCollisions(CollisionResult.None, cells, Some(e), candidate)) == candidate
  {
  }

  /** Under RollbackIfCollideAny a release ends either back at the initial
      placement or at a placement that collides with no other participating
      child, whatever else the dragged element's own cell now holds. */
  lemma RollbackNeverCommitsCollision(cells: seq<Cell>, e: nat, initial: Placement, candidate: Placement, c: Cell)
    requires e < |cells|
    ensures var p := Settle(RollbackIfCollideAny, cells[e].place, initial, candidate,
                            ReleaseCollisions(RollbackIfCollideAny, cells, Some(e), candidate));
      p == initial || Collisions(cells[e := c], Some(e), p) == []
  {
    CollisionsIgnoreCurrent(cells, e, c, candidate, |cells|);
  }

  /** Under CustomBehavour a collision leaves the element where it was; with
      no collision the candidate is committed. */
  lemma CustomKeepsPlacementOnCollision(cells: seq<Cell>, e: nat, initial: Placement, candidate: Placement)
    requires e < |cells|
    ensures var p := Settle(CustomBehavour, cells[e].place, initial, candidate,
                            ReleaseCollisions(CustomBehavour, cells, Some(e), candidate));
      p == if Collisions(cells, Some(e), candidate) == [] then candidate else cells[e].place
  {
  }

  /** The policy outcome is always one of the three placements involved, so
      it is well formed when they are. */
  lemma SettleWellPlaced(policy: CollisionResult, placed: Placement, initial: Placement,
                         candidate: Placement, collisions: seq<nat>)
    requires WellPlaced(placed) && WellPlaced(initial) && WellPlaced(candidate)
    ensures WellPlaced(Settle(policy, placed, initial, candidate, collisions))
  {
  }

  /** The Margin given to the element during a move: the grid's own margin
      shifted by the pointer's displacement since the press. Opposite sides
      change by opposite amounts, so the element keeps its size. */
  function Dragged(gridMargin: Thickness, pointer: Point, anchor: Point): (m: Thickness)
    ensures m.left - gridMargin.left == pointer.x - anchor.x
    ensures m.top - gridMargin.top == pointer.y - anchor.y
    ensures m.left + m.right == gridMargin.left + gridMargin.right
    ensures m.top + m.bottom == gridMargin.top + gridMargin.bottom
  {
    var dx := pointer.x - anchor.x;
    var dy := pointer.y - anchor.y;
    Thickness(gridMargin.left + dx, gridMargin.top + dy, gridMargin.right - dx, gridMargin.bottom - dy)
  }

  /** Grabbing the left edge of an element makes a horizontal resize that
      moves the left edge to the pointer's column and keeps the right edge
      where it was, unless the element collapses to one column. */
  lemma LeftEdgeGrabKeepsRightEdge(local: Point, width: real, height: real, initial: ControlState, col: nat, row: nat)
    requires WellPlaced(initial.place)
    requires local.x < EdgeOffset(width, height)
    ensures var a := ShowArrows(local, width, height);
      var r := Resolve(initial, a.transformX, a.transformY, a.originX, a.originY, col, row).value;
      && a.accepted && a.transformX
      && r.col == col
      && (|| r.col + r.colSpan == initial.place.col + initial.place.colSpan
          || (r.colSpan == 1 && col >= initial.place.col + initial.place.colSpan))
  {
  }

  /** Grabbing the right edge (away from the left band) makes a horizontal
      resize that keeps the left edge and ends the element at the pointer's
      column, as long as the pointer has not crossed the left edge. */
  lemma RightEdgeGrabKeepsLeftEdge(local: Point, width: real, height: real, initial: ControlState, col: nat, row: nat)
    requires WellPlaced(initial.place)
    requires width - local.x < EdgeOffset(width, height) && local.x >= EdgeOffset(width, height)
    requires col >= initial.place.col
    ensures var a := ShowArrows(local, width, height);
      var r := Resolve(initial, a.transformX, a.transformY, a.originX, a.originY, col, row).value;
      && a.accepted && a.transformX
      && r.col == initial.place.col
      && r.col + r.colSpan == col + 1
  {
  }

  /** Two one-cell children in the first row, in columns 0 and 2. */
  function Neighbours(): seq<Cell>
  {
    [Cell(Placement(0, 0, 1, 1), 0, Thickness(0.0, 0.0, 0.0, 0.0), true, false),
     Cell(Placement(0, 2, 1, 1), 0, Thickness(0.0, 0.0, 0.0, 0.0), true, false)]
  }

  /** The snapshot of a move of the first child, pressed in its own cell. */
  function NeighbourMove(): ControlState
  {
    ControlState(0, Placement(0, 0, 1, 1), 0, Thickness(0.0, 0.0, 0.0, 0.0), 0, 0)
  }

  /** Moving a one-cell element beside its neighbour commits the move. */
  lemma MoveBesideNeighbourCommits()
    ensures Resolve(NeighbourMove(), false, false, 0.0, 0.0, 1, 0) == Ok(Placement(0, 1, 1, 1))
    ensures ReleaseCollisions(RollbackIfCollideAny, Neighbours(), Some(0), Placement(0, 1, 1, 1)) == []
    ensures Settle(RollbackIfCollideAny, Placement(0, 0, 1, 1), Placement(0, 0, 1, 1), Placement(0, 1, 1, 1), []) == Placement(0, 1, 1, 1)
  {
    var cells, c := Neighbours(), Placement(0, 1, 1, 1);
    CollideIffOverlap(cells[1].place, c);
    assert CollisionsUpTo(cells, Some(0), c, 1) == [];
    assert CollisionsUpTo(cells, Some(0), c, 2) == [];
  }

  /** Moving a one-cell element onto its neighbour reports the neighbour and,
      under RollbackIfCollideAny, leaves the element where it started. */
  lemma MoveOntoNeighbourRollsBack()
    ensures Resolve(NeighbourMove(), false, false, 0.0, 0.0, 2, 0) == Ok(Placement(0, 2, 1, 1))
    ensures ReleaseCollisions(RollbackIfCollideAny, Neighbours(), Some(0), Placement(0, 2, 1, 1)) == [1]
    ensures Settle(RollbackIfCollideAny, Placement(0, 0, 1, 1), Placement(0, 0, 1, 1), Placement(0, 2, 1, 1), [1]) == Placement(0, 0, 1, 1)
  {
    var cells, c := Neighbours(), Placement(0, 2, 1, 1);
    CollideIffOverlap(cells[1].place, c);
    assert CollisionsUpTo(cells, Some(0), c, 1) == [];
    assert CollisionsUpTo(cells, Some(0), c, 2) == [1];
  }

  /** Resizing a 2x2 element at (1, 1): pulling its left edge to column 0
      widens it to three columns; pulling its right edge to column 4 keeps
      column 1 and widens it to four. */
  lemma ResizeExamples()
    ensures
      var initial := ControlState(0, Placement(1, 1, 2, 2), 0, Thickness(0.0, 0.0, 0.0, 0.0), 1, 1);
      && Resolve(initial, true, false, 1.0, 0.0, 0, 1) == Ok(Placement(1, 0, 2, 3))
      && Resolve(initial, true, false, 0.0, 0.0, 4, 1) == Ok(Placement(1, 1, 2, 4))
  {
  }

  class Grid {
    /** The children in child order, with their attached properties. */
    var cells: seq<Cell>
    /** Actual heights of the row definitions and widths of the column
        definitions, as laid out by the host. */
    var rowHeights: seq<real>
    var colWidths: seq<real>
    /** The grid's own Margin. */
    var margin: Thickness
    var policy: CollisionResult
    var editModeEnabled: bool

    // the drag session
    var current: Option<nat>
    var isInDrag: bool
    var initial: ControlState
    var mouseOffset: Point
    var transformX: bool
    var transformY: bool
    var renderOriginX: real
    var renderOriginY: real

    /** The host accepts only well-formed placements and reports non-negative
        sizes; the current element is a child; a session in progress has a
        target and a well-formed snapshot. */
    ghost predicate Valid()
      reads this
    {
      && (forall k :: 0 <= k < |cells| ==> WellPlaced(cells[k].place))
      && NonNegative(rowHeights) && NonNegative(colWidths)
      && (current.Some? ==> current.value < |cells|)
      && (isInDrag ==> current.Some? && WellPlaced(initial.place))
    }

    constructor (cells: seq<Cell>, rowHeights: seq<real>, colWidths: seq<real>, margin: Thickness)
      requires forall k :: 0 <= k < |cells| ==> WellPlaced(cells[k].place)
      requires NonNegative(rowHeights) && NonNegative(colWidths)
      ensures Valid()
      ensures this.cells == cells && this.rowHeights == rowHeights && this.colWidths == colWidths && this.margin == margin
      ensures policy == RollbackIfCollideAny && !editModeEnabled && current == Null && !isInDrag
    {
      this.cells := cells;
      this.rowHeights := rowHeights;
      this.colWidths := colWidths;
      this.margin := margin;
      policy := RollbackIfCollideAny;
      editModeEnabled := false;
      current := Null;
      isInDrag := false;
      initial := ControlState(0, Placement(0, 0, 0, 0), 0, Thickness(0.0, 0.0, 0.0, 0.0), 0, 0);
      mouseOffset := Point(0.0, 0.0);
      transformX, transformY := false, false;
      renderOriginX, renderOriginY := 0.0, 0.0;
    }

    /** The (column, row) of the cell under a pointer given in grid
        coordinates. */
    method GetPosition(pointer: Point) returns (col: nat, row: nat)
      ensures row == CellIndex(rowHeights, pointer.y)
      ensures col == CellIndex(colWidths, pointer.x)
    {
      row := AxisCell(rowHeights, pointer.y);
      col := AxisCell(colWidths, pointer.x);
    }

    /** A pointer event from child `e` belongs to the session: a drag is in
        progress, the left button is down, `e` is editable and is the current
        element. */
    predicate ValidateElement(e: nat, leftPressed: bool)
      reads this
      ensures ValidateElement(e, leftPressed) && Valid() ==> e < |cells| && WellPlaced(initial.place)
    {
      isInDrag && leftPressed && e < |cells| && cells[e].editable && current == Some(e)
    }

    /** GetCurrentControlState for the cell under `pointer`. */
    function CandidateAt(pointer: Point): (p: Placement)
      reads this
      requires Valid() && isInDrag
      ensures WellPlaced(p)
    {
      Resolve(initial, transformX, transformY, renderOriginX, renderOriginY,
              CellIndex(colWidths, pointer.x), CellIndex(rowHeights, pointer.y)).value
    }

    /** Left button pressed on child `e` at `local` (relative to the child, of
        the given actual size) and `pointer` (relative to the grid). */
    method Press(e: nat, local: Point, width: real, height: real, pointer: Point)
      requires Valid() && e < |cells|
      modifies this`current, this`cells, this`isInDrag, this`initial, this`mouseOffset,
               this`transformX, this`transformY, this`renderOriginX, this`renderOriginY
      ensures Valid()
      ensures current == Some(e)
      ensures !old(cells[e].editable) ==>
        && cells == old(cells) && isInDrag == old(isInDrag) && initial == old(initial)
        && mouseOffset == old(mouseOffset)
        && transformX == old(transformX) && transformY == old(transformY)
        && renderOriginX == old(renderOriginX) && renderOriginY == old(renderOriginY)
      ensures old(cells[e].editable) ==>
        var a := ShowArrows(local, width, height);
        && transformX == a.transformX && transformY == a.transformY
        && (!a.accepted ==>
              && cells == old(cells) && isInDrag == old(isInDrag) && initial == old(initial)
              && mouseOffset == old(mouseOffset)
              && renderOriginX == old(renderOriginX) && renderOriginY == old(renderOriginY))
        && (a.accepted ==>
              && isInDrag
              && renderOriginX == a.originX && renderOriginY == a.originY
              && mouseOffset == pointer
              && initial == ControlState(e, old(cells[e].place), old(cells[e].zIndex), old(cells[e].margin),
                                         CellIndex(rowHeights, pointer.y), CellIndex(colWidths, pointer.x))
              && cells == old(cells)[e := old(cells[e]).(zIndex := DragZIndex)])
    {
      current := Some(e);
      if cells[e].editable {
        var a := ShowArrows(local, width, height);
        transformX, transformY := a.transformX, a.transformY;
        if !a.accepted {
          return;
        }
        renderOriginX, renderOriginY := a.originX, a.originY;
        var zIndex := cells[e].zIndex;
        cells := cells[e := cells[e].(zIndex := DragZIndex)];
        mouseOffset := pointer;
        var mouseCol, mouseRow := GetPosition(pointer);
        initial := ControlState(e, cells[e].place, zIndex, cells[e].margin, mouseRow, mouseCol);
        isInDrag := true;
      }
    }

    /** Pointer moved over child `e` to `pointer` (relative to the grid).
        `shrinkRejected` is the host's verdict that a resize would make the
        element smaller than the smallest row or column. Returns the
        notification raised for the move, if any. */
    method Move(e: nat, pointer: Point, leftPressed: bool, shrinkRejected: bool) returns (preview: Option<StateChanged>)
      requires Valid() && e < |cells|
      modifies this`cells
      ensures Valid()
      ensures !old(ValidateElement(e, leftPressed)) || ((transformX || transformY) && shrinkRejected) ==>
        cells == old(cells) && preview == Null
      ensures old(ValidateElement(e, leftPressed)) && (transformX || transformY) && !shrinkRejected ==>
        && cells == old(cells)
        && preview == Some(StateChanged(initial, CandidateAt(pointer), Collisions(cells, current, CandidateAt(pointer))))
      ensures old(ValidateElement(e, leftPressed)) && !transformX && !transformY ==>
        && cells == old(cells)[e := old(cells[e]).(margin := Dragged(margin, pointer, mouseOffset))]
        && preview == Some(StateChanged(initial, CandidateAt(pointer), Collisions(cells, current, CandidateAt(pointer))))
    {
      if !ValidateElement(e, leftPressed) {
        return Null;
      }
      if transformX || transformY {
        if shrinkRejected {
          return Null;
        }
      } else {
        cells := cells[e := cells[e].(margin := Dragged(margin, pointer, mouseOffset))];
      }
      var col, row := GetPosition(pointer);
      var candidate := Resolve(initial, transformX, transformY, renderOriginX, renderOriginY, col, row).value;
      WellPlacedHasCapacity(candidate);
      var checked := CheckCollisions(cells, current, candidate);
      preview := Some(StateChanged(initial, candidate, checked.value));
    }

    /** Left button released with the pointer at `pointer` (relative to the
        grid). Returns the FinishingWithCollisions notification, raised once
        for every release that ends a drag. */
    method Release(pointer: Point) returns (finished: Option<StateChanged>)
      requires Valid()
      modifies this`cells, this`current, this`isInDrag
      ensures Valid()
      ensures current == Null && !isInDrag
      ensures !old(isInDrag) ==> cells == old(cells) && finished == Null
      ensures old(isInDrag) ==>
        var e := old(current).value;
        var candidate := old(CandidateAt(pointer));
        var collisions := ReleaseCollisions(policy, old(cells), old(current), candidate);
        && finished == Some(StateChanged(initial, candidate, collisions))
        && cells == old(cells)[e := old(cells[e]).(place := Settle(policy, old(cells[e].place), initial.place, candidate, collisions),
                                                  zIndex := initial.zIndex,
                                                  margin := initial.margin)]
      ensures old(isInDrag) && policy == RollbackIfCollideAny ==>
        var e := old(current).value;
        cells[e].place == initial.place || Collisions(cells, Some(e), cells[e].place) == []
    {
      if !isInDrag {
        current := Null;
        return Null;
      }
      var e := current.value;
      var col, row := GetPosition(pointer);
      var candidate := Resolve(initial, transformX, transformY, renderOriginX, renderOriginY, col, row).value;
      var collisions: seq<nat> := [];
      if policy != CollisionResult.None {
        WellPlacedHasCapacity(candidate);
        var checked := CheckCollisions(cells, current, candidate);
        collisions := checked.value;
      }
      // no collision: commit; RollbackIfCollideAny: restore; otherwise keep
      var placed := Settle(policy, cells[e].place, initial.place, candidate, collisions);
      var restored := cells[e].(place := placed, zIndex := initial.zIndex, margin := initial.margin);
      if policy == RollbackIfCollideAny {
        RollbackNeverCommitsCollision(cells, e, initial.place, candidate, restored);
      }
      finished := Some(StateChanged(initial, candidate, collisions));
      cells := cells[e := restored];
      current := Null;
      isInDrag := false;
    }

    /** EditModeEnabled: setting a new value sets every child's edit-mode flag
        to it; setting the current value changes nothing. */
    method SetEditModeEnabled(value: bool)
      requires Valid()
      modifies this`cells, this`editModeEnabled
      ensures Valid() && editModeEnabled == value
      ensures |cells| == |old(cells)|
      ensures old(editModeEnabled) == value ==> cells == old(cells)
      ensures old(editModeEnabled) != value ==> forall k :: 0 <= k < |cells| ==> cells[k] == old(cells[k]).(editable := value)
    {
      if editModeEnabled != value {
        var k := 0;
        while k < |cells|
          invariant k <= |cells| == |old(cells)|
          invariant forall i :: 0 <= i < k ==> cells[i] == old(cells[i]).(editable := value)
          invariant forall i :: k <= i < |cells| ==> cells[i] == old(cells[i])
        {
          cells := cells[k := cells[k].(editable := value)];
          k := k + 1;
        }
      }
      editModeEnabled := value;
    }

    /** Marks one child editable or not. */
    method SetEditMode(e: nat, value: bool)
      requires Valid() && e < |cells|
      modifies this`cells
      ensures Valid()
      ensures cells == old(cells)[e := old(cells[e]).(editable := value)]
    {
      cells := cells[e := cells[e].(editable := value)];
    }

    /** Includes one child in, or excludes it from, collision calculations. */
    method SetSkipInCollisionCalculations(e: nat, value: bool)
      requires Valid() && e < |cells|
      modifies this`cells
      ensures Valid()
      ensures cells == old(cells)[e := old(cells[e]).(skip := value)]
    {
      cells := cells[e := cells[e].(skip := value)];
    }
  }

  /** The layout facts the drag below relies on: a press at (50, 50) on a
      100 x 100 child is an accepted move, and on three 100-wide columns the
      pointer's X of 50 is over column 0 and 250 over column 2. */
  lemma NeighbourLayout()
    ensures ShowArrows(Point(50.0, 50.0), 100.0, 100.0) == Arrows(true, false, false, 0.0, 0.0)
    ensures CellIndex([100.0], 50.0) == 0
    ensures CellIndex([100.0, 100.0, 100.0], 50.0) == 0
    ensures CellIndex([100.0, 100.0, 100.0], 250.0) == 2
  {
  }

  /** A new grid holding the two neighbours in one 100-high row of three
      100-wide columns, with the left button pressed in the centre of the
      first child. */
  method PressFirstNeighbour() returns (g: Grid)
    ensures fresh(g) && g.Valid()
    ensures g.rowHeights == [100.0] && g.colWidths == [100.0, 100.0, 100.0]
    ensures g.policy == RollbackIfCollideAny && g.current == Some(0)
    ensures g.isInDrag && g.initial == NeighbourMove() && !g.transformX && !g.transformY
    ensures g.renderOriginX == 0.0 && g.renderOriginY == 0.0
    ensures g.cells == Neighbours()[0 := Neighbours()[0].(zIndex := DragZIndex)]
  {
    g := new Grid(Neighbours(), [100.0], [100.0, 100.0, 100.0], Thickness(0.0, 0.0, 0.0, 0.0));
    NeighbourLayout();
    g.Press(0, Point(50.0, 50.0), 100.0, 100.0, Point(50.0, 50.0));
  }

  /** A whole drag through the handlers, called in sequence: a press in the
      centre of the first child, then a release over the column of its
      neighbour, rolls back and restores the ZIndex. */
  method DragOntoNeighbour()
  {
    var g := PressFirstNeighbour();
    NeighbourLayout();
    MoveOntoNeighbourRollsBack();
    var candidate := g.CandidateAt(Point(250.0, 50.0));
    assert candidate == Resolve(NeighbourMove(), false, false, 0.0, 0.0, 2, 0).value;
    ghost var pressed := g.cells;
    CollisionsIgnoreCurrent(Neighbours(), 0, pressed[0], candidate, 2);
    ghost var collisions := ReleaseCollisions(RollbackIfCollideAny, pressed, Some(0), candidate);
    assert collisions == [1];
    var finished := g.Release(Point(250.0, 50.0));
    assert finished == Some(StateChanged(NeighbourMove(), candidate, collisions));
    assert g.cells == Neighbours();
  }
}
