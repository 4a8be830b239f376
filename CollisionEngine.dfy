/** Finding the children whose unit cells overlap a candidate placement. */
module CollisionEngine {
  import opened GridTypes

  /** The (row, column) unit cells a placement occupies. */
  function Footprint(p: Placement): set<(int, int)>
  {
    set i, j | p.row <= i < p.row + p.rowSpan && p.col <= j < p.col + p.colSpan :: (i, j)
  }

  /** Two placements collide when they share a unit cell. */
  predicate Collide(a: Placement, b: Placement)
  {
    Footprint(a) * Footprint(b) != {}
  }

  /** Half-open interval overlap on both axes, with positive spans. */
  predicate IntervalsOverlap(a: Placement, b: Placement)
  {
    && a.rowSpan > 0 && a.colSpan > 0 && b.rowSpan > 0 && b.colSpan > 0
    && a.row < b.row + b.rowSpan && b.row < a.row + a.rowSpan
    && a.col < b.col + b.colSpan && b.col < a.col + a.colSpan
  }

  /** Sharing a unit cell is the same as overlapping row intervals and
      overlapping column intervals. */
  lemma CollideIffOverlap(a: Placement, b: Placement)
    ensures Collide(a, b) <==> IntervalsOverlap(a, b)
  {
    if IntervalsOverlap(a, b) {
      var i := if a.row < b.row then b.row else a.row;
      var j := if a.col < b.col then b.col else a.col;
      assert (i, j) in Footprint(a) * Footprint(b);
    }
    if Collide(a, b) {
      var q :| q in Footprint(a) * Footprint(b);
      assert q in Footprint(a) && q in Footprint(b);
    }
  }

  /** Collision is symmetric. */
  lemma CollideSymmetric(a: Placement, b: Placement)
    ensures Collide(a, b) <==> Collide(b, a)
  {
    CollideIffOverlap(a, b);
    CollideIffOverlap(b, a);
  }

  /** A placement with a non-positive span occupies no cell and collides with
      nothing. */
  lemma EmptySpanNeverCollides(a: Placement, b: Placement)
    requires a.rowSpan <= 0 || a.colSpan <= 0
    ensures !Collide(a, b) && !Collide(b, a)
  {
    CollideIffOverlap(a, b);
    CollideIffOverlap(b, a);
  }

  /** Child `k` is reported against `candidate`: it takes part in collision
      calculations, it is not the current element, and it shares a cell with
      the candidate. */
  predicate Hits(cells: seq<Cell>, current: Option<nat>, candidate: Placement, k: nat)
  {
    k < |cells| && !cells[k].skip && current != Some(k) && Collide(cells[k].place, candidate)
  }

  /** The children among the first `n` that are reported, in child order. */
  function CollisionsUpTo(cells: seq<Cell>, current: Option<nat>, candidate: Placement, n: nat): (r: seq<nat>)
    requires n <= |cells|
    ensures forall k: nat :: k in r <==> k < n && Hits(cells, current, candidate, k)
    ensures forall x, y :: 0 <= x < y < |r| ==> r[x] < r[y]
  {
    if n == 0 then []
    else
      var prefix := CollisionsUpTo(cells, current, candidate, n - 1);
      assert forall x :: 0 <= x < |prefix| ==> prefix[x] in prefix;
      prefix + (if Hits(cells, current, candidate, n - 1) then [n - 1] else [])
  }

  /** Every reported child, in child order. */
  function Collisions(cells: seq<Cell>, current: Option<nat>, candidate: Placement): (r: seq<nat>)
    ensures forall k: nat :: k in r <==> Hits(cells, current, candidate, k)
    ensures forall x, y :: 0 <= x < y < |r| ==> r[x] < r[y]
  {
    CollisionsUpTo(cells, current, candidate, |cells|)
  }

  /** Changing the current element itself does not change what it collides
      with, since it is never compared with itself. */
  lemma {:induction false} CollisionsIgnoreCurrent(cells: seq<Cell>, e: nat, c: Cell, candidate: Placement, n: nat)
    requires e < |cells| && n <= |cells|
    ensures CollisionsUpTo(cells[e := c], Some(e), candidate, n) == CollisionsUpTo(cells, Some(e), candidate, n)
  {
    if n > 0 {
      CollisionsIgnoreCurrent(cells, e, c, candidate, n - 1);
      assert Hits(cells[e := c], Some(e), candidate, n - 1) == Hits(cells, Some(e), candidate, n - 1);
    }
  }

  /** Two children that take part in collision calculations: dragging the
      first onto its own placement reports the second exactly when dragging
      the second onto its own placement reports the first. */
  lemma CollisionsSymmetric(cells: seq<Cell>, i: nat, j: nat)
    requires i < |cells| && j < |cells| && i != j && !cells[i].skip && !cells[j].skip
    ensures j in Collisions(cells, Some(i), cells[i].place) <==> i in Collisions(cells, Some(j), cells[j].place)
  {
    CollideSymmetric(cells[i].place, cells[j].place);
  }

  /** The unit-cell list the collision check builds for a placement, row by
      row. */
  method Figure(p: Placement) returns (figure: seq<(int, int)>)
    ensures forall q :: q in figure <==> q in Footprint(p)
  {
    figure := [];
    var i := p.row;
    while i < p.row + p.rowSpan
      invariant i == p.row || p.row < i <= p.row + p.rowSpan
      invariant forall q :: q in figure <==> p.row <= q.0 < i && p.col <= q.1 < p.col + p.colSpan
    {
      var j := p.col;
      while j < p.col + p.colSpan
        invariant j == p.col || p.col < j <= p.col + p.colSpan
        invariant forall q :: q in figure <==>
          (p.row <= q.0 < i && p.col <= q.1 < p.col + p.colSpan) || (q.0 == i && p.col <= q.1 < j)
      {
        figure := figure + [(i, j)];
        j := j + 1;
      }
      i := i + 1;
    }
  }

  /** CheckCollisions: the children other than `current`, not flagged to be
      skipped, whose unit-cell list intersects the candidate's, in child
      order. The candidate's list is created with capacity
      `rowSpan * colSpan`, which throws an argument-out-of-range error on
      `capacity` when exactly one of the spans is negative. */
  method CheckCollisions(cells: seq<Cell>, current: Option<nat>, state: Placement) returns (result: Checked<seq<nat>>)
    ensures result.OutOfRange? <==> state.rowSpan * state.colSpan < 0
    ensures result.OutOfRange? ==> result.param == "capacity"
    ensures result.Ok? ==> result.value == Collisions(cells, current, state)
  {
    if state.rowSpan * state.colSpan < 0 {
      return OutOfRange("capacity");
    }
    var collisions := [];
    var currentFigure := Figure(state);
    var k := 0;
    while k < |cells|
      invariant k <= |cells|
      invariant collisions == CollisionsUpTo(cells, current, state, k)
    {
      var child := cells[k];
      if !child.skip && current != Some(k) {
        var otherFigure := Figure(child.place);
        var intersects := exists q :: q in otherFigure && q in currentFigure;
        assert intersects <==> Collide(child.place, state) by {
          if intersects {
            var q :| q in otherFigure && q in currentFigure;
            assert q in Footprint(child.place) * Footprint(state);
          }
          if Collide(child.place, state) {
            var q :| q in Footprint(child.place) * Footprint(state);
            assert q in otherFigure && q in currentFigure;
          }
        }
        if intersects {
          collisions := collisions + [k];
        }
      }
      k := k + 1;
    }
    result := Ok(collisions);
  }

  /** A well-formed candidate never makes the check throw. */
  lemma WellPlacedHasCapacity(p: Placement)
    requires WellPlaced(p)
    ensures p.rowSpan * p.colSpan >= 1
  {
    assert p.rowSpan * p.colSpan >= p.rowSpan * 1;
  }
}
