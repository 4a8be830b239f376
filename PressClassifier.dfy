/** Deciding, from where a press lands inside an element, whether it starts a
    resize along one or both axes, a move, or nothing; and which edge of the
    element a resize drags. */
module PressClassifier {
  import opened GridTypes

  /** The result of classifying a press: whether it is accepted, whether it
      resizes horizontally and vertically, and the per-axis render origin
      (1.0 when the left or top edge was grabbed, 0 otherwise). The origins
      only mean something for an accepted press. */
  datatype Arrows = Arrows(accepted: bool, transformX: bool, transformY: bool, originX: real, originY: real)

  function MinReal(a: real, b: real): real
  {
    if a < b then a else b
  }

  /** Width of the resize band along every edge: a tenth of the element's
      smaller side. */
  function EdgeOffset(width: real, height: real): real
  {
    MinReal(height, width) * 0.1
  }

  /** The pointer is within the resize band of the left or right edge. */
  predicate NearVerticalEdge(local: Point, width: real, height: real)
  {
    local.x < EdgeOffset(width, height) || width - local.x < EdgeOffset(width, height)
  }

  /** The pointer is within the resize band of the top or bottom edge. */
  predicate NearHorizontalEdge(local: Point, width: real, height: real)
  {
    local.y < EdgeOffset(width, height) || height - local.y < EdgeOffset(width, height)
  }

  /** The closed central band from a quarter to three quarters on both axes. */
  predicate InCentre(local: Point, width: real, height: real)
  {
    width / 4.0 <= local.x <= 3.0 * width / 4.0 && height / 4.0 <= local.y <= 3.0 * height / 4.0
  }

  /** Classifies a press at `local` (relative to the element) on an element of
      the given actual size. */
  function ShowArrows(local: Point, width: real, height: real): (a: Arrows)
    ensures a.transformX <==> NearVerticalEdge(local, width, height)
    ensures a.transformY <==> NearHorizontalEdge(local, width, height)
    ensures !a.accepted <==> !a.transformX && !a.transformY && !InCentre(local, width, height)
    ensures a.accepted ==> (a.originX == 1.0 <==> local.x < EdgeOffset(width, height))
    ensures a.accepted ==> (a.originY == 1.0 <==> local.y < EdgeOffset(width, height))
    ensures a.accepted ==> (a.originX == 1.0 || a.originX == 0.0) && (a.originY == 1.0 || a.originY == 0.0)
  {
    var offset := EdgeOffset(width, height);
    var transformX := local.x < offset || width - local.x < offset;
    var transformY := local.y < offset || height - local.y < offset;
    if !transformX && !transformY && !InCentre(local, width, height) then
      Arrows(false, transformX, transformY, 0.0, 0.0)
    else
      Arrows(true, transformX, transformY,
             if transformX && local.x < offset then 1.0 else 0.0,
             if transformY && local.y < offset then 1.0 else 0.0)
  }

  /** On a non-degenerate element the resize bands and the central band are
      disjoint, so a press in the centre is always a move. */
  lemma CentrePressMoves(local: Point, width: real, height: real)
    requires width > 0.0 && height > 0.0 && InCentre(local, width, height)
    ensures var a := ShowArrows(local, width, height); a.accepted && !a.transformX && !a.transformY
  {
    assert EdgeOffset(width, height) <= width * 0.1 && EdgeOffset(width, height) <= height * 0.1;
  }

  /** A press in a corner's bands resizes along both axes, and the origins
      name the grabbed corner. */
  lemma CornerPressResizesBoth(local: Point, width: real, height: real)
    requires local.x < EdgeOffset(width, height) && height - local.y < EdgeOffset(width, height)
    ensures var a := ShowArrows(local, width, height);
      a.accepted && a.transformX && a.transformY && a.originX == 1.0 && (a.originY == 0.0 <==> local.y >= EdgeOffset(width, height))
  {
  }
}
