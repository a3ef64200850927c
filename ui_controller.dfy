/** The mouse handling of the profile editor of the surface-of-revolution
    application (CGQ2/js/UIController.js): a press near a control point (at
    distance strictly below 10) starts dragging it, a press elsewhere appends
    a point, a move drags or updates the hovered point. The two callbacks
    `onPointsChanged` and `onHoverChanged` are modelled as returned flags
    that say whether the handler fired them. Distances are compared squared:
    `sqrt(d²) < 10` exactly when `d² < 100`. */
module UIControl {
  import opened Geometry

  /** The squared pick radius, 10². */
  const PickRadiusSq: real := 100.0

  /** The first index at or after `from` whose point lies at distance
      strictly below 10 from `(x, y)`, or `None`. */
  function FirstNearFrom(points: seq<Point>, x: real, y: real, from: nat): (idx: Option<nat>)
    requires from <= |points|
    ensures idx.Some? ==> from <= idx.value < |points|
                          && SquaredDistance(x, y, points[idx.value]) < PickRadiusSq
                          && forall j :: from <= j < idx.value ==> SquaredDistance(x, y, points[j]) >= PickRadiusSq
    ensures idx.None? <==> forall j :: from <= j < |points| ==> SquaredDistance(x, y, points[j]) >= PickRadiusSq
    decreases |points| - from
  {
    if from == |points| then None
    else if SquaredDistance(x, y, points[from]) < PickRadiusSq then Some(from)
    else FirstNearFrom(points, x, y, from + 1)
  }

  /** The smallest index of a point at distance below 10 from `(x, y)`. */
  function FirstNear(points: seq<Point>, x: real, y: real): Option<nat>
  {
    FirstNearFrom(points, x, y, 0)
  }

  /** The part of the application state the handlers touch. */
  class AppState {
    var controlPoints: seq<Point>

    constructor (controlPoints: seq<Point>)
      ensures this.controlPoints == controlPoints
    {
      this.controlPoints := controlPoints;
    }
  }

  /** A `UIController` on the application state. */
  class UIController {
    const state: AppState
    var draggingPoint: Option<nat>
    var hoveredPoint: Option<nat>

    /** The dragged index, if any, names a control point. */
    predicate Valid()
      reads this, state
    {
      draggingPoint.Some? ==> draggingPoint.value < |state.controlPoints|
    }

    /** Nothing dragged, nothing hovered. */
    constructor (state: AppState)
      ensures this.state == state && draggingPoint == None && hoveredPoint == None
      ensures Valid()
    {
      this.state := state;
      draggingPoint := None;
      hoveredPoint := None;
    }

    /** `handleMouseDown`: drags the first control point near `(x, y)`;
        with none near, appends `(x, y)` and fires `onPointsChanged`. */
    method HandleMouseDown(x: real, y: real) returns (pointsChanged: bool)
      modifies this, state
      ensures hoveredPoint == old(hoveredPoint)
      ensures var near := FirstNear(old(state.controlPoints), x, y);
              if near.Some? then
                draggingPoint == near && !pointsChanged && state.controlPoints == old(state.controlPoints)
              else
                draggingPoint == old(draggingPoint) && pointsChanged
                && state.controlPoints == old(state.controlPoints) + [Point(x, y)]
      ensures old(Valid()) ==> Valid()
    {
      var i := 0;
      while i < |state.controlPoints|
        invariant 0 <= i <= |state.controlPoints|
        invariant FirstNear(state.controlPoints, x, y) == FirstNearFrom(state.controlPoints, x, y, i)
      {
        var point := state.controlPoints[i];
        if SquaredDistance(x, y, point) < PickRadiusSq {
          draggingPoint := Some(i);
          return false;
        }
        i := i + 1;
      }
      state.controlPoints := state.controlPoints + [Point(x, y)];
      pointsChanged := true;
    }

    /** `handleMouseMove`: while dragging, replaces the dragged entry with
        `(x, y)` and fires `onPointsChanged`; otherwise makes the first point
        near `(x, y)` the hovered one and fires `onHoverChanged` only when
        that changes the hovered point. */
    method HandleMouseMove(x: real, y: real) returns (pointsChanged: bool, hoverChanged: bool)
      requires Valid()
      modifies this, state
      ensures draggingPoint == old(draggingPoint)
      ensures Valid()
      ensures if old(draggingPoint).Some? then
                var i := old(draggingPoint).value;
                state.controlPoints == old(state.controlPoints)[i := Point(x, y)]
                && pointsChanged && !hoverChanged && hoveredPoint == old(hoveredPoint)
              else
                state.controlPoints == old(state.controlPoints) && !pointsChanged
                && hoveredPoint == FirstNear(state.controlPoints, x, y)
                && (hoverChanged <==> hoveredPoint != old(hoveredPoint))
    {
      pointsChanged, hoverChanged := false, false;
      if draggingPoint.Some? {
        state.controlPoints := state.controlPoints[draggingPoint.value := Point(x, y)];
        pointsChanged := true;
      } else {
        var hovered: Option<nat> := None;
        var i := 0;
        while i < |state.controlPoints|
          invariant 0 <= i <= |state.controlPoints|
          invariant hovered == None
          invariant FirstNear(state.controlPoints, x, y) == FirstNearFrom(state.controlPoints, x, y, i)
        {
          var point := state.controlPoints[i];
          if SquaredDistance(x, y, point) < PickRadiusSq {
            hovered := Some(i);
            break;
          }
          i := i + 1;
        }
        if hovered != hoveredPoint {
          hoveredPoint := hovered;
          hoverChanged := true;
        }
      }
    }

    /** `handleMouseUp`: ends any drag. */
    method HandleMouseUp()
      modifies this
      ensures draggingPoint == None && hoveredPoint == old(hoveredPoint)
      ensures Valid()
    {
      draggingPoint := None;
    }
  }

  /** A press that found no point appends one that a press at the same place
      then finds: the new point is the first one near `(x, y)`. */
  lemma {:induction false} AppendedPointIsNear(points: seq<Point>, x: real, y: real)
    requires FirstNear(points, x, y) == None
    ensures FirstNear(points + [Point(x, y)], x, y) == Some(|points|)
  {
    var grown := points + [Point(x, y)];
    assert SquaredDistance(x, y, grown[|points|]) == 0.0;
    assert forall j :: 0 <= j < |points| ==> grown[j] == points[j];
    assert FirstNear(grown, x, y).Some?;
  }

  /** After a drag step the cursor is near the dragged point, so a point at
      or before the dragged index is the first one near it: a press there
      picks up the dragged point or one listed before it. */
  lemma DraggedPointStaysNear(points: seq<Point>, i: nat, x: real, y: real)
    requires i < |points|
    ensures var near := FirstNear(points[i := Point(x, y)], x, y);
            near.Some? && near.value <= i
  {
    var moved := points[i := Point(x, y)];
    assert SquaredDistance(x, y, moved[i]) == 0.0;
  }
}
