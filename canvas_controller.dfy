/** The mouse handling of the Bézier/B-spline editor's canvas
    (src/core/canvasController.js): hit-testing the active points within a
    squared radius of 14², dragging a hit point, and appending a point of
    weight 1 on a miss. Mouse positions are given in canvas coordinates. */
module Canvas {
  import opened Geometry
  import opened Editor

  /** The first index at or after `from` whose point lies within squared
      distance `radiusSq` of `pos` (inclusive), or `None`. */
  function FirstHitFrom(pts: seq<WeightedPoint>, pos: Point, radiusSq: real, from: nat): (idx: Option<nat>)
    requires from <= |pts|
    ensures idx.Some? ==> from <= idx.value < |pts|
                          && SquaredDistance(pos.x, pos.y, Position(pts[idx.value])) <= radiusSq
                          && forall j :: from <= j < idx.value ==> SquaredDistance(pos.x, pos.y, Position(pts[j])) > radiusSq
    ensures idx.None? <==> forall j :: from <= j < |pts| ==> SquaredDistance(pos.x, pos.y, Position(pts[j])) > radiusSq
    decreases |pts| - from
  {
    if from == |pts| then None
    else if SquaredDistance(pos.x, pos.y, Position(pts[from])) <= radiusSq then Some(from)
    else FirstHitFrom(pts, pos, radiusSq, from + 1)
  }

  /** The smallest index of a point within squared distance `radiusSq` of
      `pos`, or `None` when there is none. */
  function FirstHit(pts: seq<WeightedPoint>, pos: Point, radiusSq: real): Option<nat>
  {
    FirstHitFrom(pts, pos, radiusSq, 0)
  }

  /** A `CanvasController` on the shared editor state. */
  class CanvasController {
    const state: EditorState
    const hitRadiusSq: real := 14.0 * 14.0
    var dragging: bool
    var dragIndex: Option<nat>

    /** A drag is in progress exactly when a drag index is held. The
        constructor and every handler keep it, so the `dragIndex == null`
        test of `mouseMove` never decides anything once `dragging` holds. */
    predicate Valid()
      reads this
    {
      dragging <==> dragIndex.Some?
    }

    /** Not dragging, no drag index. */
    constructor (state: EditorState)
      ensures this.state == state && !dragging && dragIndex == None
      ensures Valid()
    {
      this.state := state;
      dragging := false;
      dragIndex := None;
    }

    /** `hitTest(pos)`: scans the active points in order and returns the first
        one within the hit radius, inclusive, or `None`. */
    method HitTest(pos: Point) returns (idx: Option<nat>)
      ensures idx == FirstHit(GetActivePoints(state), pos, hitRadiusSq)
      ensures idx.Some? ==> idx.value < |GetActivePoints(state)|
                            && SquaredDistance(pos.x, pos.y, Position(GetActivePoints(state)[idx.value])) <= 196.0
      ensures idx.None? <==> forall j :: 0 <= j < |GetActivePoints(state)| ==>
                               SquaredDistance(pos.x, pos.y, Position(GetActivePoints(state)[j])) > 196.0
    {
      var pts := GetActivePoints(state);
      assert hitRadiusSq == 196.0;
      var i := 0;
      while i < |pts|
        invariant 0 <= i <= |pts|
        invariant FirstHitFrom(pts, pos, hitRadiusSq, 0) == FirstHitFrom(pts, pos, hitRadiusSq, i)
      {
        if SquaredDistance(pos.x, pos.y, Position(pts[i])) <= hitRadiusSq {
          return Some(i);
        }
        i := i + 1;
      }
      return None;
    }

    /** `mouseDown(pos)`: on a hit, starts dragging that point and selects it,
        leaving the points alone; on a miss, appends `(pos.x, pos.y, 1)` to the
        active list and selects it. */
    method MouseDown(pos: Point)
      modifies this, state
      ensures state.mode == old(state.mode)
      ensures state.bezierStep == old(state.bezierStep) && state.splineStep == old(state.splineStep)
      ensures state.splineDegree == old(state.splineDegree)
      ensures var hit := FirstHit(old(GetActivePoints(state)), pos, hitRadiusSq);
              if hit.Some? then
                dragging && dragIndex == hit && state.selectedIndex == hit
                && state.bezierPoints == old(state.bezierPoints) && state.splinePoints == old(state.splinePoints)
              else
                dragging == old(dragging) && dragIndex == old(dragIndex)
                && GetActivePoints(state) == old(GetActivePoints(state)) + [WeightedPoint(pos.x, pos.y, 1.0)]
                && state.selectedIndex == Some(|old(GetActivePoints(state))|)
                && (state.mode == BezierMode ==> state.splinePoints == old(state.splinePoints))
                && (state.mode != BezierMode ==> state.bezierPoints == old(state.bezierPoints))
      ensures old(Valid()) ==> Valid()
      ensures state.selectedIndex.Some? && state.selectedIndex.value < |GetActivePoints(state)|
    {
      var idx := HitTest(pos);
      if idx.Some? {
        dragging := true;
        dragIndex := idx;
        state.selectedIndex := idx;
      } else {
        var pts := GetActivePoints(state);
        pts := pts + [WeightedPoint(pos.x, pos.y, 1.0)];
        SetActivePoints(state, pts);
        state.selectedIndex := Some(|pts| - 1);
      }
    }

    /** `mouseMove(pos)`: while dragging, moves the dragged point to `pos`,
        keeping its weight; otherwise nothing changes. A drag index past the
        end of the active list makes the source's write throw before anything
        changes, so nothing changes then either. */
    method MouseMove(pos: Point)
      modifies state
      ensures state.mode == old(state.mode) && state.selectedIndex == old(state.selectedIndex)
      ensures state.bezierStep == old(state.bezierStep) && state.splineStep == old(state.splineStep)
      ensures state.splineDegree == old(state.splineDegree)
      ensures var pts := old(GetActivePoints(state));
              if dragging && dragIndex.Some? && dragIndex.value < |pts| then
                var i := dragIndex.value;
                GetActivePoints(state) == pts[i := WeightedPoint(pos.x, pos.y, pts[i].w)]
                && (state.mode == BezierMode ==> state.splinePoints == old(state.splinePoints))
                && (state.mode != BezierMode ==> state.bezierPoints == old(state.bezierPoints))
              else
                state.bezierPoints == old(state.bezierPoints) && state.splinePoints == old(state.splinePoints)
    {
      if !dragging || dragIndex == None {
        return;
      }
      var pts := GetActivePoints(state);
      var i := dragIndex.value;
      if i >= |pts| {
        return;
      }
      pts := pts[i := WeightedPoint(pos.x, pos.y, pts[i].w)];
      SetActivePoints(state, pts);
    }

    /** `mouseUp()`: ends any drag. */
    method MouseUp()
      modifies this
      ensures !dragging && dragIndex == None
      ensures Valid()
    {
      dragging := false;
      dragIndex := None;
    }
  }

  /** A miss followed by a hit test at the same position finds the new point
      or an earlier one: the appended point is always within reach. */
  lemma {:induction false} AppendedPointIsHit(pts: seq<WeightedPoint>, pos: Point, radiusSq: real)
    requires radiusSq >= 0.0
    requires FirstHit(pts, pos, radiusSq) == None
    ensures FirstHit(pts + [WeightedPoint(pos.x, pos.y, 1.0)], pos, radiusSq) == Some(|pts|)
  {
    var grown := pts + [WeightedPoint(pos.x, pos.y, 1.0)];
    assert SquaredDistance(pos.x, pos.y, Position(grown[|pts|])) == 0.0;
    var hit := FirstHit(grown, pos, radiusSq);
    assert forall j :: 0 <= j < |pts| ==> grown[j] == pts[j];
    assert hit.Some?;
  }
}
