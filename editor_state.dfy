/** The shared editor state of the Bézier/B-spline editor (src/app.js) and
    the helpers of src/core/utils.js that pick and replace the point list of
    the active curve. */
module Editor {
  import opened Geometry

  /** The mode in which the Bézier list is the active one; every other mode
      string selects the spline list. */
  const BezierMode: string := "bezier"

  /** The editor's `state` object. */
  class EditorState {
    var mode: string
    var bezierPoints: seq<WeightedPoint>
    var splinePoints: seq<WeightedPoint>
    var selectedIndex: Option<nat>
    var bezierStep: real
    var splineStep: real
    var splineDegree: nat

    /** The initial state: Bézier mode, no points, nothing selected, steps of
        0.01 and spline degree 3. */
    constructor ()
      ensures mode == BezierMode && bezierPoints == [] && splinePoints == []
      ensures selectedIndex == None
      ensures bezierStep == 0.01 && splineStep == 0.01 && splineDegree == 3
    {
      mode := BezierMode;
      bezierPoints := [];
      splinePoints := [];
      selectedIndex := None;
      bezierStep := 0.01;
      splineStep := 0.01;
      splineDegree := 3;
    }
  }

  /** `getActivePoints(state)`: the Bézier list in mode "bezier", the spline
      list in any other mode. */
  function GetActivePoints(state: EditorState): (pts: seq<WeightedPoint>)
    reads state
    ensures state.mode == BezierMode ==> pts == state.bezierPoints
    ensures state.mode != BezierMode ==> pts == state.splinePoints
  {
    if state.mode == BezierMode then state.bezierPoints else state.splinePoints
  }

  /** `setActivePoints(state, pts)`: replaces the active list and nothing
      else, so that the active list afterwards is `pts`. */
  method SetActivePoints(state: EditorState, pts: seq<WeightedPoint>)
    modifies state
    ensures state.mode == old(state.mode) && state.selectedIndex == old(state.selectedIndex)
    ensures state.bezierStep == old(state.bezierStep) && state.splineStep == old(state.splineStep)
    ensures state.splineDegree == old(state.splineDegree)
    ensures state.mode == BezierMode ==> state.bezierPoints == pts && state.splinePoints == old(state.splinePoints)
    ensures state.mode != BezierMode ==> state.splinePoints == pts && state.bezierPoints == old(state.bezierPoints)
    ensures GetActivePoints(state) == pts
  {
    if state.mode == BezierMode {
      state.bezierPoints := pts;
    } else {
      state.splinePoints := pts;
    }
  }

  /** `clonePoint(p)`: a point with the same `x`, `y` and `w`. */
  function ClonePoint(p: WeightedPoint): (q: WeightedPoint)
    ensures q.x == p.x && q.y == p.y && q.w == p.w
  {
    WeightedPoint(p.x, p.y, p.w)
  }
}
