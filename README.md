# Parametric curve editors: a verified Dafny model

This project models the computational core of two small curve editors.

The first editor (`src/`, with its curve code in `CGQ1/src/core/`) edits two point lists, one for a Bézier curve and one for a B-spline:
- a rational de Casteljau evaluator works over weighted control points `{x, y, w}` (`bezier.js`);
- a clamped B-spline evaluator uses an open uniform knot vector on `[0, 1]`, a binary search for the knot span and de Boor's algorithm (`spline.js`);
- a shared `state` object holds both lists and the editing mode (`app.js`), and helpers pick or replace the active list (`utils.js`);
- a canvas controller hit-tests the active points within a squared radius of 14², drags a hit point, and appends a point on a miss (`canvasController.js`).

The second editor (`CGQ2/js/`) draws the profile of a surface of revolution:
- a recursive, unweighted de Casteljau with a uniform sampler (`CurveGenerator.js`);
- a B-spline sampler over an integer knot vector with the recursive Cox–de Boor basis (`CurveGenerator.js`);
- mouse handlers that drag the control point under the cursor (distance strictly below 10), append a point elsewhere, and track the hovered point (`UIController.js`).

Coordinates, weights, knots and parameters are exact `real`s.

The integer knot vector of `generateBSpline` is non-decreasing exactly when there are no points or at least `degree` of them. With exactly `degree` points every knot is 0, so the vector is still non-decreasing although the curve is degenerate (`IntegerKnotsNonDecreasingIff`).

Files and modules:
- `geometry.dfy` (`Geometry`) holds the shared values: `Option`, `Point`, `WeightedPoint`, `Lerp`, `SquaredDistance`, `NonDecreasing`.
- `bezier.dfy` (`RationalBezier`) models `bezier.js`.
  - The in-place reduction over the array `temp` is proved against `Level`/`Survivor`/`RationalPoint`.
- `spline.dfy` (`Spline`) models `spline.js`.
  - The three knot loops are proved against `UniformKnots`.
  - The binary search is proved against `IsSpan`.
  - The nested passes over the array `d` are proved against `BlendPass`/`BlendLevel`/`DeBoorPoint`.
- `curve_generator.dfy` (`CurveGenerator`) models `CurveGenerator.js`.
  - `BezierPoint`, `Basis` and `IntegerKnots` follow the source's recursion and knot rule.
  - The loops of the two samplers are methods proved against `BezierPoint` and `Blend`.
- `editor_state.dfy` (`Editor`) models the `state` object of `app.js` as a class, together with `utils.js`.
- `canvas_controller.dfy` (`Canvas`) and `ui_controller.dfy` (`UIControl`) model the two controllers as classes.
  - Their fields are updated by the handler methods.
  - Their search loops are proved against the recursive specifications `FirstHitFrom` and `FirstNearFrom`.

## Model

| member | source | states |
|---|---|---|
| `RationalBezier.DeCasteljau` | CGQ1/src/core/bezier.js:1-23 | `None` exactly for an empty list. Otherwise the in-place passes over `temp` leave the survivor of the lifted points, and the result is its projection `RationalPoint(points, t)`. |
| `RationalBezier.PassInPlace` | CGQ1/src/core/bezier.js:12-18 | The `i` loop of one pass turns the first `len` entries of `temp` into `Pass` of their old values, `len - 1` of them, each blended from an entry not yet rewritten; the rest of `temp` is kept. |
| `RationalBezier.LevelWeights` | CGQ1/src/core/bezier.js:11-19 | The weights of every level are the de Casteljau reduction of the weights alone; `x` and `y` never reach `w`. |
| `RationalBezier.SurvivingWeightOfWeights` | CGQ1/src/core/bezier.js:11-21 | The weight divided by at the end is the scalar de Casteljau reduction of the input weights. |
| `RationalBezier.SurvivingWeightIgnoresPositions` | CGQ1/src/core/bezier.js:11-21 | Two lists with equal weights have equal surviving weights, whatever their positions. |
| `RationalBezier.MixPositive` | CGQ1/src/core/bezier.js:16 | A blend of two positive weights with `t` in `[0, 1]` is positive. |
| `RationalBezier.WeightLevelPositive` | CGQ1/src/core/bezier.js:11-19 | Positive weights stay positive at every level for `t` in `[0, 1]`. |
| `RationalBezier.PositiveWeightsSurvive` | CGQ1/src/core/bezier.js:21-22 | Positive weights and `t` in `[0, 1]` make the final division's weight positive, so the projection is defined. |
| `RationalBezier.LevelAtZero` | CGQ1/src/core/bezier.js:11-19 | At `t = 0` each pass keeps the first points unchanged and drops the last one. |
| `RationalBezier.LevelAtOne` | CGQ1/src/core/bezier.js:11-19 | At `t = 1` each pass drops the first point and keeps the rest unchanged. |
| `RationalBezier.ProjectLift` | CGQ1/src/core/bezier.js:4-8 | Projecting a lifted point of non-zero weight returns its position: lifting and projection are inverse. |
| `RationalBezier.EndPoints` | CGQ1/src/core/bezier.js:1-23 | The curve starts at the first control point and ends at the last one, given non-zero end weights. |
| `RationalBezier.SinglePointIsItself` | CGQ1/src/core/bezier.js:10-22 | A single point of non-zero weight evaluates to itself at every `t`: no pass runs and the projection undoes the lifting. |
| `RationalBezier.LevelShift` | CGQ1/src/core/bezier.js:11-12 | Pass `r + 1` of a list is pass `r` of its first pass. |
| `RationalBezier.UnitSurvivor` | CGQ1/src/core/bezier.js:11-21 | Reducing weight-1 points carries along the unweighted de Casteljau point with weight 1. |
| `RationalBezier.UnitWeightsAgree` | CGQ1/src/core/bezier.js:1-23 | With all weights 1 the rational evaluator equals the second editor's `deCasteljau`, for every `t`. |
| `Spline.OpenUniformKnot` | CGQ1/src/core/spline.js:1-15 | The three push loops build exactly `p + 1` zeros, the values `i / interior` for `i = 1 .. interior - 1`, and `p + 1` ones. |
| `Spline.UniformKnotsLength` | CGQ1/src/core/spline.js:3-12 | The knot vector has `nCP + p + 1` entries when `nCP >= p + 1`, and `2p + 2` otherwise. |
| `Spline.UniformKnotsClamped` | CGQ1/src/core/spline.js:3-12 | The first `p + 1` knots are 0 and the last `p + 1` knots are 1. |
| `Spline.UniformKnotsInterior` | CGQ1/src/core/spline.js:7-10 | Interior knot `i` is `(i - p) / (nCP - p)`, strictly between 0 and 1. |
| `Spline.UniformKnotsNonDecreasing` | CGQ1/src/core/spline.js:1-15 | The open uniform knot vector is non-decreasing. |
| `Spline.UniformKnotsShape` | CGQ1/src/core/spline.js:1-15 | For `nCP >= p + 1`, the knots are 0 up to index `p`, below 1 up to index `nCP - 1`, and 1 from index `nCP` on. |
| `Spline.FindSpan` | CGQ1/src/core/spline.js:17-31 | The result is in `[p, nCP - 1]`. It is `nCP - 1` when `t >= U[nCP]` and `p` when `t <= U[p]`; otherwise `U[k] <= t < U[k + 1]`. The search terminates on any knot vector. |
| `Spline.SpanUnique` | CGQ1/src/core/spline.js:17-31 | Over a non-decreasing knot vector only one index satisfies the span conditions, so the result of `findSpan` is determined. |
| `Spline.BlendPassInPlace` | CGQ1/src/core/spline.js:45-54 | The downward `j` loop of one pass rewrites the buffer into `BlendPass` of its old contents: each `d[j]` is blended from the not-yet-rewritten `d[j - 1]`. |
| `Spline.SeedBuffer` | CGQ1/src/core/spline.js:39-42 | The fresh buffer holds the positions of control points `k - p .. k`, in order. |
| `Spline.ReduceInPlace` | CGQ1/src/core/spline.js:44-55 | Passes `1 .. p` turn the buffer into `BlendLevel` of its old contents at level `p`. |
| `Spline.DeBoor` | CGQ1/src/core/spline.js:33-58 | `None` exactly when there are fewer than `p + 1` points. Otherwise the span is the one `findSpan` describes, and the result is the last entry after `p` passes over the seeded window. |
| `Spline.ZeroDenominatorCopies` | CGQ1/src/core/spline.js:47-48 | A zero knot difference sets `alpha = 0`, so the pass copies `d[j - 1]` into `d[j]`. |
| `Spline.DeBoorReadsOnlyWindow` | CGQ1/src/core/spline.js:39-42 | Only the positions of control points `k - p .. k` matter; weights and all other points are never read. |
| `Spline.PassWithConstantAlpha` | CGQ1/src/core/spline.js:45-53 | When every `alpha` of a pass is `a`, entry `j >= r` becomes the blend of entries `j - 1` and `j` by `a`, and lower entries stay. |
| `Spline.AlphaAtZero` | CGQ1/src/core/spline.js:46-48 | At `t = 0` over knots that start with `p + 1` zeros, every `alpha` of span `p` is 0, including those with a zero denominator. |
| `Spline.ZeroPassShifts` | CGQ1/src/core/spline.js:45-54 | At `t = 0` a pass over such knots moves every entry one place up and repeats entry 0 below `r`. |
| `Spline.BlendLevelAtZero` | CGQ1/src/core/spline.js:44-55 | At `t = 0` over knots that start with `p + 1` zeros, pass `r` leaves seed entry `j - r` in entry `j`, and seed entry 0 below `r`. |
| `Spline.BlendLevelAtOne` | CGQ1/src/core/spline.js:44-55 | At `t = 1` in the last span of a clamped vector, every `alpha` is 1 and no pass changes the buffer. |
| `Spline.DeBoorStartsAtFirst` | CGQ1/src/core/spline.js:33-58 | Over any knot vector that starts with `p + 1` zeros and has 1 at index `nCP`, `t = 0` selects span `p` and gives the first control point. |
| `Spline.DeBoorEndsAtLast` | CGQ1/src/core/spline.js:33-58 | Over any knot vector that is below 1 up to index `nCP - 1` and 1 from there on, `t = 1` selects span `nCP - 1` and gives the last control point. |
| `Spline.DeBoorEndPoints` | CGQ1/src/core/spline.js:33-58 | Over the open uniform knot vector, `t = 0` selects span `p` and gives the first control point. `t = 1` selects span `nCP - 1` and gives the last one. |
| `Spline.BlendLevelIsBezierLevel` | CGQ1/src/core/spline.js:44-55 | Over `p + 1` zeros followed by ones, the entries `r .. p` after pass `r` are the level-`r` de Casteljau points. |
| `Spline.AlphaOverBezierKnots` | CGQ1/src/core/spline.js:46-48 | Over `p + 1` zeros followed by ones, every `alpha` of span `p` equals `t`. |
| `Spline.PassIsStep` | CGQ1/src/core/spline.js:45-54 | A pass whose every `alpha` is `t` is one de Casteljau step on the entries `r - 1 .. p`. |
| `Spline.NoInteriorKnotsIsBezier` | CGQ1/src/core/spline.js:33-58 | With `nCP = p + 1` (no interior knots) the span is always `p`, and de Boor's result is the Bézier point of the same positions for every `t`. |
| `CurveGenerator.Step` | CGQ2/js/CurveGenerator.js:13-19 | One level has one point fewer than the previous one. |
| `CurveGenerator.StepPointwise` | CGQ2/js/CurveGenerator.js:14-18 | Proof step for `Step`: entry `i` of a level is the blend of points `i` and `i + 1` of the previous level. |
| `CurveGenerator.DeCasteljau` | CGQ2/js/CurveGenerator.js:10-21 | The push loop builds exactly the next level, and the recursion returns `BezierPoint(points, t)`. |
| `CurveGenerator.BezierStartsAtFirst` | CGQ2/js/CurveGenerator.js:10-21 | At `t = 0` the result is the first control point. |
| `CurveGenerator.BezierEndsAtLast` | CGQ2/js/CurveGenerator.js:10-21 | At `t = 1` the result is the last control point. |
| `CurveGenerator.LevelShift` | CGQ2/js/CurveGenerator.js:20 | Level `r + 1` of a list is level `r` of its next level. |
| `CurveGenerator.BezierPointIsLastLevel` | CGQ2/js/CurveGenerator.js:10-21 | The recursion's result is the single point of level `n - 1`, the point the iterative reduction of the first editor keeps. |
| `CurveGenerator.GenerateBezier` | CGQ2/js/CurveGenerator.js:29-36 | There are `subdivisions + 1` samples, sample `i` being the curve at `i / subdivisions`. The first sample is the first control point and the last sample is the last one. |
| `CurveGenerator.Basis` | CGQ2/js/CurveGenerator.js:46-65 | Degree 0 is the indicator of the half-open span `[knots[i], knots[i+1])`: it is 1 exactly when `t` lies in that span and 0 otherwise. A higher degree is the sum of the two Cox–de Boor terms, each dropped when its knot difference is 0. |
| `CurveGenerator.ClosedBasis` | CGQ2/js/CurveGenerator.js:47-49 | The corrected degree-0 indicator is 0 or 1 and is 1 wherever the source's is. It is also 1 at the right end of a non-empty span when that end is the last knot. |
| `CurveGenerator.BasisZeroWithoutActiveSpan` | CGQ2/js/CurveGenerator.js:46-65 | A basis value is 0 when none of the degree-0 half-open spans under it contains `t`. |
| `CurveGenerator.BasisLocalSupport` | CGQ2/js/CurveGenerator.js:46-65 | Over a non-decreasing knot vector, `N(i, k)` is 0 outside `[knots[i], knots[i+k+1])`. |
| `CurveGenerator.BasisNonNegative` | CGQ2/js/CurveGenerator.js:46-65 | Over a non-decreasing knot vector, no basis value is negative. |
| `CurveGenerator.GuardedTermNonNegative` | CGQ2/js/CurveGenerator.js:54-62 | Proof step for `BasisNonNegative`: a guarded term is non-negative when its denominator is non-negative, its lower basis is non-negative, and its numerator is non-negative wherever that basis is non-zero. |
| `CurveGenerator.GuardedZero` | CGQ2/js/CurveGenerator.js:54-62 | Proof step for the closed-basis lemmas: a term whose numerator or lower basis is 0 contributes 0, whatever its denominator. |
| `CurveGenerator.ZeroDenominatorHarmless` | CGQ2/js/CurveGenerator.js:51-62 | Over a non-decreasing knot vector, a term dropped for a zero denominator multiplies a lower basis that is 0 anyway. |
| `CurveGenerator.IntegerKnots` | CGQ2/js/CurveGenerator.js:75-85 | The knot vector has `m + 1 = points + degree + 1` entries. |
| `CurveGenerator.IntegerKnotsClampedRamp` | CGQ2/js/CurveGenerator.js:81-88 | With at least `degree` points, entry `i` is `clamp(i - k, 0, points - k)`: `k + 1` zeros, steps of 1, and `k + 1` copies of `tMax = m - 2k`. |
| `CurveGenerator.IntegerKnotsNonDecreasingIff` | CGQ2/js/CurveGenerator.js:81-85 | The knot vector is non-decreasing exactly when there are no points or at least `degree` of them. |
| `CurveGenerator.KnotsBoundedByTMax` | CGQ2/js/CurveGenerator.js:81-88 | No knot exceeds `tMax`. |
| `CurveGenerator.IntegerKnotsEndShape` | CGQ2/js/CurveGenerator.js:81-88 | With more points than the degree, the knots before index `points` are at most `tMax - 1` and all later ones, at least one, equal `tMax`. |
| `CurveGenerator.LastSampleParameter` | CGQ2/js/CurveGenerator.js:88-91 | Sample `subdivisions` is taken at `t = tMax` exactly. |
| `CurveGenerator.LastSampleIsOrigin` | CGQ2/js/CurveGenerator.js:47-49 | At `t = tMax` every basis value is 0, so the blended point is the origin. |
| `CurveGenerator.SampleBSpline` | CGQ2/js/CurveGenerator.js:92-100 | The `j` loop accumulates `x` and `y` into `Blend`: each control point weighted by its basis value at `t`. |
| `CurveGenerator.WeightedSumStep` | CGQ2/js/CurveGenerator.js:94-98 | Proof step for `SampleBSpline`: adding point `n` times its weight to the sum of the first `n` terms gives the sum of the first `n + 1`. |
| `CurveGenerator.GenerateBSpline` | CGQ2/js/CurveGenerator.js:74-104 | The loop builds the knot vector. There are `subdivisions + 1` samples, sample `i` being `Blend` at `(i / subdivisions)·tMax`. The last sample is `(0, 0)`. |
| `CurveGenerator.ClosedBasisAgreesBelowEnd` | CGQ2/js/CurveGenerator.js:46-65 | The closed-end basis equals the source's basis at every `t` other than the largest knot. |
| `CurveGenerator.ClosedBasisLastIsOne` | CGQ2/js/CurveGenerator.js:88-98 | With the closed-end basis, over any knot vector that ends as the integer knots do, the last control point has basis 1 at `tMax` at every degree. |
| `CurveGenerator.ClosedBasisEarlierIsZero` | CGQ2/js/CurveGenerator.js:88-98 | With the closed-end basis, over the same knot vectors, every earlier control point has basis 0 at `tMax`. |
| `CurveGenerator.ClosedBlendAtEnd` | CGQ2/js/CurveGenerator.js:88-101 | With the closed-end basis over such knots, the sum at `tMax` is the origin over the first `n < points` control points and the last control point over all of them. |
| `CurveGenerator.ClosedEndsAtLastPoint` | CGQ2/js/CurveGenerator.js:88-101 | With the closed-end basis and more points than the degree, the sample at `tMax` is the last control point. |
| `Editor.EditorState.constructor` | src/app.js:8-16 | The initial state: mode "bezier", both lists empty, nothing selected, steps 0.01, degree 3. |
| `Editor.GetActivePoints` | src/core/utils.js:3-7 | The Bézier list in mode "bezier", and the spline list in every other mode. |
| `Editor.SetActivePoints` | src/core/utils.js:9-15 | Replaces only the active list and keeps every other field. Reading the active list afterwards gives `pts`. |
| `Editor.ClonePoint` | src/core/utils.js:17-19 | The copy has the same `x`, `y` and `w`. |
| `Canvas.FirstHitFrom` | src/core/canvasController.js:39-44 | The result is the smallest index from `from` on whose squared distance is at most the radius. It is `None` exactly when no such index exists. |
| `Canvas.CanvasController.constructor` | src/core/canvasController.js:7-15 | Not dragging, no drag index, and a squared hit radius of 14·14. |
| `Canvas.CanvasController.HitTest` | src/core/canvasController.js:37-45 | Returns the first active point with squared distance at most 196 (inclusive), or `None` exactly when no active point is that close. |
| `Canvas.CanvasController.MouseDown` | src/core/canvasController.js:47-61 | On a hit: dragging, and the drag index and selection set to the hit index, with both lists unchanged. On a miss: `(x, y, 1)` appended to the active list only, the new index selected, and the drag fields unchanged. The selection always names an active point afterwards. |
| `Canvas.CanvasController.MouseMove` | src/core/canvasController.js:63-69 | While dragging, only `x` and `y` of the dragged point change; its `w`, the other points and the other list are kept. Otherwise nothing changes. |
| `Canvas.CanvasController.MouseUp` | src/core/canvasController.js:71-74 | Not dragging, no drag index. |
| `Canvas.AppendedPointIsHit` | src/core/canvasController.js:55-60 | After a miss, the appended point is what a hit test at the same position finds. |
| `UIControl.FirstNearFrom` | CGQ2/js/UIController.js:31-38 | The result is the smallest index from `from` on at distance strictly below 10. It is `None` exactly when no such index exists. |
| `UIControl.AppState.constructor` | CGQ2/js/main.js:9-15 | The state holds the given control points. |
| `UIControl.UIController.constructor` | CGQ2/js/UIController.js:4-14 | Nothing dragged, nothing hovered. |
| `UIControl.UIController.HandleMouseDown` | CGQ2/js/UIController.js:25-43 | Near a point: that first near point is dragged, the points are unchanged, and no callback fires. Elsewhere: `(x, y)` is appended and `onPointsChanged` fires. |
| `UIControl.UIController.HandleMouseMove` | CGQ2/js/UIController.js:46-72 | While dragging: the dragged entry becomes `(x, y)`, other entries are kept, and `onPointsChanged` fires. Otherwise: the hovered point becomes the first near point or `None`, and `onHoverChanged` fires exactly when that changed it. |
| `UIControl.UIController.HandleMouseUp` | CGQ2/js/UIController.js:75-77 | Nothing dragged; the hovered point is kept. |
| `UIControl.AppendedPointIsNear` | CGQ2/js/UIController.js:40-42 | After a press that found no point, a press at the same position picks up the appended point. |
| `UIControl.DraggedPointStaysNear` | CGQ2/js/UIController.js:51-54 | After a drag step, a point at or before the dragged index is near the cursor. |

## Left out

- Drawing, the render loops, the Three.js renderer and the mesh of the surface of revolution are not modelled. `RevolutionSurface.js` is not part of this model.
- `getMousePos` depends on the layout of the page. The handlers take the position in canvas coordinates instead.
- The floating-point sampling loops `for (t = 0; t <= 1 + 1e-8; t += step)` are not modelled. Curves are evaluated per `t`.
- The application wiring, tabs, sliders, the point table and the JSON export are left out, since they are DOM glue. So are the two chase games, the spiral and the Python training scripts, which are unrelated to the curves.
- IEEE rounding, `NaN` and infinities are not modelled: every number is an exact real. `Math.sqrt(d²) < 10` is modelled as `d² < 100`, which is the same comparison over the reals.
- RationalBezier.DeCasteljau: requires a non-zero surviving weight. The source divides by it unguarded and returns `NaN` or infinite coordinates when it is 0. `PositiveWeightsSurvive` shows that positive weights and `t` in `[0, 1]` avoid this.
- CurveGenerator.DeCasteljau: requires at least one point. On an empty list the source recurses without end.
- CurveGenerator.GenerateBezier: requires `subdivisions >= 1`. With 0 the source divides 0 by 0.
- CurveGenerator.GenerateBSpline: requires `subdivisions >= 1`, for the same reason.
- The default arguments of `generateBezier` (`subdivisions = 50`) and `generateBSpline` (`degree = 3`, `subdivisions = 50`) are not modelled: the methods take every argument explicitly, as every call in `CGQ2/js/main.js` passes them.
- JavaScript arrays and point objects are shared by reference. Because of this, `pts.push` in `mouseDown` changes the active list before `setActivePoints` runs, and `mouseMove` writes into the point object itself. The model uses values and states the resulting lists. Aliasing between the two lists, such as the same point object held by both, is not modelled.
- Canvas.CanvasController.MouseMove: a drag index past the end of the active list makes the source throw a `TypeError` before anything is written. The model changes nothing in that case and does not model the exception.
- UIControl.UIController.HandleMouseMove: requires that the dragged index names a control point. An index equal to the length would make the source append `{x, y}`, and an index past the end would make JavaScript grow a sparse array; both cases, at or past the end, are excluded, since a sequence cannot represent a sparse array and the handlers never reach either. The handlers themselves never break this invariant (`Valid`); only code outside them could, by replacing `controlPoints` during a drag.
- `Spline.DeBoor` returns the span it used as a ghost value, so that its result can be stated in terms of that span.
- Some loops that the source nests inside one function are separate methods here, called where the source runs the loop: the `j` loop of `generateBSpline` (`SampleBSpline`), the seed loop, the pass loop and one pass of `deBoor` (`SeedBuffer`, `ReduceInPlace`, `BlendPassInPlace`), and one pass of the rational `deCasteljau` (`PassInPlace`).

## Findings

| source | as written | input that shows it | evidently intended | confidence | as-written member | corrected member |
|---|---|---|---|---|---|---|
| CGQ2/js/CurveGenerator.js:47-49 | The degree-0 basis tests the half-open span `knots[i] <= t < knots[i+1]`, and the last sample is taken at `t = tMax`, the largest knot (lines 88-91). No span contains `tMax`, so every basis value is 0 there, and the last curve point is `(0, 0)` instead of the last control point. | Any control points and degree with `subdivisions >= 1`, e.g. points `(150,50), (200,100), (150,200), (100,250)`, degree 3: the last sample is `(0, 0)` instead of `(100, 250)`. | The curve ends at the last control point: the last non-empty span is closed at `tMax`. | high (not executed) | `CurveGenerator.LastSampleIsOrigin` | `CurveGenerator.ClosedEndsAtLastPoint` |
