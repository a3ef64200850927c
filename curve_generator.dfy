/** The second curve generator (CGQ2/js/CurveGenerator.js): an unweighted,
    recursive de Casteljau with a uniform sampler, and a B-spline sampler that
    weights every control point by the recursive Cox–de Boor basis over an
    integer knot vector. */
module CurveGenerator {
  import opened Geometry

  // ---------------------------------------------------------------------------
  // Bézier curves
  // ---------------------------------------------------------------------------

  /** One de Casteljau step: the blends of consecutive points, one fewer point. */
  function Step(points: seq<Point>, t: real): (next: seq<Point>)
    requires |points| >= 1
    ensures |next| == |points| - 1
  {
    seq(|points| - 1, i requires 0 <= i < |points| - 1 => Lerp(points[i], points[i + 1], t))
  }

  /** Entry `i` of a step blends points `i` and `i + 1`. */
  lemma StepPointwise(points: seq<Point>, t: real)
    requires |points| >= 1
    ensures forall i :: 0 <= i < |points| - 1 ==> Step(points, t)[i] == Lerp(points[i], points[i + 1], t)
  {
  }

  /** The Bézier point at `t`: step until one point is left. */
  function BezierPoint(points: seq<Point>, t: real): Point
    requires |points| >= 1
    decreases |points|
  {
    if |points| == 1 then points[0] else BezierPoint(Step(points, t), t)
  }

  /** `deCasteljau(points, t)`: builds the next level with a loop and recurses on it.
      The source recurses forever on an empty list, so the model requires a point. */
  method DeCasteljau(points: seq<Point>, t: real) returns (p: Point)
    requires |points| >= 1
    ensures p == BezierPoint(points, t)
    decreases |points|
  {
    if |points| == 1 {
      return points[0];
    }
    var newPoints: seq<Point> := [];
    var i := 0;
    while i < |points| - 1
      invariant 0 <= i <= |points| - 1
      invariant newPoints == Step(points, t)[..i]
    {
      newPoints := newPoints + [Lerp(points[i], points[i + 1], t)];
      i := i + 1;
    }
    assert newPoints == Step(points, t);
    p := DeCasteljau(newPoints, t);
  }

  /** At `t = 0` the curve starts at the first control point. */
  lemma {:induction false} BezierStartsAtFirst(points: seq<Point>)
    requires |points| >= 1
    ensures BezierPoint(points, 0.0) == points[0]
    decreases |points|
  {
    if |points| > 1 {
      var next := Step(points, 0.0);
      assert next[0] == points[0];
      BezierStartsAtFirst(next);
    }
  }

  /** At `t = 1` the curve ends at the last control point. */
  lemma {:induction false} BezierEndsAtLast(points: seq<Point>)
    requires |points| >= 1
    ensures BezierPoint(points, 1.0) == points[|points| - 1]
    decreases |points|
  {
    if |points| > 1 {
      var next := Step(points, 1.0);
      assert next[|next| - 1] == points[|points| - 1];
      BezierEndsAtLast(next);
    }
  }

  /** The level-`r` points: `r` steps applied to `points`. */
  function Level(points: seq<Point>, t: real, r: nat): (level: seq<Point>)
    requires r < |points|
    ensures |level| == |points| - r
  {
    if r == 0 then points else Step(Level(points, t, r - 1), t)
  }

  /** The level-`r + 1` points are the level-`r` points of one step. */
  lemma {:induction false} LevelShift(points: seq<Point>, t: real, r: nat)
    requires r + 1 < |points|
    ensures Level(points, t, r + 1) == Level(Step(points, t), t, r)
  {
    if r > 0 {
      LevelShift(points, t, r - 1);
    }
  }

  /** The recursion of `deCasteljau` yields the single level-`(n - 1)` point. */
  lemma {:induction false} BezierPointIsLastLevel(points: seq<Point>, t: real)
    requires |points| >= 1
    ensures BezierPoint(points, t) == Level(points, t, |points| - 1)[0]
    decreases |points|
  {
    if |points| > 1 {
      LevelShift(points, t, |points| - 2);
      BezierPointIsLastLevel(Step(points, t), t);
    }
  }

  /** `generateBezier`: `subdivisions + 1` samples at `t = i / subdivisions`,
      the first and last being the end control points. */
  method GenerateBezier(controlPoints: seq<Point>, subdivisions: nat) returns (curve: seq<Point>)
    requires |controlPoints| >= 1 && subdivisions >= 1
    ensures |curve| == subdivisions + 1
    ensures forall i :: 0 <= i < |curve| ==>
              curve[i] == BezierPoint(controlPoints, i as real / subdivisions as real)
    ensures curve[0] == controlPoints[0]
    ensures curve[subdivisions] == controlPoints[|controlPoints| - 1]
  {
    curve := [];
    var i := 0;
    while i <= subdivisions
      invariant 0 <= i <= subdivisions + 1
      invariant |curve| == i
      invariant forall j :: 0 <= j < i ==>
                  curve[j] == BezierPoint(controlPoints, j as real / subdivisions as real)
    {
      var t := i as real / subdivisions as real;
      var p := DeCasteljau(controlPoints, t);
      curve := curve + [p];
      i := i + 1;
    }
    BezierStartsAtFirst(controlPoints);
    BezierEndsAtLast(controlPoints);
    assert subdivisions as real / subdivisions as real == 1.0;
  }

  // ---------------------------------------------------------------------------
  // B-spline curves
  // ---------------------------------------------------------------------------

  /** A Cox–de Boor term `(num / denom)·b`, dropped (0) when `denom` is 0. */
  function Guarded(num: real, denom: real, b: real): real
  {
    if denom != 0.0 then (num / denom) * b else 0.0
  }

  /** `bSplineBasis(i, k, t, knots)`: the Cox–de Boor recursion. Degree 0 is the
      indicator of the half-open span `[knots[i], knots[i+1])`; a term whose knot
      difference is 0 is dropped. */
  function Basis(i: nat, k: nat, t: real, knots: seq<real>): (b: real)
    requires i + k + 1 < |knots|
    ensures k == 0 ==> (b == 1.0 <==> knots[i] <= t < knots[i + 1]) && (b == 0.0 || b == 1.0)
    decreases k
  {
    if k == 0 then
      (if knots[i] <= t && t < knots[i + 1] then 1.0 else 0.0)
    else
      var denomLeft := knots[i + k] - knots[i];
      var denomRight := knots[i + k + 1] - knots[i + 1];
      Guarded(t - knots[i], denomLeft, Basis(i, k - 1, t, knots))
      + Guarded(knots[i + k + 1] - t, denomRight, Basis(i + 1, k - 1, t, knots))
  }

  /** A basis function vanishes at `t` when no degree-0 span under it contains `t`. */
  lemma {:induction false} BasisZeroWithoutActiveSpan(i: nat, k: nat, t: real, knots: seq<real>)
    requires i + k + 1 < |knots|
    requires forall j :: i <= j <= i + k ==> !(knots[j] <= t < knots[j + 1])
    ensures Basis(i, k, t, knots) == 0.0
    decreases k
  {
    if k > 0 {
      BasisZeroWithoutActiveSpan(i, k - 1, t, knots);
      BasisZeroWithoutActiveSpan(i + 1, k - 1, t, knots);
    }
  }

  /** Local support: over a non-decreasing knot vector the basis function is 0
      outside `[knots[i], knots[i+k+1])`. */
  lemma BasisLocalSupport(i: nat, k: nat, t: real, knots: seq<real>)
    requires i + k + 1 < |knots| && NonDecreasing(knots)
    requires t < knots[i] || knots[i + k + 1] <= t
    ensures Basis(i, k, t, knots) == 0.0
  {
    forall j | i <= j <= i + k
      ensures !(knots[j] <= t < knots[j + 1])
    {
      assert knots[i] <= knots[j] && knots[j + 1] <= knots[i + k + 1];
    }
    BasisZeroWithoutActiveSpan(i, k, t, knots);
  }

  /** Over a non-decreasing knot vector no basis value is negative. */
  lemma {:induction false} BasisNonNegative(i: nat, k: nat, t: real, knots: seq<real>)
    requires i + k + 1 < |knots| && NonDecreasing(knots)
    ensures Basis(i, k, t, knots) >= 0.0
    decreases k
  {
    if k > 0 {
      var bl := Basis(i, k - 1, t, knots);
      var br := Basis(i + 1, k - 1, t, knots);
      BasisNonNegative(i, k - 1, t, knots);
      BasisNonNegative(i + 1, k - 1, t, knots);
      assert knots[i] <= knots[i + k] && knots[i + 1] <= knots[i + k + 1];
      if t < knots[i] || knots[i + k] <= t {
        BasisLocalSupport(i, k - 1, t, knots);
      }
      if t < knots[i + 1] || knots[i + k + 1] <= t {
        BasisLocalSupport(i + 1, k - 1, t, knots);
      }
      GuardedTermNonNegative(t - knots[i], knots[i + k] - knots[i], bl);
      GuardedTermNonNegative(knots[i + k + 1] - t, knots[i + k + 1] - knots[i + 1], br);
    }
  }

  /** A guarded Cox–de Boor term `(num / denom)·b`, dropped when `denom` is 0,
      is not negative when the numerator is not negative wherever `b` is not 0. */
  lemma GuardedTermNonNegative(num: real, denom: real, b: real)
    requires denom >= 0.0 && b >= 0.0 && (b != 0.0 ==> num >= 0.0)
    ensures Guarded(num, denom, b) >= 0.0
  {
    if denom != 0.0 && b != 0.0 {
      assert num / denom >= 0.0;
    }
  }

  /** The zero-denominator guard drops only terms that are 0 anyway: over a
      non-decreasing knot vector a zero-length support carries a zero basis. */
  lemma ZeroDenominatorHarmless(i: nat, k: nat, t: real, knots: seq<real>)
    requires k >= 1 && i + k + 1 < |knots| && NonDecreasing(knots)
    ensures knots[i + k] == knots[i] ==> Basis(i, k - 1, t, knots) == 0.0
    ensures knots[i + k + 1] == knots[i + 1] ==> Basis(i + 1, k - 1, t, knots) == 0.0
  {
    if knots[i + k] == knots[i] {
      BasisLocalSupport(i, k - 1, t, knots);
    }
    if knots[i + k + 1] == knots[i + 1] {
      BasisLocalSupport(i + 1, k - 1, t, knots);
    }
  }

  /** Entry `i` of the integer knot vector of `generateBSpline` for `count`
      control points and degree `k` (`m = count + k`): `0` up to index `k`, then
      `m - 2k` from index `m - k`, otherwise `i - k`. */
  function IntegerKnot(count: nat, k: nat, i: int): real
  {
    var m := count + k;
    if i <= k then 0.0 else if i >= m - k then (m - 2 * k) as real else (i - k) as real
  }

  /** The whole integer knot vector, `m + 1 = count + k + 1` entries. */
  function IntegerKnots(count: nat, k: nat): (knots: seq<real>)
    ensures |knots| == count + k + 1
  {
    seq(count + k + 1, i => IntegerKnot(count, k, i))
  }

  /** `tMax = knots[m - k]`, the end of the sampled parameter range. */
  function TMax(count: nat, k: nat): real
  {
    IntegerKnot(count, k, count)
  }

  /** `max(lo, min(v, hi))` for `lo <= hi`. */
  function Clamp(v: int, lo: int, hi: int): int
    requires lo <= hi
  {
    if v < lo then lo else if v > hi then hi else v
  }

  /** With at least `k` control points the integer knot vector is the clamped
      ramp `clamp(i - k, 0, count - k)`: `k + 1` zeros, steps of 1, and
      `k + 1` copies of `tMax = count - k` at the end. */
  lemma IntegerKnotsClampedRamp(count: nat, k: nat)
    requires count >= k
    ensures TMax(count, k) == (count - k) as real
    ensures forall i :: 0 <= i < count + k + 1 ==>
              IntegerKnots(count, k)[i] == Clamp(i - k, 0, count - k) as real
  {
  }

  /** The integer knot vector is non-decreasing exactly when there are no
      control points or at least `k` of them. */
  lemma IntegerKnotsNonDecreasingIff(count: nat, k: nat)
    ensures NonDecreasing(IntegerKnots(count, k)) <==> (count == 0 || count >= k)
  {
    var knots := IntegerKnots(count, k);
    if count == 0 {
      assert forall i :: 0 <= i < |knots| ==> knots[i] == 0.0;
    } else if count >= k {
      IntegerKnotsClampedRamp(count, k);
    } else {
      assert knots[0] == 0.0;
      assert knots[count + k] == (count - k) as real < 0.0;
    }
  }

  /** Every integer knot is at most `tMax`, whatever the point count. */
  lemma KnotsBoundedByTMax(count: nat, k: nat)
    ensures forall i :: 0 <= i < count + k + 1 ==> IntegerKnots(count, k)[i] <= TMax(count, k)
  {
    if count >= k {
      IntegerKnotsClampedRamp(count, k);
    }
  }

  /** `Σ_{j < n} controlPoints[j]·weights[j]`, accumulated from `j = 0` up. */
  function WeightedSum(controlPoints: seq<Point>, weights: seq<real>, n: nat): Point
    requires n <= |controlPoints| && n <= |weights|
  {
    if n == 0 then Point(0.0, 0.0)
    else
      var acc := WeightedSum(controlPoints, weights, n - 1);
      Point(acc.x + controlPoints[n - 1].x * weights[n - 1], acc.y + controlPoints[n - 1].y * weights[n - 1])
  }

  /** Adding term `n` to the sum of the first `n` terms gives the sum of the
      first `n + 1`. */
  lemma WeightedSumStep(controlPoints: seq<Point>, weights: seq<real>, n: nat, x: real, y: real, w: real)
    requires n < |controlPoints| && n < |weights|
    requires Point(x, y) == WeightedSum(controlPoints, weights, n) && w == weights[n]
    ensures Point(x + controlPoints[n].x * w, y + controlPoints[n].y * w) == WeightedSum(controlPoints, weights, n + 1)
  {
  }

  /** The basis values `N(j, k, t)` for `j < count`: the as-written basis or,
      when `closed`, the basis whose last non-empty span is closed at its
      right end. */
  function BasisValues(count: nat, k: nat, knots: seq<real>, t: real, closed: bool): (bs: seq<real>)
    requires count + k < |knots|
    ensures |bs| == count
  {
    seq(count, j requires 0 <= j < count => if closed then ClosedBasis(j, k, t, knots) else Basis(j, k, t, knots))
  }

  /** The curve point at `t` over the first `n` control points. */
  function Blend(controlPoints: seq<Point>, k: nat, knots: seq<real>, t: real, n: nat, closed: bool): Point
    requires n <= |controlPoints| && |controlPoints| + k < |knots|
  {
    WeightedSum(controlPoints, BasisValues(|controlPoints|, k, knots, t, closed), n)
  }

  /** The parameter of sample `i` of `subdivisions`: `(i / subdivisions)·tMax`. */
  function SampleParameter(i: nat, subdivisions: nat, tMax: real): real
    requires subdivisions >= 1
  {
    (i as real / subdivisions as real) * tMax
  }

  /** The last sample is taken at `tMax` itself. */
  lemma LastSampleParameter(subdivisions: nat, tMax: real)
    requires subdivisions >= 1
    ensures SampleParameter(subdivisions, subdivisions, tMax) == tMax
  {
    assert subdivisions as real / subdivisions as real == 1.0;
  }

  /** At `tMax` every as-written basis value is 0: no half-open degree-0 span
      contains the largest knot. So the last B-spline sample is the origin. */
  lemma {:induction false} LastSampleIsOrigin(controlPoints: seq<Point>, k: nat, n: nat)
    requires n <= |controlPoints|
    ensures Blend(controlPoints, k, IntegerKnots(|controlPoints|, k), TMax(|controlPoints|, k), n, false) == Point(0.0, 0.0)
  {
    if n > 0 {
      var count := |controlPoints|;
      var knots := IntegerKnots(count, k);
      var tMax := TMax(count, k);
      KnotsBoundedByTMax(count, k);
      forall j | n - 1 <= j <= n - 1 + k
        ensures !(knots[j] <= tMax < knots[j + 1])
      {
        assert knots[j + 1] <= tMax;
      }
      BasisZeroWithoutActiveSpan(n - 1, k, tMax, knots);
      LastSampleIsOrigin(controlPoints, k, n - 1);
    }
  }

  /** One sample of `generateBSpline`: `x` and `y` accumulated over all control
      points, each weighted by its basis value at `t`. */
  method SampleBSpline(controlPoints: seq<Point>, k: nat, knots: seq<real>, t: real) returns (p: Point)
    requires |controlPoints| + k < |knots|
    ensures p == Blend(controlPoints, k, knots, t, |controlPoints|, false)
  {
    ghost var bs := BasisValues(|controlPoints|, k, knots, t, false);
    var n := |controlPoints| - 1;
    var x, y := 0.0, 0.0;
    var j := 0;
    while j <= n
      invariant 0 <= j <= n + 1
      invariant Point(x, y) == WeightedSum(controlPoints, bs, j)
    {
      var basis := Basis(j, k, t, knots);
      WeightedSumStep(controlPoints, bs, j, x, y, basis);
      x := x + controlPoints[j].x * basis;
      y := y + controlPoints[j].y * basis;
      j := j + 1;
    }
    p := Point(x, y);
  }

  /** `generateBSpline`: builds the integer knot vector, then takes
      `subdivisions + 1` samples at `(i / subdivisions)·tMax`, each the
      basis-weighted sum of all control points. The last sample is the origin. */
  method GenerateBSpline(controlPoints: seq<Point>, degree: nat, subdivisions: nat) returns (curve: seq<Point>)
    requires subdivisions >= 1
    ensures |curve| == subdivisions + 1
    ensures forall i :: 0 <= i < |curve| ==>
              curve[i] == Blend(controlPoints, degree, IntegerKnots(|controlPoints|, degree),
                                SampleParameter(i, subdivisions, TMax(|controlPoints|, degree)),
                                |controlPoints|, false)
    ensures curve[subdivisions] == Point(0.0, 0.0)
  {
    var n := |controlPoints| - 1;
    var k := degree;
    var m := n + k + 1;
    ghost var spec := IntegerKnots(|controlPoints|, k);

    var knots: seq<real> := [];
    var i := 0;
    while i <= m
      invariant 0 <= i <= m + 1
      invariant knots == spec[..i]
    {
      if i <= k {
        knots := knots + [0.0];
      } else if i >= m - k {
        knots := knots + [(m - 2 * k) as real];
      } else {
        knots := knots + [(i - k) as real];
      }
      i := i + 1;
    }
    assert knots == spec;

    curve := [];
    var tMax := knots[m - k];
    i := 0;
    while i <= subdivisions
      invariant 0 <= i <= subdivisions + 1
      invariant |curve| == i
      invariant forall s :: 0 <= s < i ==>
                  curve[s] == Blend(controlPoints, k, knots, SampleParameter(s, subdivisions, tMax), |controlPoints|, false)
    {
      var t := (i as real / subdivisions as real) * tMax;
      assert t == SampleParameter(i, subdivisions, tMax);
      var p := SampleBSpline(controlPoints, k, knots, t);
      ghost var before := curve;
      curve := curve + [p];
      assert forall s :: 0 <= s < i ==> curve[s] == before[s];
      i := i + 1;
    }
    assert tMax == TMax(|controlPoints|, k);
    LastSampleParameter(subdivisions, tMax);
    LastSampleIsOrigin(controlPoints, k, |controlPoints|);
  }

  // ---------------------------------------------------------------------------
  // The sampler with the last span closed
  // ---------------------------------------------------------------------------

  /** The Cox–de Boor basis with the degree-0 indicator also true at the right
      end of the last non-empty span when that end is the largest knot, so that
      the sample at `tMax` is the curve's end point. */
  function ClosedBasis(i: nat, k: nat, t: real, knots: seq<real>): (b: real)
    requires i + k + 1 < |knots|
    ensures k == 0 && knots[i] < knots[i + 1] && t == knots[i + 1] && t == knots[|knots| - 1] ==> b == 1.0
    ensures k == 0 ==> Basis(i, k, t, knots) <= b && (b == 0.0 || b == 1.0)
    decreases k
  {
    if k == 0 then
      (if (knots[i] <= t && t < knots[i + 1])
          || (knots[i] < knots[i + 1] && t == knots[i + 1] && t == knots[|knots| - 1])
       then 1.0 else 0.0)
    else
      var denomLeft := knots[i + k] - knots[i];
      var denomRight := knots[i + k + 1] - knots[i + 1];
      Guarded(t - knots[i], denomLeft, ClosedBasis(i, k - 1, t, knots))
      + Guarded(knots[i + k + 1] - t, denomRight, ClosedBasis(i + 1, k - 1, t, knots))
  }

  /** Below the largest knot the closed basis is the as-written basis. */
  lemma {:induction false} ClosedBasisAgreesBelowEnd(i: nat, k: nat, t: real, knots: seq<real>)
    requires i + k + 1 < |knots| && t != knots[|knots| - 1]
    ensures ClosedBasis(i, k, t, knots) == Basis(i, k, t, knots)
    decreases k
  {
    if k > 0 {
      ClosedBasisAgreesBelowEnd(i, k - 1, t, knots);
      ClosedBasisAgreesBelowEnd(i + 1, k - 1, t, knots);
    }
  }

  /** The end of a knot vector as the integer knots of `count` points have it:
      the knots before index `count` are at most `tMax - 1`, the rest, at least one, are `tMax`. */
  predicate EndShape(knots: seq<real>, count: nat, tMax: real)
  {
    count < |knots|
    && (forall q :: 0 <= q < count ==> knots[q] <= tMax - 1.0)
    && (forall q :: count <= q < |knots| ==> knots[q] == tMax)
  }

  /** With more control points than the degree the integer knots end that way. */
  lemma IntegerKnotsEndShape(count: nat, k: nat)
    requires count >= k + 1
    ensures EndShape(IntegerKnots(count, k), count, TMax(count, k))
  {
    IntegerKnotsClampedRamp(count, k);
  }

  /** At `tMax`, the closed basis of the last control point `count - 1` is 1
      at every degree `d` the knot vector allows. */
  lemma {:induction false} ClosedBasisLastIsOne(knots: seq<real>, count: nat, tMax: real, d: nat)
    requires count >= 1 && count + d < |knots| && EndShape(knots, count, tMax)
    ensures ClosedBasis(count - 1, d, tMax, knots) == 1.0
    decreases d
  {
    assert knots[count - 1] <= tMax - 1.0 && knots[count] == tMax && knots[|knots| - 1] == tMax;
    if d > 0 {
      ClosedBasisLastIsOne(knots, count, tMax, d - 1);
      var denomLeft := knots[count - 1 + d] - knots[count - 1];
      assert knots[count - 1 + d] == tMax && knots[count + d] == tMax;
      assert denomLeft > 0.0 && tMax - knots[count - 1] == denomLeft;
      assert (tMax - knots[count - 1]) / denomLeft == 1.0;
      GuardedZero(knots[count + d] - tMax, knots[count + d] - knots[count], ClosedBasis(count, d - 1, tMax, knots));
    }
  }

  /** A guarded term with a zero numerator or a zero basis factor is 0. */
  lemma GuardedZero(num: real, denom: real, b: real)
    requires num == 0.0 || b == 0.0
    ensures Guarded(num, denom, b) == 0.0
  {
  }

  /** At `tMax`, the closed basis of every earlier control point is 0. */
  lemma {:induction false} ClosedBasisEarlierIsZero(knots: seq<real>, count: nat, tMax: real, j: nat, d: nat)
    requires j + 1 < count && j + d + 1 < |knots| && EndShape(knots, count, tMax)
    ensures ClosedBasis(j, d, tMax, knots) == 0.0
    decreases d
  {
    if d == 0 {
      assert knots[j + 1] <= tMax - 1.0;
    } else {
      ClosedBasisEarlierIsZero(knots, count, tMax, j, d - 1);
      GuardedZero(tMax - knots[j], knots[j + d] - knots[j], ClosedBasis(j, d - 1, tMax, knots));
      if j + 2 < count {
        ClosedBasisEarlierIsZero(knots, count, tMax, j + 1, d - 1);
      } else {
        assert knots[j + d + 1] == tMax;
      }
      GuardedZero(knots[j + d + 1] - tMax, knots[j + d + 1] - knots[j + 1], ClosedBasis(j + 1, d - 1, tMax, knots));
    }
  }

  /** With the closed basis, over a knot vector that ends as the integer knots
      do, the sum over the first `n < count` control points is the origin at
      `tMax`, and over all of them it is the last control point. */
  lemma {:induction false} ClosedBlendAtEnd(controlPoints: seq<Point>, k: nat, knots: seq<real>, tMax: real, n: nat)
    requires |controlPoints| >= 1 && |knots| == |controlPoints| + k + 1
    requires EndShape(knots, |controlPoints|, tMax) && n <= |controlPoints|
    ensures Blend(controlPoints, k, knots, tMax, n, true)
            == if n == |controlPoints| then controlPoints[n - 1] else Point(0.0, 0.0)
  {
    var count := |controlPoints|;
    if n > 0 {
      ClosedBlendAtEnd(controlPoints, k, knots, tMax, n - 1);
      if n < count {
        ClosedBasisEarlierIsZero(knots, count, tMax, n - 1, k);
      } else {
        ClosedBasisLastIsOne(knots, count, tMax, k);
      }
    }
  }

  /** With the closed basis and more control points than the degree, the
      curve at `tMax` is the last control point. */
  lemma ClosedEndsAtLastPoint(controlPoints: seq<Point>, k: nat)
    requires |controlPoints| >= k + 1
    ensures Blend(controlPoints, k, IntegerKnots(|controlPoints|, k), TMax(|controlPoints|, k), |controlPoints|, true)
            == controlPoints[|controlPoints| - 1]
  {
    IntegerKnotsEndShape(|controlPoints|, k);
    ClosedBlendAtEnd(controlPoints, k, IntegerKnots(|controlPoints|, k), TMax(|controlPoints|, k), |controlPoints|);
  }
}
