/** The rational Bézier evaluator (CGQ1/src/core/bezier.js): weighted control
    points are lifted to homogeneous coordinates, reduced in place by de
    Casteljau passes, and the survivor is projected by its weight. */
module RationalBezier {
  import opened Geometry
  import CurveGenerator

  /** A homogeneous point `(x·w, y·w, w)`. */
  datatype Homogeneous = Homogeneous(x: real, y: real, w: real)

  /** The lifting `{x: p.x·p.w, y: p.y·p.w, w: p.w}` of the source's `map`. */
  function Lift(p: WeightedPoint): Homogeneous
  {
    Homogeneous(p.x * p.w, p.y * p.w, p.w)
  }

  function LiftAll(points: seq<WeightedPoint>): (hs: seq<Homogeneous>)
    ensures |hs| == |points|
  {
    seq(|points|, i requires 0 <= i < |points| => Lift(points[i]))
  }

  /** The blend of two homogeneous points, all three coordinates alike. */
  function HMix(a: Homogeneous, b: Homogeneous, t: real): Homogeneous
  {
    Homogeneous(Mix(a.x, b.x, t), Mix(a.y, b.y, t), Mix(a.w, b.w, t))
  }

  /** One pass: the blends of consecutive homogeneous points. */
  function Pass(hs: seq<Homogeneous>, t: real): (next: seq<Homogeneous>)
    requires |hs| >= 1
    ensures |next| == |hs| - 1
  {
    seq(|hs| - 1, i requires 0 <= i < |hs| - 1 => HMix(hs[i], hs[i + 1], t))
  }

  /** The level-`r` points: `r` passes applied to `hs`. */
  function Level(hs: seq<Homogeneous>, t: real, r: nat): (level: seq<Homogeneous>)
    requires r < |hs|
    ensures |level| == |hs| - r
  {
    if r == 0 then hs else Pass(Level(hs, t, r - 1), t)
  }

  /** The one point left after `|hs| - 1` passes. */
  function Survivor(hs: seq<Homogeneous>, t: real): Homogeneous
    requires |hs| >= 1
  {
    Level(hs, t, |hs| - 1)[0]
  }

  /** Division of `x` and `y` by the weight. */
  function Project(h: Homogeneous): Point
    requires h.w != 0.0
  {
    Point(h.x / h.w, h.y / h.w)
  }

  /** The weight left after reduction, on which the final division depends. */
  function SurvivingWeight(points: seq<WeightedPoint>, t: real): real
    requires |points| >= 1
  {
    Survivor(LiftAll(points), t).w
  }

  /** The rational Bézier point at `t`. */
  function RationalPoint(points: seq<WeightedPoint>, t: real): Point
    requires |points| >= 1 && SurvivingWeight(points, t) != 0.0
  {
    Project(Survivor(LiftAll(points), t))
  }

  /** Pass `r` of `deCasteljau` on the first `len` entries of `temp`: for
      `i = 0 .. len-2`, `temp[i]` becomes the blend of `temp[i]` and
      `temp[i + 1]`, the latter still unchanged when read. */
  method PassInPlace(temp: array<Homogeneous>, len: nat, t: real)
    requires 1 <= len <= temp.Length
    modifies temp
    ensures temp[..len - 1] == Pass(old(temp[..len]), t)
    ensures temp[len - 1..] == old(temp[len - 1..])
  {
    ghost var prev := temp[..len];
    var i := 0;
    while i < len - 1
      invariant 0 <= i <= len - 1
      invariant forall j :: 0 <= j < i ==> temp[j] == HMix(prev[j], prev[j + 1], t)
      invariant forall j :: i <= j < temp.Length ==> temp[j] == old(temp[j])
    {
      temp[i] := HMix(temp[i], temp[i + 1], t);
      i := i + 1;
    }
  }

  /** `deCasteljau(points, t)`: `None` for no points; otherwise the lifted copy
      `temp` is reduced in place, pass `r` rewriting `temp[0 .. n-r-1]`, and
      `temp[0]` is projected. The final division is unguarded in the source,
      so the model asks for a non-zero surviving weight (which positive weights
      and `t` in `[0, 1]` guarantee, see `PositiveWeightsSurvive`). The input
      sequence is a value: the reduction only ever touches the fresh `temp`. */
  method DeCasteljau(points: seq<WeightedPoint>, t: real) returns (r: Option<Point>)
    requires points != [] ==> SurvivingWeight(points, t) != 0.0
    ensures r == None <==> points == []
    ensures points != [] ==> r == Some(RationalPoint(points, t))
  {
    if |points| == 0 {
      return None;
    }
    ghost var lifted := LiftAll(points);
    var temp := new Homogeneous[|points|](i requires 0 <= i < |points| => Lift(points[i]));
    assert temp[..] == lifted;

    var n := temp.Length;
    var pass := 1;
    while pass < n
      invariant 1 <= pass <= n
      invariant temp[..n - pass + 1] == Level(lifted, t, pass - 1)
    {
      ghost var before := Level(lifted, t, pass - 1);
      PassInPlace(temp, n - pass + 1, t);
      assert temp[..n - pass] == Pass(before, t);
      pass := pass + 1;
    }
    var P := temp[0];
    assert P == Survivor(lifted, t);
    r := Some(Project(P));
  }

  // ---------------------------------------------------------------------------
  // The weights alone
  // ---------------------------------------------------------------------------

  function Weights(hs: seq<Homogeneous>): (ws: seq<real>)
    ensures |ws| == |hs|
  {
    seq(|hs|, i requires 0 <= i < |hs| => hs[i].w)
  }

  /** One de Casteljau pass over scalars. */
  function WeightPass(ws: seq<real>, t: real): (next: seq<real>)
    requires |ws| >= 1
    ensures |next| == |ws| - 1
  {
    seq(|ws| - 1, i requires 0 <= i < |ws| - 1 => Mix(ws[i], ws[i + 1], t))
  }

  function WeightLevel(ws: seq<real>, t: real, r: nat): (level: seq<real>)
    requires r < |ws|
    ensures |level| == |ws| - r
  {
    if r == 0 then ws else WeightPass(WeightLevel(ws, t, r - 1), t)
  }

  /** The weights of the level-`r` points are the level-`r` de Casteljau
      reduction of the weights alone: `x` and `y` never feed into `w`. */
  lemma {:induction false} LevelWeights(hs: seq<Homogeneous>, t: real, r: nat)
    requires r < |hs|
    ensures Weights(Level(hs, t, r)) == WeightLevel(Weights(hs), t, r)
  {
    if r > 0 {
      LevelWeights(hs, t, r - 1);
    }
  }

  /** The surviving weight is the de Casteljau reduction of the weights. */
  lemma SurvivingWeightOfWeights(points: seq<WeightedPoint>, t: real)
    requires |points| >= 1
    ensures SurvivingWeight(points, t)
            == WeightLevel(Weights(LiftAll(points)), t, |points| - 1)[0]
  {
    LevelWeights(LiftAll(points), t, |points| - 1);
  }

  /** Two lists with the same weights have the same surviving weight. */
  lemma SurvivingWeightIgnoresPositions(a: seq<WeightedPoint>, b: seq<WeightedPoint>, t: real)
    requires |a| == |b| >= 1
    requires forall i :: 0 <= i < |a| ==> a[i].w == b[i].w
    ensures SurvivingWeight(a, t) == SurvivingWeight(b, t)
  {
    SurvivingWeightOfWeights(a, t);
    SurvivingWeightOfWeights(b, t);
    assert Weights(LiftAll(a)) == Weights(LiftAll(b));
  }

  /** `(1 - t)·a + t·b > 0` for positive `a`, `b` and `t` in `[0, 1]`. */
  lemma MixPositive(a: real, b: real, t: real)
    requires a > 0.0 && b > 0.0 && 0.0 <= t <= 1.0
    ensures Mix(a, b, t) > 0.0
  {
    if t < 1.0 {
      assert (1.0 - t) * a > 0.0;
      assert t * b >= 0.0;
    } else {
      assert t * b > 0.0;
    }
  }

  /** Every level of positive weights stays positive for `t` in `[0, 1]`. */
  lemma {:induction false} WeightLevelPositive(ws: seq<real>, t: real, r: nat)
    requires r < |ws| && 0.0 <= t <= 1.0
    requires forall i :: 0 <= i < |ws| ==> ws[i] > 0.0
    ensures forall i :: 0 <= i < |ws| - r ==> WeightLevel(ws, t, r)[i] > 0.0
  {
    if r > 0 {
      WeightLevelPositive(ws, t, r - 1);
      var prev := WeightLevel(ws, t, r - 1);
      forall i | 0 <= i < |ws| - r
        ensures WeightLevel(ws, t, r)[i] > 0.0
      {
        MixPositive(prev[i], prev[i + 1], t);
      }
    }
  }

  /** Positive weights and `t` in `[0, 1]` give a positive surviving weight,
      so the unguarded projection is defined. */
  lemma PositiveWeightsSurvive(points: seq<WeightedPoint>, t: real)
    requires |points| >= 1 && 0.0 <= t <= 1.0
    requires forall i :: 0 <= i < |points| ==> points[i].w > 0.0
    ensures SurvivingWeight(points, t) > 0.0
  {
    var ws := Weights(LiftAll(points));
    SurvivingWeightOfWeights(points, t);
    WeightLevelPositive(ws, t, |points| - 1);
  }

  // ---------------------------------------------------------------------------
  // End points
  // ---------------------------------------------------------------------------

  /** At `t = 0` every pass drops the last point. */
  lemma {:induction false} LevelAtZero(hs: seq<Homogeneous>, r: nat)
    requires r < |hs|
    ensures Level(hs, 0.0, r) == hs[..|hs| - r]
  {
    if r > 0 {
      LevelAtZero(hs, r - 1);
    }
  }

  /** At `t = 1` every pass drops the first point. */
  lemma {:induction false} LevelAtOne(hs: seq<Homogeneous>, r: nat)
    requires r < |hs|
    ensures Level(hs, 1.0, r) == hs[r..]
  {
    if r > 0 {
      LevelAtOne(hs, r - 1);
    }
  }

  /** Projecting a lifted point with non-zero weight gives back its position. */
  lemma ProjectLift(p: WeightedPoint)
    requires p.w != 0.0
    ensures Project(Lift(p)) == Position(p)
  {
    assert p.x * p.w / p.w == p.x;
    assert p.y * p.w / p.w == p.y;
  }

  /** A single point of non-zero weight evaluates to itself at every `t`:
      with one point no pass runs, and `temp[0]` is its lifting. */
  lemma SinglePointIsItself(points: seq<WeightedPoint>, t: real)
    requires |points| == 1 && points[0].w != 0.0
    ensures SurvivingWeight(points, t) != 0.0 && RationalPoint(points, t) == Position(points[0])
  {
    ProjectLift(points[0]);
  }

  /** At `t = 0` the curve is the first control point, given a non-zero
      first weight; at `t = 1` it is the last one, given a non-zero last weight. */
  lemma EndPoints(points: seq<WeightedPoint>)
    requires |points| >= 1
    ensures points[0].w != 0.0 ==>
              SurvivingWeight(points, 0.0) != 0.0 && RationalPoint(points, 0.0) == Position(points[0])
    ensures points[|points| - 1].w != 0.0 ==>
              SurvivingWeight(points, 1.0) != 0.0 && RationalPoint(points, 1.0) == Position(points[|points| - 1])
  {
    var hs := LiftAll(points);
    LevelAtZero(hs, |hs| - 1);
    LevelAtOne(hs, |hs| - 1);
    if points[0].w != 0.0 {
      ProjectLift(points[0]);
    }
    if points[|points| - 1].w != 0.0 {
      ProjectLift(points[|points| - 1]);
    }
  }

  // ---------------------------------------------------------------------------
  // Unit weights: agreement with the unweighted de Casteljau
  // ---------------------------------------------------------------------------

  /** The level-`r + 1` points are the level-`r` points of one pass. */
  lemma {:induction false} LevelShift(hs: seq<Homogeneous>, t: real, r: nat)
    requires r + 1 < |hs|
    ensures Level(hs, t, r + 1) == Level(Pass(hs, t), t, r)
  {
    if r > 0 {
      LevelShift(hs, t, r - 1);
    }
  }

  /** A plane point as a homogeneous point of weight 1. */
  function Unit(p: Point): Homogeneous
  {
    Homogeneous(p.x, p.y, 1.0)
  }

  function UnitAll(points: seq<Point>): (hs: seq<Homogeneous>)
    ensures |hs| == |points|
  {
    seq(|points|, i requires 0 <= i < |points| => Unit(points[i]))
  }

  /** Reducing unit-weight points is reducing the plane points. */
  lemma {:induction false} UnitSurvivor(points: seq<Point>, t: real)
    requires |points| >= 1
    ensures Survivor(UnitAll(points), t) == Unit(CurveGenerator.BezierPoint(points, t))
    decreases |points|
  {
    if |points| > 1 {
      var next := CurveGenerator.Step(points, t);
      assert Pass(UnitAll(points), t) == UnitAll(next);
      LevelShift(UnitAll(points), t, |points| - 2);
      UnitSurvivor(next, t);
    }
  }

  /** With every weight 1, the rational evaluator agrees with the unweighted
      recursive de Casteljau of the second generator, for every `t`. */
  lemma UnitWeightsAgree(points: seq<WeightedPoint>, t: real)
    requires |points| >= 1
    requires forall i :: 0 <= i < |points| ==> points[i].w == 1.0
    ensures SurvivingWeight(points, t) == 1.0
    ensures RationalPoint(points, t)
            == CurveGenerator.BezierPoint(seq(|points|, i requires 0 <= i < |points| => Position(points[i])), t)
  {
    var plane := seq(|points|, i requires 0 <= i < |points| => Position(points[i]));
    assert LiftAll(points) == UnitAll(plane);
    UnitSurvivor(plane, t);
  }
}
