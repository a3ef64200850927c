/** The clamped B-spline evaluator (CGQ1/src/core/spline.js): an open uniform
    knot vector on `[0, 1]`, a binary search for the knot span, and de Boor's
    blend over a `p + 1`-entry working buffer. Weights are not used. */
module Spline {
  import opened Geometry
  import CurveGenerator

  // ---------------------------------------------------------------------------
  // openUniformKnot
  // ---------------------------------------------------------------------------

  /** `count` copies of `v`. */
  function Repeat(v: real, count: nat): (s: seq<real>)
    ensures |s| == count
  {
    seq(count, _ => v)
  }

  /** The evenly spaced values `i / interior` for `i = 1 .. interior - 1`. */
  function InteriorKnots(interior: int): (s: seq<real>)
    ensures |s| == if interior <= 1 then 0 else interior - 1
  {
    if interior <= 1 then [] else seq(interior - 1, i requires 0 <= i < interior - 1 => (i + 1) as real / interior as real)
  }

  /** `p + 1` zeros, the interior values for `interior = (nCP + p) - 2p`, and
      `p + 1` ones. */
  function UniformKnots(nCP: nat, p: nat): seq<real>
  {
    Repeat(0.0, p + 1) + InteriorKnots(nCP + p - 2 * p) + Repeat(1.0, p + 1)
  }

  /** `openUniformKnot(nCP, p)`: pushes the zeros, the interior values and the
      ones in three loops. */
  method OpenUniformKnot(nCP: nat, p: nat) returns (knot: seq<real>)
    ensures knot == UniformKnots(nCP, p)
  {
    knot := [];
    var m := nCP + p;
    var i := 0;
    while i <= p
      invariant 0 <= i <= p + 1
      invariant knot == Repeat(0.0, i)
    {
      knot := knot + [0.0];
      i := i + 1;
    }

    var interior := m - 2 * p;
    ghost var inner := InteriorKnots(interior);
    i := 1;
    while i < interior
      invariant 1 <= i && i - 1 <= |inner|
      invariant knot == Repeat(0.0, p + 1) + inner[..i - 1]
    {
      knot := knot + [i as real / interior as real];
      i := i + 1;
    }
    assert inner[..i - 1] == inner;

    i := 0;
    while i <= p
      invariant 0 <= i <= p + 1
      invariant knot == Repeat(0.0, p + 1) + inner + Repeat(1.0, i)
    {
      knot := knot + [1.0];
      i := i + 1;
    }
  }

  /** The length is `nCP + p + 1` once there are at least `p + 1` control
      points; with fewer it is `2p + 2`. */
  lemma UniformKnotsLength(nCP: nat, p: nat)
    ensures nCP >= p + 1 ==> |UniformKnots(nCP, p)| == nCP + p + 1
    ensures nCP < p + 1 ==> |UniformKnots(nCP, p)| == 2 * p + 2
  {
  }

  /** Clamped ends: the first `p + 1` knots are 0, the last `p + 1` are 1. */
  lemma UniformKnotsClamped(nCP: nat, p: nat)
    ensures forall i :: 0 <= i <= p ==> UniformKnots(nCP, p)[i] == 0.0
    ensures forall i :: |UniformKnots(nCP, p)| - 1 - p <= i < |UniformKnots(nCP, p)| ==> UniformKnots(nCP, p)[i] == 1.0
  {
  }

  /** The interior knots, at indices `p + 1 .. nCP - 1`, are `(i - p) / (nCP - p)`,
      strictly between 0 and 1. */
  lemma UniformKnotsInterior(nCP: nat, p: nat)
    ensures forall i :: p < i < nCP ==>
              UniformKnots(nCP, p)[i] == (i - p) as real / (nCP - p) as real
              && 0.0 < UniformKnots(nCP, p)[i] < 1.0
  {
    var U := UniformKnots(nCP, p);
    forall i | p < i < nCP
      ensures U[i] == (i - p) as real / (nCP - p) as real && 0.0 < U[i] < 1.0
    {
      assert U[i] == InteriorKnots(nCP - p)[i - p - 1];
      FractionInOpenUnit(i - p, nCP - p);
    }
  }

  /** `0 < a / b < 1` for `0 < a < b`. */
  lemma FractionInOpenUnit(a: int, b: int)
    requires 0 < a < b
    ensures 0.0 < a as real / b as real < 1.0
  {
    var q := a as real / b as real;
    assert q * b as real == a as real;
  }

  /** `a / c <= b / c` for `a <= b` and `c > 0`. */
  lemma FractionMonotone(a: int, b: int, c: int)
    requires a <= b && c > 0
    ensures a as real / c as real <= b as real / c as real
  {
    var qa, qb := a as real / c as real, b as real / c as real;
    assert qa * c as real == a as real && qb * c as real == b as real;
  }

  /** The open uniform knot vector is non-decreasing. */
  lemma UniformKnotsNonDecreasing(nCP: nat, p: nat)
    ensures NonDecreasing(UniformKnots(nCP, p))
  {
    var U := UniformKnots(nCP, p);
    var zeros := p + 1;
    var interior := nCP - p;
    var inner := InteriorKnots(interior);
    var ones := zeros + |inner|;
    forall i | 0 <= i < |inner|
      ensures 0.0 < inner[i] < 1.0
    {
      FractionInOpenUnit(i + 1, interior);
    }
    forall i, j | 0 <= i <= j < |U|
      ensures U[i] <= U[j]
    {
      if j < zeros || ones <= i {
      } else if i < zeros {
        assert U[i] == 0.0;
      } else if ones <= j {
        assert U[j] == 1.0;
      } else {
        assert U[i] == inner[i - zeros] && U[j] == inner[j - zeros];
        FractionMonotone(i - zeros + 1, j - zeros + 1, interior);
      }
    }
  }

  // ---------------------------------------------------------------------------
  // findSpan
  // ---------------------------------------------------------------------------

  /** What `findSpan` returns, with `n = nCP - 1`: `n` when `t >= U[n + 1]`,
      else `p` when `t <= U[p]`, else a `k` in `[p, n]` with
      `U[k] <= t < U[k + 1]`. */
  predicate IsSpan(nCP: nat, p: nat, t: real, U: seq<real>, k: int)
    requires p < nCP < |U|
  {
    if t >= U[nCP] then k == nCP - 1
    else if t <= U[p] then k == p
    else p <= k < nCP && U[k] <= t < U[k + 1]
  }

  /** `findSpan(nCP, p, t, U)`: the two clamps, then a binary search that keeps
      `U[low] <= t < U[high]` and halves `high - low`. */
  method FindSpan(nCP: nat, p: nat, t: real, U: seq<real>) returns (k: nat)
    requires p < nCP < |U|
    ensures p <= k < nCP
    ensures IsSpan(nCP, p, t, U, k)
  {
    var n := nCP - 1;
    if t >= U[n + 1] {
      return n;
    }
    if t <= U[p] {
      return p;
    }
    var low, high := p, n + 1;
    var mid := (low + high) / 2;
    while t < U[mid] || t >= U[mid + 1]
      invariant p <= low < high <= n + 1
      invariant U[low] <= t < U[high]
      invariant mid == (low + high) / 2
      decreases high - low
    {
      assert high - low >= 2;
      if t < U[mid] {
        high := mid;
      } else {
        low := mid;
      }
      mid := (low + high) / 2;
    }
    return mid;
  }

  /** Over a non-decreasing knot vector the span is unique. */
  lemma SpanUnique(nCP: nat, p: nat, t: real, U: seq<real>, k1: int, k2: int)
    requires p < nCP < |U| && NonDecreasing(U)
    requires IsSpan(nCP, p, t, U, k1) && IsSpan(nCP, p, t, U, k2)
    ensures k1 == k2
  {
  }

  // ---------------------------------------------------------------------------
  // deBoor
  // ---------------------------------------------------------------------------

  /** The blend factor of pass `r` at knot index `i`; 0 for a zero denominator. */
  function Alpha(U: seq<real>, t: real, i: int, p: nat, r: nat): real
    requires 1 <= r <= p && 0 <= i && i + p - r + 1 < |U|
  {
    var denom := U[i + p - r + 1] - U[i];
    if denom == 0.0 then 0.0 else (t - U[i]) / denom
  }

  /** The working buffer's initial contents: positions of control points
      `k - p .. k`. */
  function Seed(points: seq<WeightedPoint>, p: nat, k: int): (d: seq<Point>)
    requires p <= k < |points|
    ensures |d| == p + 1
  {
    seq(p + 1, j requires 0 <= j <= p => Position(points[k - p + j]))
  }

  /** Pass `r`: entries `j = p` down to `r` blend `d[j - 1]` and `d[j]` with
      `alpha` at `i = k - p + j`; entries below `r` stay. Going down, `d[j - 1]`
      is still the previous pass's value when `d[j]` is rewritten. */
  function BlendPass(d: seq<Point>, p: nat, U: seq<real>, t: real, k: int, r: nat): (next: seq<Point>)
    requires |d| == p + 1 && 1 <= r <= p && p <= k && k + p < |U|
    ensures |next| == p + 1
  {
    seq(p + 1, j requires 0 <= j <= p =>
      if j >= r then Lerp(d[j - 1], d[j], Alpha(U, t, k - p + j, p, r)) else d[j])
  }

  /** The buffer after passes `1 .. r`. */
  function BlendLevel(d: seq<Point>, p: nat, U: seq<real>, t: real, k: int, r: nat): (level: seq<Point>)
    requires |d| == p + 1 && r <= p && p <= k && k + p < |U|
    ensures |level| == p + 1
  {
    if r == 0 then d else BlendPass(BlendLevel(d, p, U, t, k, r - 1), p, U, t, k, r)
  }

  /** The curve point of de Boor's algorithm for span `k`: the buffer's last
      entry after `p` passes. */
  function DeBoorPoint(points: seq<WeightedPoint>, p: nat, U: seq<real>, t: real, k: int): Point
    requires p <= k < |points| && k + p < |U|
  {
    BlendLevel(Seed(points, p, k), p, U, t, k, p)[p]
  }

  /** Pass `r` of `deBoor` on the buffer `d`, `j` running from `p` down to `r`. */
  method BlendPassInPlace(d: array<Point>, p: nat, U: seq<real>, t: real, k: int, r: nat)
    requires d.Length == p + 1 && 1 <= r <= p && p <= k && k + p < |U|
    modifies d
    ensures d[..] == BlendPass(old(d[..]), p, U, t, k, r)
  {
    ghost var prev := d[..];
    ghost var next := BlendPass(prev, p, U, t, k, r);
    var j := p;
    while j >= r
      invariant r - 1 <= j <= p
      invariant forall q :: j < q <= p ==> d[q] == next[q]
      invariant forall q :: 0 <= q <= j ==> d[q] == prev[q]
    {
      var i := k - p + j;
      var denom := U[i + p - r + 1] - U[i];
      var alpha := if denom == 0.0 then 0.0 else (t - U[i]) / denom;
      assert alpha == Alpha(U, t, i, p, r);
      assert next[j] == Lerp(prev[j - 1], prev[j], alpha);
      d[j] := Lerp(d[j - 1], d[j], alpha);
      j := j - 1;
    }
    assert d[..] == next;
  }

  /** The buffer `d` of `deBoor`, filled for `j = 0 .. p` with the positions
      of control points `k - p .. k`. */
  method SeedBuffer(points: seq<WeightedPoint>, p: nat, k: int) returns (d: array<Point>)
    requires p <= k < |points|
    ensures fresh(d) && d[..] == Seed(points, p, k)
  {
    d := new Point[p + 1];
    var j := 0;
    while j <= p
      invariant 0 <= j <= p + 1
      invariant forall q :: 0 <= q < j ==> d[q] == Position(points[k - p + q])
    {
      d[j] := Point(points[k - p + j].x, points[k - p + j].y);
      j := j + 1;
    }
  }

  /** Level `r` is one pass over level `r - 1`. */
  lemma BlendLevelStep(d: seq<Point>, p: nat, U: seq<real>, t: real, k: int, r: nat)
    requires |d| == p + 1 && 1 <= r <= p && p <= k && k + p < |U|
    ensures BlendLevel(d, p, U, t, k, r) == BlendPass(BlendLevel(d, p, U, t, k, r - 1), p, U, t, k, r)
  {
  }

  /** Passes `r = 1 .. p` of `deBoor` on the buffer `d`. */
  method ReduceInPlace(d: array<Point>, p: nat, U: seq<real>, t: real, k: int)
    requires d.Length == p + 1 && p <= k && k + p < |U|
    modifies d
    ensures d[..] == BlendLevel(old(d[..]), p, U, t, k, p)
  {
    ghost var seed := d[..];
    var pass := 1;
    while pass <= p
      invariant 1 <= pass <= p + 1
      invariant d[..] == BlendLevel(seed, p, U, t, k, pass - 1)
    {
      BlendPassInPlace(d, p, U, t, k, pass);
      BlendLevelStep(seed, p, U, t, k, pass);
      pass := pass + 1;
    }
  }

  /** `deBoor(points, p, U, t)`: `None` when there are fewer than `p + 1`
      points; otherwise the span `k` of `findSpan`, the seeded buffer, `p`
      passes, and `d[p]`. The span is returned as a ghost so that the result
      can be stated; only `U[0 .. nCP + p - 1]` and `U[nCP]` are read. */
  method DeBoor(points: seq<WeightedPoint>, p: nat, U: seq<real>, t: real) returns (r: Option<Point>, ghost k: int)
    requires |points| >= p + 1 ==> |points| + p <= |U| && |points| < |U|
    ensures r == None <==> |points| < p + 1
    ensures r.Some? ==> p <= k < |points| && IsSpan(|points|, p, t, U, k)
                        && r.value == DeBoorPoint(points, p, U, t, k)
  {
    var nCP := |points|;
    if nCP < p + 1 {
      r, k := None, 0;
      return;
    }
    var span := FindSpan(nCP, p, t, U);
    k := span;
    ghost var seed := Seed(points, p, span);
    var d := SeedBuffer(points, p, span);

    ReduceInPlace(d, p, U, t, span);
    r := Some(d[p]);
  }

  /** A zero denominator makes the pass copy `d[j - 1]` into `d[j]`. */
  lemma ZeroDenominatorCopies(d: seq<Point>, p: nat, U: seq<real>, t: real, k: int, r: nat, j: nat)
    requires |d| == p + 1 && 1 <= r <= j <= p && p <= k && k + p < |U|
    requires U[k - p + j + p - r + 1] == U[k - p + j]
    ensures BlendPass(d, p, U, t, k, r)[j] == d[j - 1]
  {
  }

  /** Only the positions of control points `k - p .. k` matter: weights and
      all other points are never read. */
  lemma DeBoorReadsOnlyWindow(a: seq<WeightedPoint>, b: seq<WeightedPoint>, p: nat, U: seq<real>, t: real, k: int)
    requires p <= k < |a| && p <= k < |b| && k + p < |U|
    requires forall j :: k - p <= j <= k ==> Position(a[j]) == Position(b[j])
    ensures DeBoorPoint(a, p, U, t, k) == DeBoorPoint(b, p, U, t, k)
  {
    assert Seed(a, p, k) == Seed(b, p, k);
  }

  // ---------------------------------------------------------------------------
  // End points over the open uniform knot vector
  // ---------------------------------------------------------------------------

  /** The knots of `UniformKnots(nCP, p)` for `nCP >= p + 1`: 0 up to index `p`,
      below 1 up to index `nCP - 1`, and 1 from index `nCP` on. */
  lemma UniformKnotsShape(nCP: nat, p: nat)
    requires nCP >= p + 1
    ensures var U := UniformKnots(nCP, p);
            |U| == nCP + p + 1
            && (forall i :: 0 <= i <= p ==> U[i] == 0.0)
            && (forall i :: 0 <= i < nCP ==> U[i] < 1.0)
            && (forall i :: nCP <= i < |U| ==> U[i] == 1.0)
  {
    var U := UniformKnots(nCP, p);
    UniformKnotsInterior(nCP, p);
    forall i | 0 <= i < nCP
      ensures U[i] < 1.0
    {
    }
  }

  /** A pass in which every `alpha` is `a` blends each `d[j - 1]`, `d[j]`
      (`j >= r`) by `a` and keeps the entries below `r`. */
  lemma PassWithConstantAlpha(d: seq<Point>, p: nat, U: seq<real>, t: real, k: int, r: nat, a: real)
    requires |d| == p + 1 && 1 <= r <= p && p <= k && k + p < |U|
    requires forall i :: k - p + r <= i <= k ==> Alpha(U, t, i, p, r) == a
    ensures forall j :: r <= j <= p ==> BlendPass(d, p, U, t, k, r)[j] == Lerp(d[j - 1], d[j], a)
    ensures forall j :: 0 <= j < r ==> BlendPass(d, p, U, t, k, r)[j] == d[j]
  {
    forall j | r <= j <= p
      ensures BlendPass(d, p, U, t, k, r)[j] == Lerp(d[j - 1], d[j], a)
    {
      assert Alpha(U, t, k - p + j, p, r) == a;
    }
  }

  /** At `t = 0`, span `p`, over knots that are 0 up to index `p`: every
      `alpha` is 0, so pass `r` shifts the buffer up by one and entry `j`
      holds seed entry `max(j - r, 0)`. */
  lemma {:induction false} BlendLevelAtZero(d: seq<Point>, U: seq<real>, p: nat, r: nat)
    requires |d| == p + 1 && r <= p && 2 * p < |U|
    requires forall i :: 0 <= i <= p ==> U[i] == 0.0
    ensures forall j :: r <= j <= p ==> BlendLevel(d, p, U, 0.0, p, r)[j] == d[j - r]
    ensures forall j :: 0 <= j < r ==> BlendLevel(d, p, U, 0.0, p, r)[j] == d[0]
  {
    if r > 0 {
      BlendLevelAtZero(d, U, p, r - 1);
      var prev := BlendLevel(d, p, U, 0.0, p, r - 1);
      ZeroPassShifts(d, prev, U, p, r);
      BlendLevelStep(d, p, U, 0.0, p, r);
    }
  }

  /** Over knots that are 0 up to index `p`, every `alpha` of span `p` at
      `t = 0` is 0. */
  lemma AlphaAtZero(U: seq<real>, p: nat, r: nat)
    requires 1 <= r <= p && 2 * p < |U|
    requires forall i :: 0 <= i <= p ==> U[i] == 0.0
    ensures forall i :: r <= i <= p ==> Alpha(U, 0.0, i, p, r) == 0.0
  {
    forall i | r <= i <= p
      ensures Alpha(U, 0.0, i, p, r) == 0.0
    {
      var denom := U[i + p - r + 1] - U[i];
      assert U[i] == 0.0;
      assert denom != 0.0 ==> (0.0 - U[i]) / denom == 0.0;
    }
  }

  /** A pass whose every `alpha` is 0, applied to a buffer that holds the seed
      shifted up by `r - 1`, leaves it shifted up by `r`. */
  lemma ZeroPassShifts(d: seq<Point>, prev: seq<Point>, U: seq<real>, p: nat, r: nat)
    requires |d| == |prev| == p + 1 && 1 <= r <= p && 2 * p < |U|
    requires forall j :: r - 1 <= j <= p ==> prev[j] == d[j - (r - 1)]
    requires forall j :: 0 <= j < r - 1 ==> prev[j] == d[0]
    requires forall i :: 0 <= i <= p ==> U[i] == 0.0
    ensures forall j :: r <= j <= p ==> BlendPass(prev, p, U, 0.0, p, r)[j] == d[j - r]
    ensures forall j :: 0 <= j < r ==> BlendPass(prev, p, U, 0.0, p, r)[j] == d[0]
  {
    AlphaAtZero(U, p, r);
    PassWithConstantAlpha(prev, p, U, 0.0, p, r, 0.0);
    var next := BlendPass(prev, p, U, 0.0, p, r);
    forall j | r <= j <= p
      ensures next[j] == d[j - r]
    {
      LerpAtZero(prev[j - 1], prev[j]);
      assert prev[j - 1] == d[j - 1 - (r - 1)];
    }
    forall j | 0 <= j < r
      ensures next[j] == d[0]
    {
      if j == r - 1 {
        assert prev[j] == d[j - (r - 1)];
      }
    }
  }

  /** At `t = 1`, span `nCP - 1`, over knots that are below 1 up to index
      `nCP - 1` and 1 after: every `alpha` is 1, so no pass changes the
      buffer. */
  lemma {:induction false} BlendLevelAtOne(d: seq<Point>, U: seq<real>, nCP: nat, p: nat, r: nat)
    requires nCP >= p + 1 && |d| == p + 1 && r <= p && |U| == nCP + p + 1
    requires forall i :: 0 <= i < nCP ==> U[i] < 1.0
    requires forall i :: nCP <= i < |U| ==> U[i] == 1.0
    ensures BlendLevel(d, p, U, 1.0, nCP - 1, r) == d
  {
    if r > 0 {
      BlendLevelAtOne(d, U, nCP, p, r - 1);
      forall i | nCP - 1 - p + r <= i <= nCP - 1
        ensures Alpha(U, 1.0, i, p, r) == 1.0
      {
        var denom := U[i + p - r + 1] - U[i];
        assert U[i] < 1.0 && U[i + p - r + 1] == 1.0;
        assert denom != 0.0 && (1.0 - U[i]) / denom == 1.0;
      }
      PassWithConstantAlpha(d, p, U, 1.0, nCP - 1, r, 1.0);
      var level := BlendLevel(d, p, U, 1.0, nCP - 1, r);
      forall j | 0 <= j <= p
        ensures level[j] == d[j]
      {
        if j >= r {
          assert level[j] == Lerp(d[j - 1], d[j], 1.0);
          LerpAtOne(d[j - 1], d[j]);
        }
      }
    }
  }

  /** Over knots that start with `p + 1` zeros, `t = 0` lies in span `p` and
      the curve point there is the first control point. */
  lemma DeBoorStartsAtFirst(points: seq<WeightedPoint>, p: nat, U: seq<real>)
    requires |points| >= p + 1 && |U| == |points| + p + 1
    requires forall i :: 0 <= i <= p ==> U[i] == 0.0
    requires U[|points|] == 1.0
    ensures forall k :: IsSpan(|points|, p, 0.0, U, k) ==> k == p && DeBoorPoint(points, p, U, 0.0, k) == Position(points[0])
  {
    var first := Seed(points, p, p);
    BlendLevelAtZero(first, U, p, p);
    assert BlendLevel(first, p, U, 0.0, p, p)[p] == first[0];
  }

  /** Over knots that are below 1 before index `nCP` and 1 from there on,
      `t = 1` lies in span `nCP - 1` and the curve point there is the last
      control point. */
  lemma DeBoorEndsAtLast(points: seq<WeightedPoint>, p: nat, U: seq<real>)
    requires |points| >= p + 1 && |U| == |points| + p + 1
    requires forall i :: 0 <= i < |points| ==> U[i] < 1.0
    requires forall i :: |points| <= i < |U| ==> U[i] == 1.0
    ensures forall k :: IsSpan(|points|, p, 1.0, U, k) ==>
              k == |points| - 1 && DeBoorPoint(points, p, U, 1.0, k) == Position(points[|points| - 1])
  {
    var nCP := |points|;
    assert U[nCP] == 1.0;
    var last := Seed(points, p, nCP - 1);
    BlendLevelAtOne(last, U, nCP, p, p);
    assert last[p] == Position(points[nCP - 1]);
  }

  /** With the open uniform knot vector the curve interpolates its end points:
      `t = 0` gives the first control point and `t = 1` the last. */
  lemma DeBoorEndPoints(points: seq<WeightedPoint>, p: nat)
    requires |points| >= p + 1
    ensures var nCP, U := |points|, UniformKnots(|points|, p);
            |U| == nCP + p + 1
            && (forall k :: IsSpan(nCP, p, 0.0, U, k) ==> k == p && DeBoorPoint(points, p, U, 0.0, k) == Position(points[0]))
            && (forall k :: IsSpan(nCP, p, 1.0, U, k) ==> k == nCP - 1 && DeBoorPoint(points, p, U, 1.0, k) == Position(points[nCP - 1]))
  {
    var U := UniformKnots(|points|, p);
    UniformKnotsShape(|points|, p);
    DeBoorStartsAtFirst(points, p, U);
    DeBoorEndsAtLast(points, p, U);
  }

  // ---------------------------------------------------------------------------
  // No interior knots: the B-spline is the Bézier curve
  // ---------------------------------------------------------------------------

  /** Over knots that are `p + 1` zeros and then ones, every `alpha` of span
      `p` is `t`, so after pass `r` the entries `r .. p` are the level-`r`
      de Casteljau points. */
  lemma {:induction false} BlendLevelIsBezierLevel(d: seq<Point>, U: seq<real>, p: nat, t: real, r: nat)
    requires |d| == p + 1 && r <= p && |U| == 2 * p + 2
    requires forall i :: 0 <= i <= p ==> U[i] == 0.0
    requires forall i :: p < i < |U| ==> U[i] == 1.0
    ensures BlendLevel(d, p, U, t, p, r)[r..] == CurveGenerator.Level(d, t, r)
  {
    if r > 0 {
      BlendLevelIsBezierLevel(d, U, p, t, r - 1);
      AlphaOverBezierKnots(U, p, t, r);
      PassIsStep(BlendLevel(d, p, U, t, p, r - 1), p, U, t, r);
    }
  }

  /** Over knots that are `p + 1` zeros and then ones, every `alpha` of pass
      `r` in span `p` is `t`. */
  lemma AlphaOverBezierKnots(U: seq<real>, p: nat, t: real, r: nat)
    requires 1 <= r <= p && |U| == 2 * p + 2
    requires forall i :: 0 <= i <= p ==> U[i] == 0.0
    requires forall i :: p < i < |U| ==> U[i] == 1.0
    ensures forall i :: r <= i <= p ==> Alpha(U, t, i, p, r) == t
  {
    forall i | r <= i <= p
      ensures Alpha(U, t, i, p, r) == t
    {
      assert U[i] == 0.0 && U[i + p - r + 1] == 1.0;
    }
  }

  /** A pass with every `alpha = t` is one de Casteljau step on the entries
      `r - 1 .. p`. */
  lemma PassIsStep(prev: seq<Point>, p: nat, U: seq<real>, t: real, r: nat)
    requires |prev| == p + 1 && 1 <= r <= p && 2 * p < |U|
    requires forall i :: r <= i <= p ==> Alpha(U, t, i, p, r) == t
    ensures BlendPass(prev, p, U, t, p, r)[r..] == CurveGenerator.Step(prev[r - 1..], t)
  {
    PassWithConstantAlpha(prev, p, U, t, p, r, t);
    CurveGenerator.StepPointwise(prev[r - 1..], t);
  }

  /** For `nCP = p + 1` (no interior knots) de Boor's algorithm is the Bézier
      curve of the same points, for every `t`: the span is always `p`. */
  lemma NoInteriorKnotsIsBezier(points: seq<WeightedPoint>, t: real)
    requires |points| >= 1
    ensures var p, U := |points| - 1, UniformKnots(|points|, |points| - 1);
            forall k :: IsSpan(|points|, p, t, U, k) ==>
              k == p && DeBoorPoint(points, p, U, t, k)
                        == CurveGenerator.BezierPoint(seq(|points|, i requires 0 <= i < |points| => Position(points[i])), t)
  {
    var p := |points| - 1;
    var U := UniformKnots(|points|, p);
    UniformKnotsShape(|points|, p);
    var plane := seq(|points|, i requires 0 <= i < |points| => Position(points[i]));
    assert Seed(points, p, p) == plane;
    BlendLevelIsBezierLevel(plane, U, p, t, p);
    assert BlendLevel(plane, p, U, t, p, p)[p] == CurveGenerator.Level(plane, t, p)[0];
    CurveGenerator.BezierPointIsLastLevel(plane, t);
  }
}
