/** Values shared by both curve implementations and both point editors:
    plane points, weighted control points, and linear interpolation over
    exact reals. */
module Geometry {

  /** An optional value; `None` plays the role of JavaScript's `null`. */
  datatype Option<T> = None | Some(value: T)

  /** A plane point `{x, y}`. */
  datatype Point = Point(x: real, y: real)

  /** A weighted control point `{x, y, w}`. */
  datatype WeightedPoint = WeightedPoint(x: real, y: real, w: real)

  /** `(1 - t)·a + t·b`, the blend every de Casteljau and de Boor step uses. */
  function Mix(a: real, b: real, t: real): real
  {
    (1.0 - t) * a + t * b
  }

  /** Component-wise `Mix` of two plane points. */
  function Lerp(a: Point, b: Point, t: real): Point
  {
    Point(Mix(a.x, b.x, t), Mix(a.y, b.y, t))
  }

  /** `Lerp` at `t = 0` is its first point. */
  lemma LerpAtZero(a: Point, b: Point)
    ensures Lerp(a, b, 0.0) == a
  {
  }

  /** `Lerp` at `t = 1` is its second point. */
  lemma LerpAtOne(a: Point, b: Point)
    ensures Lerp(a, b, 1.0) == b
  {
  }

  /** The plane position of a weighted point, its weight dropped. */
  function Position(p: WeightedPoint): Point
  {
    Point(p.x, p.y)
  }

  /** The squared Euclidean distance between `(x, y)` and `p`. */
  function SquaredDistance(x: real, y: real, p: Point): real
  {
    (x - p.x) * (x - p.x) + (y - p.y) * (y - p.y)
  }

  /** Every knot is at most every later knot. */
  predicate NonDecreasing(knots: seq<real>)
  {
    forall i, j :: 0 <= i <= j < |knots| ==> knots[i] <= knots[j]
  }
}
