/** Plane geometry on real coordinates: points, squared distances, and the
    clamped point-to-segment distance that `rdp` measures with (`getPerpDist`).

    Every distance here is SQUARED: the source takes `Math.sqrt` of exactly these
    quantities, and because the square root is monotone on non-negative reals the
    comparisons the simplifiers make can be made on the squares instead (see
    Polyline.ExceedsMatchesDistance and Polyline.FarthestOfSquares). */
module Geometry {

  /** A point `[x, y]` (longitude, latitude). */
  datatype Point = Point(x: real, y: real)

  /** Squared Euclidean distance between two points. */
  function DistSq(p: Point, q: Point): (r: real)
    ensures r >= 0.0
    ensures r == 0.0 <==> p == q
  {
    var dx, dy := p.x - q.x, p.y - q.y;
    SquareIsProduct(dx);
    SquareIsProduct(dy);
    dx * dx + dy * dy
  }

  /** The square of d, non-negative and zero only for zero. The second factor goes
      through Same so that the solver treats the product as one of two positive
      (or two negative) factors rather than as a power of d. */
  function Square(d: real): (r: real)
    ensures r >= 0.0
    ensures r == 0.0 <==> d == 0.0
  {
    d * Same(d)
  }

  /** The identity on reals: a proof device with no counterpart in the source,
      used only inside Square. */
  function Same(d: real): (r: real)
    ensures r == d
  {
    d
  }

  /** Square is the product of d with itself. */
  lemma SquareIsProduct(d: real)
    ensures Square(d) == d * d
  {
  }

  /** The squared distance as a sum of two squares. */
  lemma DistSqAsSquares(p: Point, q: Point)
    ensures DistSq(p, q) == Square(p.x - q.x) + Square(p.y - q.y)
  {
    SquareIsProduct(p.x - q.x);
    SquareIsProduct(p.y - q.y);
  }

  /** A product of a number with itself is never negative. */
  lemma SquareSign(d: real)
    ensures d * d >= 0.0
  {
  }

  /** The point at parameter t along the line through a and b: a at t = 0, b at t = 1. */
  function Lerp(a: Point, b: Point, t: real): Point
  {
    Point(a.x + t * (b.x - a.x), a.y + t * (b.y - a.y))
  }

  /** The dot product (p - a) . (b - a). */
  function Dot(p: Point, a: Point, b: Point): real
  {
    (p.x - a.x) * (b.x - a.x) + (p.y - a.y) * (b.y - a.y)
  }

  /** The projection parameter of p onto the segment from a to b, with -1 standing
      for a zero-length segment (whose length is never divided by). */
  function ProjectionParam(p: Point, a: Point, b: Point): real
  {
    var lenSq := DistSq(b, a);
    if lenSq != 0.0 then Dot(p, a, b) / lenSq else -1.0
  }

  /** `getPerpDist(point, [a, b])`, squared: the distance from p to the segment
      from a to b. A projection before a gives the distance to a, one beyond b the
      distance to b, and otherwise the distance to the foot of the perpendicular. */
  function PerpDistSq(p: Point, a: Point, b: Point): (r: real)
    ensures r >= 0.0
    ensures a == b ==> r == DistSq(p, a)
    ensures p == a || p == b ==> r == 0.0
  {
    var param := ProjectionParam(p, a, b);
    EndParam(a, b);
    if param < 0.0 then DistSq(p, a)
    else if param > 1.0 then DistSq(p, b)
    else DistSq(p, Lerp(a, b, param))
  }

  /** b itself projects onto parameter 1 of a segment of non-zero length. */
  lemma EndParam(a: Point, b: Point)
    ensures a != b ==> ProjectionParam(b, a, b) == 1.0
  {
    var len := DistSq(b, a);
    assert Dot(b, a, b) == len;
    if len != 0.0 {
      assert len / len == 1.0;
    }
  }

  /** The projection parameter clamped to [0, 1]: where on the segment the nearest point lies. */
  function ClampedParam(p: Point, a: Point, b: Point): (t: real)
    ensures 0.0 <= t <= 1.0
  {
    var param := ProjectionParam(p, a, b);
    if param < 0.0 then 0.0 else if param > 1.0 then 1.0 else param
  }

  /** The squared distance from p to the point at parameter t, expanded in t. */
  lemma DistSqAlong(p: Point, a: Point, b: Point, t: real)
    ensures DistSq(p, Lerp(a, b, t)) == DistSq(p, a) - 2.0 * t * Dot(p, a, b) + t * t * DistSq(b, a)
  {
    var wx, wy, dx, dy := p.x - a.x, p.y - a.y, b.x - a.x, b.y - a.y;
    assert (wx - t * dx) * (wx - t * dx) == wx * wx - 2.0 * t * (wx * dx) + t * t * (dx * dx);
    assert (wy - t * dy) * (wy - t * dy) == wy * wy - 2.0 * t * (wy * dy) + t * t * (dy * dy);
  }

  /** The segment distance is attained: it is the distance to the segment point at
      the clamped projection parameter. */
  lemma PerpDistSqAttained(p: Point, a: Point, b: Point)
    ensures PerpDistSq(p, a, b) == DistSq(p, Lerp(a, b, ClampedParam(p, a, b)))
  {
    var param := ProjectionParam(p, a, b);
    if param < 0.0 {
      assert Lerp(a, b, 0.0) == a;
    } else if param > 1.0 {
      assert Lerp(a, b, 1.0) == b;
    }
  }

  /** The segment distance is a lower bound: no point of the segment is closer to p.
      Together with PerpDistSqAttained, PerpDistSq is the minimum over the segment. */
  lemma PerpDistSqIsSegmentMinimum(p: Point, a: Point, b: Point, t: real)
    requires 0.0 <= t <= 1.0
    ensures PerpDistSq(p, a, b) <= DistSq(p, Lerp(a, b, t))
  {
    var len := DistSq(b, a);
    var param := ProjectionParam(p, a, b);
    if len == 0.0 {
      assert a == b;
      assert Lerp(a, b, t) == a;
    } else if param < 0.0 {
      BeforeStartIsNearest(p, a, b, t);
    } else if param > 1.0 {
      BeyondEndIsNearest(p, a, b, t);
    } else {
      FootIsNearest(p, a, b, t);
    }
  }

  /** A projection before a: a is the nearest segment point. */
  lemma BeforeStartIsNearest(p: Point, a: Point, b: Point, t: real)
    requires 0.0 <= t <= 1.0
    requires DistSq(b, a) != 0.0 && ProjectionParam(p, a, b) < 0.0
    ensures DistSq(p, a) <= DistSq(p, Lerp(a, b, t))
  {
    var len, dot := DistSq(b, a), Dot(p, a, b);
    DistSqAlong(p, a, b, t);
    QuotientSign(dot, len);
    BeforeStartAlgebra(DistSq(p, a), dot, len, t);
  }

  /** A projection beyond b: b is the nearest segment point. */
  lemma BeyondEndIsNearest(p: Point, a: Point, b: Point, t: real)
    requires 0.0 <= t <= 1.0
    requires DistSq(b, a) != 0.0 && ProjectionParam(p, a, b) > 1.0
    ensures DistSq(p, b) <= DistSq(p, Lerp(a, b, t))
  {
    var len, dot := DistSq(b, a), Dot(p, a, b);
    DistSqAlong(p, a, b, t);
    DistSqAlong(p, a, b, 1.0);
    assert Lerp(a, b, 1.0) == b;
    QuotientSign(dot, len);
    BeyondEndAlgebra(DistSq(p, a), dot, len, t);
  }

  /** A projection inside the segment: the foot of the perpendicular is the nearest segment point. */
  lemma FootIsNearest(p: Point, a: Point, b: Point, t: real)
    requires 0.0 <= t <= 1.0
    requires DistSq(b, a) != 0.0 && 0.0 <= ProjectionParam(p, a, b) <= 1.0
    ensures DistSq(p, Lerp(a, b, ProjectionParam(p, a, b))) <= DistSq(p, Lerp(a, b, t))
  {
    var param := ProjectionParam(p, a, b);
    AlongDifference(p, a, b, param, t);
    ParamTimesLength(p, a, b);
    FootAlgebra(Dot(p, a, b), param, DistSq(b, a), t,
                DistSq(p, Lerp(a, b, t)) - DistSq(p, Lerp(a, b, param)));
  }

  /** How the squared distance changes from parameter s to parameter t. */
  lemma AlongDifference(p: Point, a: Point, b: Point, s: real, t: real)
    ensures DistSq(p, Lerp(a, b, t)) - DistSq(p, Lerp(a, b, s))
            == (t - s) * ((t + s) * DistSq(b, a) - 2.0 * Dot(p, a, b))
  {
    DistSqAlong(p, a, b, t);
    DistSqAlong(p, a, b, s);
    DifferenceAlgebra(DistSq(p, a), Dot(p, a, b), DistSq(b, a), s, t);
  }

  lemma DifferenceAlgebra(w: real, dot: real, len: real, s: real, t: real)
    ensures (w - 2.0 * t * dot + t * t * len) - (w - 2.0 * s * dot + s * s * len)
            == (t - s) * ((t + s) * len - 2.0 * dot)
  {
  }

  /** The projection parameter times the squared length is the dot product. */
  lemma ParamTimesLength(p: Point, a: Point, b: Point)
    requires DistSq(b, a) != 0.0
    ensures Dot(p, a, b) == ProjectionParam(p, a, b) * DistSq(b, a)
  {
  }

  /** The sign of a quotient by a positive number is the sign of the numerator. */
  lemma QuotientSign(n: real, d: real)
    requires d > 0.0
    ensures n / d < 0.0 <==> n < 0.0
    ensures n / d > 1.0 <==> n > d
  {
    assert n == (n / d) * d;
    assert d == 1.0 * d;
  }

  /** Product of two non-negative reals. */
  lemma MulNonNegative(x: real, y: real)
    requires x >= 0.0 && y >= 0.0
    ensures x * y >= 0.0
  {
  }

  lemma BeforeStartAlgebra(w: real, dot: real, len: real, t: real)
    requires dot < 0.0 && len > 0.0 && 0.0 <= t
    ensures w <= w - 2.0 * t * dot + t * t * len
  {
    MulNonNegative(t, -dot);
    MulNonNegative(t * t, len);
  }

  lemma BeyondEndAlgebra(w: real, dot: real, len: real, t: real)
    requires dot > len > 0.0 && 0.0 <= t <= 1.0
    ensures w - 2.0 * dot + len <= w - 2.0 * t * dot + t * t * len
  {
    var diff := (w - 2.0 * t * dot + t * t * len) - (w - 2.0 * dot + len);
    assert diff == (1.0 - t) * (2.0 * dot - len * (1.0 + t));
    MulNonNegative(len, 1.0 - t);
    assert len * (1.0 + t) <= 2.0 * len;
    MulNonNegative(1.0 - t, 2.0 * dot - len * (1.0 + t));
  }

  lemma FootAlgebra(dot: real, param: real, len: real, t: real, diff: real)
    requires len > 0.0 && dot == param * len
    requires diff == (t - param) * ((t + param) * len - 2.0 * dot)
    ensures diff >= 0.0
  {
    assert diff == (t - param) * (t - param) * len;
    SquareSign(t - param);
    MulNonNegative((t - param) * (t - param), len);
  }
}
