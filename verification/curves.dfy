/**
 * Geometry of the edge-bundling chart's curve subdivider: 2-D points, the two
 * kinds of path segment (a straight `Line` and a cubic `BezierCurve`), the
 * fixed blend vectors used to cut a cubic in half, and the halving of a
 * single segment. All blend weights are multiples of 1/8, so over `real` the
 * arithmetic is exact.
 */
module Curves {

  datatype Point = Point(x: real, y: real)

  /** A path segment: `Line{a, b}` or `BezierCurve{a, b, c, d}` (anchors a and d, controls b and c). */
  datatype Segment =
    | Line(a: Point, b: Point)
    | BezierCurve(a: Point, b: Point, c: Point, d: Point)

  /** A blend vector `[ka, kb, kc, kd]`, applied to the four points of a cubic by `Dot`. */
  datatype Weights = Weights(ka: real, kb: real, kc: real, kd: real)

  // The five blend vectors of the cubic halving.
  const L1: Weights := Weights(4.0 / 8.0, 4.0 / 8.0, 0.0 / 8.0, 0.0 / 8.0)
  const L2: Weights := Weights(2.0 / 8.0, 4.0 / 8.0, 2.0 / 8.0, 0.0 / 8.0)
  const L3: Weights := Weights(1.0 / 8.0, 3.0 / 8.0, 3.0 / 8.0, 1.0 / 8.0)
  const R1: Weights := Weights(0.0 / 8.0, 2.0 / 8.0, 4.0 / 8.0, 2.0 / 8.0)
  const R2: Weights := Weights(0.0 / 8.0, 0.0 / 8.0, 4.0 / 8.0, 4.0 / 8.0)

  function WeightSum(k: Weights): real
  {
    k.ka + k.kb + k.kc + k.kd
  }

  /** `dot(k, {a, b, c, d})`: the blend of a cubic's four points, coordinate by coordinate. */
  function Dot(k: Weights, s: Segment): Point
    requires s.BezierCurve?
  {
    Point(k.ka * s.a.x + k.kb * s.b.x + k.kc * s.c.x + k.kd * s.d.x,
          k.ka * s.a.y + k.kb * s.b.y + k.kc * s.c.y + k.kd * s.d.y)
  }

  /** Where a segment starts. */
  function Start(s: Segment): Point
  {
    s.a
  }

  /** Where a segment ends. */
  function End(s: Segment): Point
  {
    match s
    case Line(_, b) => b
    case BezierCurve(_, _, _, d) => d
  }

  /** One coordinate of a cubic Bezier curve at parameter t (Bernstein form). */
  function Cubic(a: real, b: real, c: real, d: real, t: real): real
  {
    var s := 1.0 - t;
    s * s * s * a + 3.0 * s * s * t * b + 3.0 * s * t * t * c + t * t * t * d
  }

  /** One coordinate of a line at parameter t. */
  function Lerp(a: real, b: real, t: real): real
  {
    (1.0 - t) * a + t * b
  }

  /** The point of segment `s` at parameter `t` (t = 0 is its start, t = 1 its end). */
  function Eval(s: Segment, t: real): Point
  {
    match s
    case Line(a, b) => Point(Lerp(a.x, b.x, t), Lerp(a.y, b.y, t))
    case BezierCurve(a, b, c, d) => Point(Cubic(a.x, b.x, c.x, d.x, t), Cubic(a.y, b.y, c.y, d.y, t))
  }

  /**
   * `BezierCurve.split()`: the two halves by De Casteljau at t = 1/2. The
   * left half keeps `a`, the right half keeps `d`, and both meet at
   * m = (a + 3b + 3c + d) / 8, the curve's own point at t = 1/2.
   */
  function SplitCurve(s: Segment): (halves: (Segment, Segment))
    requires s.BezierCurve?
    ensures halves.0.BezierCurve? && halves.1.BezierCurve?
    ensures Start(halves.0) == Start(s) && End(halves.1) == End(s)
    ensures End(halves.0) == Start(halves.1) == Eval(s, 1.0 / 2.0)
  {
    var m := Dot(L3, s);
    (BezierCurve(s.a, Dot(L1, s), Dot(L2, s), m), BezierCurve(m, Dot(R1, s), Dot(R2, s), s.d))
  }

  /** `Line.split()`: the two halves at the coordinate-wise midpoint. */
  function SplitLine(s: Segment): (halves: (Segment, Segment))
    requires s.Line?
    ensures halves.0.Line? && halves.1.Line?
    ensures Start(halves.0) == Start(s) && End(halves.1) == End(s)
    ensures End(halves.0) == Start(halves.1) == Eval(s, 1.0 / 2.0)
  {
    var m := Point((s.a.x + s.b.x) / 2.0, (s.a.y + s.b.y) / 2.0);
    (Line(s.a, m), Line(m, s.b))
  }

  /** `segment.split()`, dispatched on the kind of segment as the two classes do. */
  function Split(s: Segment): (halves: (Segment, Segment))
    ensures Start(halves.0) == Start(s) && End(halves.1) == End(s)
    ensures End(halves.0) == Start(halves.1) == Eval(s, 1.0 / 2.0)
  {
    match s
    case Line(_, _) => SplitLine(s)
    case BezierCurve(_, _, _, _) => SplitCurve(s)
  }

  /** Every blend vector of the cubic halving sums to 1, so each new control point is an affine blend. */
  lemma BlendWeightsSumToOne()
    ensures WeightSum(L1) == 1.0 && WeightSum(L2) == 1.0 && WeightSum(L3) == 1.0
    ensures WeightSum(R1) == 1.0 && WeightSum(R2) == 1.0
  {
  }

  /** A blend vector that sums to 1 maps a cubic whose four points coincide to that point. */
  lemma DotOfSinglePoint(k: Weights, p: Point)
    requires WeightSum(k) == 1.0
    ensures Dot(k, BezierCurve(p, p, p, p)) == p
  {
    assert k.ka * p.x + k.kb * p.x + k.kc * p.x + k.kd * p.x == WeightSum(k) * p.x;
    assert k.ka * p.y + k.kb * p.y + k.kc * p.y + k.kd * p.y == WeightSum(k) * p.y;
  }

  /** The Bernstein form equals the power-basis form of a cubic. */
  lemma CubicPowerForm(a: real, b: real, c: real, d: real, t: real)
    ensures Cubic(a, b, c, d, t)
      == a + 3.0 * (b - a) * t + 3.0 * (a - 2.0 * b + c) * (t * t) + (d - 3.0 * c + 3.0 * b - a) * (t * t * t)
  {
  }

  /** One coordinate of the left half: at t it is the original at t/2. */
  lemma CubicLeftHalf(a: real, b: real, c: real, d: real, t: real)
    ensures Cubic(a, (a + b) / 2.0, (a + 2.0 * b + c) / 4.0, (a + 3.0 * b + 3.0 * c + d) / 8.0, t)
         == Cubic(a, b, c, d, t / 2.0)
  {
    CubicPowerForm(a, (a + b) / 2.0, (a + 2.0 * b + c) / 4.0, (a + 3.0 * b + 3.0 * c + d) / 8.0, t);
    CubicPowerForm(a, b, c, d, t / 2.0);
    assert (t / 2.0) * (t / 2.0) == (t * t) / 4.0;
    assert (t / 2.0) * (t / 2.0) * (t / 2.0) == (t * t * t) / 8.0;
  }

  /** One coordinate of the right half: at t it is the original at (1 + t)/2. */
  lemma CubicRightHalf(a: real, b: real, c: real, d: real, t: real)
    ensures Cubic((a + 3.0 * b + 3.0 * c + d) / 8.0, (b + 2.0 * c + d) / 4.0, (c + d) / 2.0, d, t)
         == Cubic(a, b, c, d, (1.0 + t) / 2.0)
  {
    CubicPowerForm((a + 3.0 * b + 3.0 * c + d) / 8.0, (b + 2.0 * c + d) / 4.0, (c + d) / 2.0, d, t);
    CubicPowerForm(a, b, c, d, (1.0 + t) / 2.0);
    var u := (1.0 + t) / 2.0;
    assert u * u == (1.0 + 2.0 * t + t * t) / 4.0;
    assert u * u * u == (1.0 + 3.0 * t + 3.0 * (t * t) + t * t * t) / 8.0;
  }

  /**
   * Exactness of the halving: the left half traced over [0, 1] is the
   * original traced over [0, 1/2], and the right half is the original over
   * [1/2, 1]. Holds for both kinds of segment.
   */
  lemma SplitReparametrises(s: Segment, t: real)
    ensures Eval(Split(s).0, t) == Eval(s, t / 2.0)
    ensures Eval(Split(s).1, t) == Eval(s, (1.0 + t) / 2.0)
  {
    match s
    case Line(a, b) =>
    case BezierCurve(a, b, c, d) =>
      var h := SplitCurve(s);
      assert h.0.b == Point((a.x + b.x) / 2.0, (a.y + b.y) / 2.0);
      assert h.0.c == Point((a.x + 2.0 * b.x + c.x) / 4.0, (a.y + 2.0 * b.y + c.y) / 4.0);
      assert h.0.d == Point((a.x + 3.0 * b.x + 3.0 * c.x + d.x) / 8.0, (a.y + 3.0 * b.y + 3.0 * c.y + d.y) / 8.0);
      assert h.1.b == Point((b.x + 2.0 * c.x + d.x) / 4.0, (b.y + 2.0 * c.y + d.y) / 4.0);
      assert h.1.c == Point((c.x + d.x) / 2.0, (c.y + d.y) / 2.0);
      CubicLeftHalf(a.x, b.x, c.x, d.x, t);
      CubicLeftHalf(a.y, b.y, c.y, d.y, t);
      CubicRightHalf(a.x, b.x, c.x, d.x, t);
      CubicRightHalf(a.y, b.y, c.y, d.y, t);
  }
}
