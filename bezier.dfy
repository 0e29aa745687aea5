/** Cubic Bezier curves (Assets/Scripts/Utils/BezierCurve.cs).
    Vectors are exact real triples; the single-precision arithmetic of the
    engine's Vector3 is not modelled. */
module Bezier {

  datatype Vec3 = Vec3(x: real, y: real, z: real)

  const Zero := Vec3(0.0, 0.0, 0.0)

  function Add(a: Vec3, b: Vec3): Vec3 {
    Vec3(a.x + b.x, a.y + b.y, a.z + b.z)
  }

  function Sub(a: Vec3, b: Vec3): Vec3 {
    Vec3(a.x - b.x, a.y - b.y, a.z - b.z)
  }

  function Scale(a: Vec3, k: real): Vec3 {
    Vec3(a.x * k, a.y * k, a.z * k)
  }

  /** The weighted sum a*wa + b*wb + c*wc + d*wd, grouped as the source groups it. */
  function Combine(a: Vec3, wa: real, b: Vec3, wb: real, c: Vec3, wc: real, d: Vec3, wd: real): Vec3 {
    Add(Add(Add(Scale(a, wa), Scale(b, wb)), Scale(c, wc)), Scale(d, wd))
  }

  /** The cubic Bernstein weights, as BezierCurve.GetPoint computes them from
      omt = 1 - t, omt2 = omt * omt and t2 = t * t. */
  function PointWeight0(t: real): real { (1.0 - t) * (1.0 - t) * (1.0 - t) }
  function PointWeight1(t: real): real { 3.0 * ((1.0 - t) * (1.0 - t)) * t }
  function PointWeight2(t: real): real { 3.0 * (1.0 - t) * (t * t) }
  function PointWeight3(t: real): real { t * t * t }

  /** The weights of BezierCurve.GetTangent, before normalisation. */
  function TangentWeight0(t: real): real { -((1.0 - t) * (1.0 - t)) }
  function TangentWeight1(t: real): real { 3.0 * ((1.0 - t) * (1.0 - t)) - 2.0 * (1.0 - t) }
  function TangentWeight2(t: real): real { -3.0 * (t * t) + 2.0 * t }
  function TangentWeight3(t: real): real { t * t }

  /** BezierCurve.GetPoint: the cubic Bernstein combination of the first four points.
      The parameter is not clamped. */
  function GetPoint(pts: seq<Vec3>, t: real): Vec3
    requires |pts| >= 4
  {
    Combine(pts[0], PointWeight0(t), pts[1], PointWeight1(t), pts[2], PointWeight2(t), pts[3], PointWeight3(t))
  }

  /** The vector BezierCurve.GetTangent computes before it normalises it.
      The parameter is not clamped. */
  function RawTangent(pts: seq<Vec3>, t: real): Vec3
    requires |pts| >= 4
  {
    Combine(pts[0], TangentWeight0(t), pts[1], TangentWeight1(t), pts[2], TangentWeight2(t), pts[3], TangentWeight3(t))
  }

  /** The hodograph of the curve, divided by three: the quadratic Bezier curve over the
      differences of consecutive control points. An independent reference for RawTangent. */
  function Hodograph(pts: seq<Vec3>, t: real): Vec3
    requires |pts| >= 4
  {
    var omt := 1.0 - t;
    Add(Add(Scale(Sub(pts[1], pts[0]), omt * omt),
            Scale(Sub(pts[2], pts[1]), 2.0 * omt * t)),
        Scale(Sub(pts[3], pts[2]), t * t))
  }

  function Reverse4(pts: seq<Vec3>): (r: seq<Vec3>)
    requires |pts| >= 4
    ensures |r| == 4 && r[0] == pts[3] && r[1] == pts[2] && r[2] == pts[1] && r[3] == pts[0]
  {
    [pts[3], pts[2], pts[1], pts[0]]
  }

  /** The four Bernstein weights sum to one. */
  lemma WeightsSumToOne(t: real)
    ensures PointWeight0(t) + PointWeight1(t) + PointWeight2(t) + PointWeight3(t) == 1.0
  {
    var omt := 1.0 - t;
    calc {
      PointWeight0(t) + PointWeight1(t) + PointWeight2(t) + PointWeight3(t);
      omt * omt * omt + 3.0 * (omt * omt) * t + 3.0 * omt * (t * t) + t * t * t;
      (omt + t) * (omt + t) * (omt + t);
      1.0;
    }
  }

  /** The four tangent weights sum to zero. */
  lemma TangentWeightsSumToZero(t: real)
    ensures TangentWeight0(t) + TangentWeight1(t) + TangentWeight2(t) + TangentWeight3(t) == 0.0
  {
    var omt := 1.0 - t;
    calc {
      TangentWeight0(t) + TangentWeight1(t) + TangentWeight2(t) + TangentWeight3(t);
      2.0 * (omt * omt) - 2.0 * omt - 2.0 * (t * t) + 2.0 * t;
      2.0 * omt * (omt - 1.0) + 2.0 * t * (1.0 - t);
      { assert omt - 1.0 == -t; assert 1.0 - t == omt; }
      2.0 * omt * -t + 2.0 * t * omt;
      0.0;
    }
  }

  lemma ScaleByZero(a: Vec3, k: real)
    requires k == 0.0
    ensures Scale(a, k) == Zero
  {
  }

  lemma ScaleByOne(a: Vec3, k: real)
    requires k == 1.0
    ensures Scale(a, k) == a
  {
  }

  lemma ScaleByMinusOne(a: Vec3, k: real)
    requires k == -1.0
    ensures Scale(a, k) == Sub(Zero, a)
  {
  }

  /** The curve starts at the first point. */
  lemma PointAtStart(pts: seq<Vec3>)
    requires |pts| >= 4
    ensures GetPoint(pts, 0.0) == pts[0]
  {
    ScaleByOne(pts[0], PointWeight0(0.0));
    ScaleByZero(pts[1], PointWeight1(0.0));
    ScaleByZero(pts[2], PointWeight2(0.0));
    ScaleByZero(pts[3], PointWeight3(0.0));
  }

  /** The curve ends at the fourth point. */
  lemma PointAtEnd(pts: seq<Vec3>)
    requires |pts| >= 4
    ensures GetPoint(pts, 1.0) == pts[3]
  {
    ScaleByZero(pts[0], PointWeight0(1.0));
    ScaleByZero(pts[1], PointWeight1(1.0));
    ScaleByZero(pts[2], PointWeight2(1.0));
    ScaleByOne(pts[3], PointWeight3(1.0));
  }

  /** A combination of one repeated point is that point scaled by the sum of the weights. */
  lemma CombineSame(p: Vec3, wa: real, wb: real, wc: real, wd: real)
    ensures Combine(p, wa, p, wb, p, wc, p, wd) == Scale(p, wa + wb + wc + wd)
  {
    assert p.x * wa + p.x * wb + p.x * wc + p.x * wd == p.x * (wa + wb + wc + wd);
    assert p.y * wa + p.y * wb + p.y * wc + p.y * wd == p.y * (wa + wb + wc + wd);
    assert p.z * wa + p.z * wb + p.z * wc + p.z * wd == p.z * (wa + wb + wc + wd);
  }

  /** Four coincident control points give a constant curve, for every t,
      including values outside [0, 1] since t is not clamped. */
  lemma CoincidentPointsConstant(p: Vec3, t: real)
    ensures GetPoint([p, p, p, p], t) == p
  {
    var pts := [p, p, p, p];
    assert GetPoint(pts, t) == Combine(p, PointWeight0(t), p, PointWeight1(t), p, PointWeight2(t), p, PointWeight3(t));
    CombineSame(p, PointWeight0(t), PointWeight1(t), PointWeight2(t), PointWeight3(t));
    WeightsSumToOne(t);
    ScaleByOne(p, PointWeight0(t) + PointWeight1(t) + PointWeight2(t) + PointWeight3(t));
  }

  /** Traversing the control polygon backwards with 1 - t traces the same points. */
  lemma ReversalSymmetry(pts: seq<Vec3>, t: real)
    requires |pts| >= 4
    ensures GetPoint(Reverse4(pts), 1.0 - t) == GetPoint(pts, t)
  {
    var s := 1.0 - t;
    assert 1.0 - s == t;
    assert PointWeight0(s) == PointWeight3(t);
    assert PointWeight1(s) == PointWeight2(t);
    assert PointWeight2(s) == PointWeight1(t);
    assert PointWeight3(s) == PointWeight0(t);
  }

  /** A combination whose weights are the backward differences of (h0, h1, h2) is the
      quadratic combination of the control polygon's legs with weights h0, h1, h2. */
  lemma CombineAsLegs(a: Vec3, b: Vec3, c: Vec3, d: Vec3, h0: real, h1: real, h2: real)
    ensures Combine(a, -h0, b, h0 - h1, c, h1 - h2, d, h2)
         == Add(Add(Scale(Sub(b, a), h0), Scale(Sub(c, b), h1)), Scale(Sub(d, c), h2))
  {
    assert a.x * -h0 + b.x * (h0 - h1) + c.x * (h1 - h2) + d.x * h2
        == (b.x - a.x) * h0 + (c.x - b.x) * h1 + (d.x - c.x) * h2;
    assert a.y * -h0 + b.y * (h0 - h1) + c.y * (h1 - h2) + d.y * h2
        == (b.y - a.y) * h0 + (c.y - b.y) * h1 + (d.y - c.y) * h2;
    assert a.z * -h0 + b.z * (h0 - h1) + c.z * (h1 - h2) + d.z * h2
        == (b.z - a.z) * h0 + (c.z - b.z) * h1 + (d.z - c.z) * h2;
  }

  /** The unnormalised tangent is the hodograph over three (so it points along the derivative). */
  lemma RawTangentIsHodograph(pts: seq<Vec3>, t: real)
    requires |pts| >= 4
    ensures RawTangent(pts, t) == Hodograph(pts, t)
  {
    var omt := 1.0 - t;
    var h0, h1, h2 := omt * omt, 2.0 * omt * t, t * t;
    assert TangentWeight1(t) == h0 - h1 by {
      assert TangentWeight1(t) == omt * (3.0 * omt - 2.0);
      assert h0 - h1 == omt * (omt - 2.0 * t);
      assert 3.0 * omt - 2.0 == omt - 2.0 * t;
    }
    assert TangentWeight2(t) == h1 - h2 by {
      assert TangentWeight2(t) == t * (2.0 - 3.0 * t);
      assert h1 - h2 == t * (2.0 * omt - t);
      assert 2.0 - 3.0 * t == 2.0 * omt - t;
    }
    CombineAsLegs(pts[0], pts[1], pts[2], pts[3], h0, h1, h2);
  }

  /** At t = 0 the tangent is the first leg of the control polygon. */
  lemma TangentAtStart(pts: seq<Vec3>)
    requires |pts| >= 4
    ensures RawTangent(pts, 0.0) == Sub(pts[1], pts[0])
  {
    ScaleByMinusOne(pts[0], TangentWeight0(0.0));
    ScaleByOne(pts[1], TangentWeight1(0.0));
    ScaleByZero(pts[2], TangentWeight2(0.0));
    ScaleByZero(pts[3], TangentWeight3(0.0));
  }

  /** At t = 1 the tangent is the last leg of the control polygon. */
  lemma TangentAtEnd(pts: seq<Vec3>)
    requires |pts| >= 4
    ensures RawTangent(pts, 1.0) == Sub(pts[3], pts[2])
  {
    ScaleByZero(pts[0], TangentWeight0(1.0));
    ScaleByZero(pts[1], TangentWeight1(1.0));
    ScaleByMinusOne(pts[2], TangentWeight2(1.0));
    ScaleByOne(pts[3], TangentWeight3(1.0));
  }

  /** Four coincident points give the zero tangent vector: the degenerate input that
      the source then normalises. */
  lemma CoincidentPointsZeroTangent(p: Vec3, t: real)
    ensures RawTangent([p, p, p, p], t) == Zero
  {
    var pts := [p, p, p, p];
    assert RawTangent(pts, t) == Combine(p, TangentWeight0(t), p, TangentWeight1(t), p, TangentWeight2(t), p, TangentWeight3(t));
    CombineSame(p, TangentWeight0(t), TangentWeight1(t), TangentWeight2(t), TangentWeight3(t));
    TangentWeightsSumToZero(t);
    ScaleByZero(p, TangentWeight0(t) + TangentWeight1(t) + TangentWeight2(t) + TangentWeight3(t));
  }
}
