/**
 * The two interpolation primitives shared by the warp noise and the chunk
 * generator: linear interpolation and the cubic smoothstep easing curve.
 */
module Interpolation {

  /** `a + t * (b - a)`: the point a fraction t of the way from a to b. */
  function Lerp(t: real, a: real, b: real): real {
    a + t * (b - a)
  }

  /** `t * t * (3 - 2 * t)`, the cubic Hermite easing curve. */
  function SmoothStep(t: real): real {
    t * t * (3.0 - 2.0 * t)
  }

  function Min(a: real, b: real): real { if a <= b then a else b }
  function Max(a: real, b: real): real { if a >= b then a else b }

  /** For a weight in [0, 1], Lerp stays between its two end points. */
  lemma LerpBetween(t: real, a: real, b: real)
    requires 0.0 <= t <= 1.0
    ensures Min(a, b) <= Lerp(t, a, b) <= Max(a, b)
  {
    var d := b - a;
    if a <= b {
      ScaleBetween(t, d);
    } else {
      ScaleBetween(t, -d);
      assert t * (-d) == -(t * d);
    }
    assert Lerp(t, a, b) == a + t * d;
  }

  lemma ScaleBetween(t: real, d: real)
    requires 0.0 <= t <= 1.0 && d >= 0.0
    ensures 0.0 <= t * d <= d
  {
    assert d - t * d == (1.0 - t) * d;
  }

  /** For a weight in [0, 1], Lerp of two values in [lo, hi] stays in [lo, hi]. */
  lemma LerpWithin(t: real, a: real, b: real, lo: real, hi: real)
    requires 0.0 <= t <= 1.0
    requires lo <= a <= hi && lo <= b <= hi
    ensures lo <= Lerp(t, a, b) <= hi
  {
    LerpBetween(t, a, b);
  }

  /** Bilinear interpolation of four corner values: first along x with weight ux, then along z with weight uz. */
  function Bilerp(ux: real, uz: real, v00: real, v10: real, v01: real, v11: real): real {
    Lerp(uz, Lerp(ux, v00, v10), Lerp(ux, v01, v11))
  }

  /** For weights in [0, 1], Bilerp of four corners in [lo, hi] stays in [lo, hi]. */
  lemma BilerpWithin(ux: real, uz: real, v00: real, v10: real, v01: real, v11: real, lo: real, hi: real)
    requires 0.0 <= ux <= 1.0 && 0.0 <= uz <= 1.0
    requires lo <= v00 <= hi && lo <= v10 <= hi && lo <= v01 <= hi && lo <= v11 <= hi
    ensures lo <= Bilerp(ux, uz, v00, v10, v01, v11) <= hi
  {
    LerpWithin(ux, v00, v10, lo, hi);
    LerpWithin(ux, v01, v11, lo, hi);
    LerpWithin(uz, Lerp(ux, v00, v10), Lerp(ux, v01, v11), lo, hi);
  }

  /** For weights in [0, 1], Bilerp lies between the smallest and the largest corner. */
  lemma BilerpBetween(ux: real, uz: real, v00: real, v10: real, v01: real, v11: real)
    requires 0.0 <= ux <= 1.0 && 0.0 <= uz <= 1.0
    ensures Min(Min(v00, v10), Min(v01, v11)) <= Bilerp(ux, uz, v00, v10, v01, v11) <= Max(Max(v00, v10), Max(v01, v11))
  {
    BilerpWithin(ux, uz, v00, v10, v01, v11, Min(Min(v00, v10), Min(v01, v11)), Max(Max(v00, v10), Max(v01, v11)));
  }

  /** At weights (0, 0) Bilerp is its first corner. */
  lemma BilerpOrigin(v00: real, v10: real, v01: real, v11: real)
    ensures Bilerp(0.0, 0.0, v00, v10, v01, v11) == v00
  {
    LerpEnds(v00, v10);
    LerpEnds(v01, v11);
    LerpEnds(v00, Lerp(0.0, v01, v11));
  }

  /** Lerp reproduces its end points at weights 0 and 1. */
  lemma LerpEnds(a: real, b: real)
    ensures Lerp(0.0, a, b) == a && Lerp(1.0, a, b) == b
  {
  }

  /** Smoothstep maps [0, 1] into [0, 1]. */
  lemma SmoothStepRange(t: real)
    requires 0.0 <= t <= 1.0
    ensures 0.0 <= SmoothStep(t) <= 1.0
  {
    var s := t * t;
    assert 0.0 <= s <= 1.0 by { ScaleBetween(t, t); }
    assert 1.0 <= 3.0 - 2.0 * t;
    assert SmoothStep(t) == s * (3.0 - 2.0 * t);
    assert 0.0 <= s * (3.0 - 2.0 * t);
    // 1 - t^2 (3 - 2t) = (1 - t)^2 (1 + 2t)
    assert 1.0 - SmoothStep(t) == (1.0 - t) * (1.0 - t) * (1.0 + 2.0 * t);
    MulNonNegative((1.0 - t) * (1.0 - t), 1.0 + 2.0 * t);
  }

  lemma MulNonNegative(a: real, b: real)
    requires a >= 0.0 && b >= 0.0
    ensures a * b >= 0.0
  {
  }

  /** Smoothstep fixes both end points of [0, 1]. */
  lemma SmoothStepEnds()
    ensures SmoothStep(0.0) == 0.0 && SmoothStep(1.0) == 1.0
  {
  }

  /** Smoothstep is non-decreasing on [0, 1]. */
  lemma SmoothStepMonotone(s: real, t: real)
    requires 0.0 <= s <= t <= 1.0
    ensures SmoothStep(s) <= SmoothStep(t)
  {
    CofactorNonNegative(s, t);
    SmoothStepDifference(s, t);
  }

  /**
   * f(t) - f(s) = (t - s) k with k = 3 (t + s) - 2 (t^2 + t s + s^2) for
   * f = SmoothStep, so f(s) <= f(t) when k >= 0.
   */
  lemma SmoothStepDifference(s: real, t: real)
    requires s <= t && 3.0 * (t + s) - 2.0 * (t * t + t * s + s * s) >= 0.0
    ensures SmoothStep(s) <= SmoothStep(t)
  {
    var k := 3.0 * (t + s) - 2.0 * (t * t + t * s + s * s);
    assert SmoothStep(t) - SmoothStep(s) == (t - s) * k;
    MulNonNegative(t - s, k);
  }

  /** For 0 <= s <= t <= 1 the cofactor k of t - s is non-negative, since t^2 <= t, t s <= s and s^2 <= s. */
  lemma CofactorNonNegative(s: real, t: real)
    requires 0.0 <= s <= t <= 1.0
    ensures 3.0 * (t + s) - 2.0 * (t * t + t * s + s * s) >= 0.0
  {
    ScaleBetween(t, t);
    ScaleBetween(s, s);
    ScaleBetween(t, s);
    var tt, ts, ss := t * t, t * s, s * s;
    assert tt <= t && ts <= s && ss <= s;
    assert 3.0 * (t + s) - 2.0 * (tt + ts + ss) >= t - s;
  }
}
