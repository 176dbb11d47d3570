/** Option and Result types standing for the source's null returns and exceptions. */
module Wrappers {

  datatype Option<+T> = None | Some(value: T)

  /** The outcome of an operation that either completes or throws. */
  datatype Outcome<+E> = Pass | Fail(error: E)

  datatype Result<+R, +E> = Success(value: R) | Failure(error: E)
}

/**
 * Java's integer and floating-point primitives in Dafny's terms:
 * 32-bit wrap-around, truncating division, Math.floor and Math.round.
 * Floating-point values are modelled as reals, without rounding.
 */
module JavaMath {

  const IntMin: int := -0x8000_0000
  const IntMax: int := 0x7fff_ffff

  /** True when x is a value of Java's 32-bit `int`. */
  predicate IsInt32(x: int) {
    IntMin <= x <= IntMax
  }

  /** Reduces a mathematical integer to Java's 32-bit two's complement range. */
  function Wrap32(x: int): (r: int)
    ensures IsInt32(r)
    ensures IsInt32(x) ==> r == x
    ensures (r - x) % 0x1_0000_0000 == 0
  {
    (x - IntMin) % 0x1_0000_0000 + IntMin
  }

  /** Java's `a / b` on ints: the quotient rounded toward zero (Dafny's `/` is Euclidean). */
  function JavaDiv(a: int, b: int): (q: int)
    requires b > 0
    ensures a >= 0 ==> q == a / b
    ensures a < 0 ==> q == -((-a) / b)
    ensures q * b <= a < q * b + b || q * b - b < a <= q * b
  {
    if a >= 0 then a / b else -((-a) / b)
  }

  /** 2 raised to the natural power k. */
  function Pow2(k: nat): (p: nat)
    ensures p >= 1
  {
    if k == 0 then 1 else 2 * Pow2(k - 1)
  }

  /**
   * `(x >> k) & 0xFF` on a Java int x: bits k to k + 7 of its two's
   * complement pattern. Dafny's `/` by a positive divisor rounds toward
   * negative infinity, which is exactly Java's arithmetic shift.
   */
  function ByteAt(x: int, k: nat): (c: int)
    ensures 0 <= c < 256
  {
    (x / Pow2(k)) % 256
  }

  /** `x & 0xFFFFFF` on a Java int: the low 24 bits of its two's complement pattern. */
  function Low24(x: int): (r: int)
    ensures 0 <= r < 0x100_0000
    ensures 0 <= x < 0x100_0000 ==> r == x
    ensures (x - r) % 0x100_0000 == 0
  {
    x % 0x100_0000
  }

  /**
   * Java's float remainder `a % b`: the result has the sign of a and a
   * magnitude below b (the quotient is truncated toward zero).
   */
  function FloatRem(a: real, b: real): (r: real)
    requires b > 0.0
    ensures a >= 0.0 ==> 0.0 <= r < b
    ensures a < 0.0 ==> -b < r <= 0.0
    ensures -b < a < b ==> r == a
  {
    if a >= 0.0 then a - TruncQuotient(a, b) * b
    else -((-a) - TruncQuotient(-a, b) * b)
  }

  /** floor(a / b) for a >= 0, b > 0, with the remainder bound it implies. */
  function TruncQuotient(a: real, b: real): (q: real)
    requires a >= 0.0 && b > 0.0
    ensures 0.0 <= a - q * b < b
    ensures a < b ==> q == 0.0
  {
    var k := (a / b).Floor as real;
    QuotientBounds(a, b, k);
    assert k > -1.0 by {
      if k <= -1.0 {
        ScaleMonotone(k, -1.0, b);
      }
    }
    assert a < b ==> a / b < 1.0 by {
      if a < b {
        QuotientBelowOne(a, b);
      }
    }
    k
  }

  lemma QuotientBelowOne(a: real, b: real)
    requires a < b && b > 0.0
    ensures a / b < 1.0
  {
    var q := a / b;
    assert (1.0 - q) * b == b - a;
  }

  lemma QuotientBounds(a: real, b: real, k: real)
    requires b > 0.0 && k <= a / b < k + 1.0
    ensures k * b <= a < k * b + b
  {
    var q := a / b;
    ScaleMonotone(k, q, b);
    ScaleMonotone(q, k + 1.0, b);
    assert q * b == a;
    assert (k + 1.0) * b == k * b + b;
  }

  lemma ScaleMonotone(x: real, y: real, b: real)
    requires x <= y && b > 0.0
    ensures x * b <= y * b
    ensures x < y ==> x * b < y * b
  {
    assert y * b - x * b == (y - x) * b;
  }

  /** `Math.floor` followed by an `(int)` cast. */
  function Floor(x: real): (r: int)
    ensures r as real <= x < r as real + 1.0
  {
    x.Floor
  }

  /** Java's `Math.round(float)`: the floor of `x + 0.5`. */
  function Round(x: real): (r: int)
    ensures x - 0.5 < r as real <= x + 0.5
  {
    (x + 0.5).Floor
  }

  /** `Math.max(lo, Math.min(hi, x))` on ints. */
  function ClampInt(x: int, lo: int, hi: int): (r: int)
    requires lo <= hi
    ensures lo <= r <= hi
    ensures lo <= x <= hi ==> r == x
    ensures x < lo ==> r == lo
    ensures x > hi ==> r == hi
  {
    if x < lo then lo else if x > hi then hi else x
  }

  function MinReal(a: real, b: real): real { if a <= b then a else b }
  function MaxReal(a: real, b: real): real { if a >= b then a else b }

  /** `Math.max(lo, Math.min(hi, x))` on reals (Java evaluates the `min` first). */
  function ClampReal(x: real, lo: real, hi: real): (r: real)
    requires lo <= hi
    ensures lo <= r <= hi
    ensures lo <= x <= hi ==> r == x
  {
    MaxReal(lo, MinReal(hi, x))
  }

  function Abs(x: real): real { if x < 0.0 then -x else x }
  function AbsInt(x: int): int { if x < 0 then -x else x }

  /** b raised to the natural power n. */
  function Pow(b: real, n: nat): real {
    if n == 0 then 1.0 else b * Pow(b, n - 1)
  }

  lemma {:induction false} PowPositive(b: real, n: nat)
    requires b > 0.0
    ensures Pow(b, n) > 0.0
  {
    if n > 0 {
      PowPositive(b, n - 1);
    }
  }
}
