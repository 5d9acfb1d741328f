/** The floating-point intrinsics the ray tracer calls, idealised over the reals.

    `sqrt`, `tan` and `sin_cos` are not computed here: they are supplied as a
    record of total functions, and every property that depends on them names
    the law it needs (`IsSqrt`, `IsSinCos`) as a premise. */
module Maths {

  datatype Libm = Libm(sqrt: real -> real, tan: real -> real, sinCos: real -> (real, real))

  /** `sqrt` returns the non-negative square root of every non-negative argument. */
  ghost predicate IsSqrt(sqrt: real -> real) {
    forall x: real :: 0.0 <= x ==> 0.0 <= sqrt(x) && sqrt(x) * sqrt(x) == x
  }

  /** `sinCos(a)` is a pair (s, c) on the unit circle. */
  ghost predicate IsSinCos(sinCos: real -> (real, real)) {
    forall a: real :: sinCos(a).0 * sinCos(a).0 + sinCos(a).1 * sinCos(a).1 == 1.0
  }

  /** The value of `std::f64::consts::PI`, written in decimal. */
  const Pi: real := 3.141592653589793

  function Abs(x: real): (r: real)
    ensures 0.0 <= r && (r == x || r == -x)
  {
    if x < 0.0 then -x else x
  }

  function Max(a: real, b: real): (r: real)
    ensures a <= r && b <= r && (r == a || r == b)
  {
    if a < b then b else a
  }

  lemma SquareNonNegative(a: real)
    ensures 0.0 <= a * a
  {
    if a < 0.0 {
      MulLeftStrict(-a, a, 0.0);
    }
  }

  /** The two laws of `sqrt` at one argument. */
  lemma SqrtFacts(sqrt: real -> real, x: real)
    requires IsSqrt(sqrt) && 0.0 <= x
    ensures 0.0 <= sqrt(x) && sqrt(x) * sqrt(x) == x
  {
  }

  /** Multiplying by a non-negative factor keeps an inequality. */
  lemma MulLeft(p: real, q: real, r: real)
    requires 0.0 <= p && q <= r
    ensures p * q <= p * r
  {
    assert p * (r - q) >= 0.0;
  }

  lemma MulRight(p: real, q: real, r: real)
    requires 0.0 <= p && q <= r
    ensures q * p <= r * p
  {
    assert (r - q) * p >= 0.0;
  }

  /** Multiplication of naturals is monotone in its left factor. */
  lemma MulMonotoneNat(a: nat, b: nat, h: nat)
    requires a <= b
    ensures a * h <= b * h
  {
    assert (b - a) * h >= 0;
  }

  lemma MulSucc(a: nat, n: nat)
    ensures (a + 1) * n == a * n + n
  {
  }

  /** Distinct multiples of `h` are at least `h` apart. */
  lemma MulGap(a: nat, b: nat, h: nat)
    ensures a < b ==> a * h + h <= b * h
  {
    if a < b {
      MulSucc(a, h);
      MulMonotoneNat(a + 1, b, h);
    }
  }

  lemma MulLeftStrict(p: real, q: real, r: real)
    requires 0.0 < p && q < r
    ensures p * q < p * r
  {
    assert p * (r - q) > 0.0;
  }

  /** `MulLeft` as an implication, for use where its premise is only a case. */
  lemma MulLeftWhen(p: real, q: real, r: real)
    ensures 0.0 <= p && q <= r ==> p * q <= p * r
  {
    if 0.0 <= p && q <= r {
      MulLeft(p, q, r);
    }
  }

  /** A positive product with a positive factor has a positive co-factor. */
  lemma ProductPositive(p: real, q: real)
    requires 0.0 < q && 0.0 < p * q
    ensures 0.0 < p
  {
    MulLeftWhen(q, p, 0.0);
  }

  /** Squaring is strictly increasing on the non-negative reals. */
  lemma SquareMonotone(s: real, a: real)
    requires 0.0 <= s < a
    ensures s * s < a * a
  {
    calc {
      s * s;
    <= { MulLeft(s, s, a); }
      s * a;
    < { MulLeftStrict(a, s, a); }
      a * a;
    }
  }

  lemma SquareMonotoneWhen(s: real, a: real)
    ensures 0.0 <= s < a ==> s * s < a * a
  {
    if 0.0 <= s < a {
      SquareMonotone(s, a);
    }
  }

  /** A non-negative square root of a square is the absolute value. */
  lemma SquareRootUnique(s: real, x: real)
    requires 0.0 <= s && s * s == x * x
    ensures s == Abs(x)
  {
    var a := Abs(x);
    assert a * a == x * x;
    SquareMonotoneWhen(s, a);
    SquareMonotoneWhen(a, s);
  }

  lemma SqrtOfSquare(sqrt: real -> real, x: real)
    requires IsSqrt(sqrt)
    ensures sqrt(x * x) == Abs(x)
  {
    var s := sqrt(x * x);
    assert 0.0 <= x * x;
    SquareRootUnique(s, x);
  }

  lemma SqrtZero(sqrt: real -> real)
    requires IsSqrt(sqrt)
    ensures sqrt(0.0) == 0.0
  {
    SqrtOfSquare(sqrt, 0.0);
  }

  lemma SqrtOne(sqrt: real -> real)
    requires IsSqrt(sqrt)
    ensures sqrt(1.0) == 1.0
  {
    SqrtOfSquare(sqrt, 1.0);
  }

  /** The square root of anything at least 1 is at least 1. */
  lemma SqrtAtLeastOne(sqrt: real -> real, x: real)
    requires IsSqrt(sqrt) && 1.0 <= x
    ensures 1.0 <= sqrt(x)
  {
    var s := sqrt(x);
    assert 0.0 <= s && s * s == x;
    SquareMonotoneWhen(s, 1.0);
  }
}
