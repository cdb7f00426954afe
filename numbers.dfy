/**
 The number operations the vector type relies on, over exact reals: the
 absolute value written as a ternary, and the host language's `%` operator,
 which on finite operands is a truncated remainder whose sign follows the
 dividend (ECMA-262, section 6.1.6.1.6, Number::remainder). Dafny's own `%`
 is Euclidean and defined on `int` only, so it is spelled out here.
 */
module Numbers {

  /** `q` has no fractional part. */
  predicate IsIntegral(q: real) {
    q.Floor as real == q
  }

  /** `a` is an integer multiple of the non-zero step `s`. */
  predicate IsMultipleOf(a: real, s: real)
    requires s != 0.0
  {
    IsIntegral(a / s)
  }

  /** The ternary `a < 0 ? -a : a`. */
  function Magnitude(a: real): (r: real)
    ensures r >= 0.0
    ensures r == a || r == -a
    ensures a >= 0.0 ==> r == a
  {
    if a < 0.0 then -a else a
  }

  /** Rounds toward zero: the integer part of `q` with the sign of `q`. */
  function Trunc(q: real): (t: int)
    ensures q >= 0.0 ==> 0 <= t && t as real <= q < t as real + 1.0
    ensures q < 0.0 ==> t <= 0 && t as real - 1.0 < q <= t as real
  {
    if q >= 0.0 then q.Floor else -((-q).Floor)
  }

  /**
   Number::remainder for a finite dividend `n` and a finite non-zero divisor
   `d`: what is left of `n` after taking away the largest multiple of `d`
   whose magnitude does not exceed that of `n`.
   */
  function Rem(n: real, d: real): (r: real)
    requires d != 0.0
    ensures IsMultipleOf(n - r, d)
    ensures n >= 0.0 ==> 0.0 <= r < Magnitude(d)
    ensures n < 0.0 ==> -Magnitude(d) < r <= 0.0
  {
    var t := Trunc(n / d);
    IntegerTimesIsMultiple(t, d);
    TruncRemainderBounds(n, d, t);
    n - t as real * d
  }

  lemma IntegerTimesIsMultiple(k: int, s: real)
    requires s != 0.0
    ensures IsMultipleOf(k as real * s, s)
  {
    assert (k as real * s) / s == k as real;
  }

  /** Multiplying the bounds of `Trunc(n / d)` back by `d`. */
  lemma TruncRemainderBounds(n: real, d: real, t: int)
    requires d != 0.0 && t == Trunc(n / d)
    ensures n >= 0.0 ==> 0.0 <= n - t as real * d < Magnitude(d)
    ensures n < 0.0 ==> -Magnitude(d) < n - t as real * d <= 0.0
  {
    var q := n / d;
    QuotientSign(n, d);
    FractionOfStep(n - t as real * d, q - t as real, d);
  }

  /** `r` is the fraction `f` of the step `d`; a fraction under one keeps `r` under one step. */
  lemma FractionOfStep(r: real, f: real, d: real)
    requires d != 0.0 && r == f * d
    ensures 0.0 <= f < 1.0 && d > 0.0 ==> 0.0 <= r < d
    ensures 0.0 <= f < 1.0 && d < 0.0 ==> d < r <= 0.0
    ensures -1.0 < f <= 0.0 && d > 0.0 ==> -d < r <= 0.0
    ensures -1.0 < f <= 0.0 && d < 0.0 ==> 0.0 <= r < -d
  {
    if d > 0.0 {
      ScaleByPositive(f, 1.0, d, r, d);
      ScaleByPositive(0.0, f, d, 0.0, r);
      ScaleByPositive(-1.0, f, d, -d, r);
      ScaleByPositive(f, 0.0, d, r, 0.0);
    } else {
      ScaleByNegative(f, 1.0, d, r, d);
      ScaleByNegative(0.0, f, d, 0.0, r);
      ScaleByNegative(-1.0, f, d, -d, r);
      ScaleByNegative(f, 0.0, d, r, 0.0);
    }
  }

  /** The quotient `n / d` is positive, zero or negative as the signs of `n` and `d` say. */
  lemma QuotientSign(n: real, d: real)
    requires d != 0.0
    ensures (n / d) * d == n
    ensures n / d > 0.0 <==> (n > 0.0 && d > 0.0) || (n < 0.0 && d < 0.0)
    ensures n / d == 0.0 <==> n == 0.0
  {
  }

  /** Multiplying by a positive number keeps an order: `am` is `a * m` and `bm` is `b * m`. */
  lemma ScaleByPositive(a: real, b: real, m: real, am: real, bm: real)
    requires m > 0.0 && am == a * m && bm == b * m
    ensures a <= b ==> am <= bm
    ensures a < b ==> am < bm
  {
  }

  /** Multiplying by a negative number reverses an order: `am` is `a * m` and `bm` is `b * m`. */
  lemma ScaleByNegative(a: real, b: real, m: real, am: real, bm: real)
    requires m < 0.0 && am == a * m && bm == b * m
    ensures a <= b ==> am >= bm
    ensures a < b ==> am > bm
  {
  }

  /** Every multiple of `s` is `k * s` for the integer `k == a / s`. */
  lemma MultipleForm(a: real, s: real)
    requires s != 0.0 && IsMultipleOf(a, s)
    ensures a == (a / s).Floor as real * s
  {
  }

  /**
   Two multiples of `s` lying closer together than `|s|` coincide: the
   multiples of a step are exactly `|s|` apart.
   */
  lemma {:induction false} MultiplesCloserThanStepAreEqual(a: real, b: real, s: real)
    requires s != 0.0 && IsMultipleOf(a, s) && IsMultipleOf(b, s)
    requires Magnitude(a - b) < Magnitude(s)
    ensures a == b
  {
    MultipleForm(a, s);
    MultipleForm(b, s);
    var k := (a / s).Floor - (b / s).Floor;
    assert a - b == k as real * s;
    if k != 0 {
      NonZeroMultipleIsAtLeastStep(k, s);
    }
  }

  lemma NonZeroMultipleIsAtLeastStep(k: int, s: real)
    requires k != 0 && s != 0.0
    ensures Magnitude(k as real * s) >= Magnitude(s)
  {
    var m := if k > 0 then k else -k;
    assert Magnitude(k as real * s) == Magnitude(m as real * s);
    AtLeastOneStep(m as real * s, m as real, s);
  }

  lemma AtLeastOneStep(p: real, m: real, s: real)
    requires m >= 1.0 && s != 0.0 && p == m * s
    ensures Magnitude(p) >= Magnitude(s)
  {
  }

  /**
   The three facts `Rem` promises single it out: any `r` that leaves a
   multiple of `d`, has the sign of `n` and is smaller than `|d|` is `Rem(n, d)`.
   */
  lemma RemUnique(n: real, d: real, r: real)
    requires d != 0.0 && IsMultipleOf(n - r, d)
    requires n >= 0.0 ==> 0.0 <= r < Magnitude(d)
    requires n < 0.0 ==> -Magnitude(d) < r <= 0.0
    ensures r == Rem(n, d)
  {
    var r' := Rem(n, d);
    MultiplesCloserThanStepAreEqual(n - r, n - r', d);
  }

  /** The remainder of a multiple is zero, and only of a multiple. */
  lemma RemZeroIffMultiple(n: real, d: real)
    requires d != 0.0
    ensures Rem(n, d) == 0.0 <==> IsMultipleOf(n, d)
  {
    if IsMultipleOf(n, d) {
      RemUnique(n, d, 0.0);
    }
  }

  /** One step on from a multiple is again a multiple. */
  lemma MultiplePlusStep(a: real, s: real)
    requires s != 0.0 && IsMultipleOf(a, s)
    ensures IsMultipleOf(a + s, s)
  {
    QuotientOfShift(a, s);
    IntegralPlusOne(a / s);
  }

  lemma QuotientOfShift(a: real, s: real)
    requires s != 0.0
    ensures (a + s) / s == a / s + 1.0
  {
    assert s / s == 1.0;
    assert (a + s) / s == a / s + s / s;
  }

  lemma IntegralPlusOne(q: real)
    requires IsIntegral(q)
    ensures IsIntegral(q + 1.0)
  {
  }

  /** A positive multiple of a positive step is at least one step. */
  lemma PositiveMultipleIsAtLeastStep(a: real, s: real)
    requires s > 0.0 && IsMultipleOf(a, s) && a > 0.0
    ensures a >= s
  {
    IntegerTimesIsMultiple(0, s);
    if a < s {
      MultiplesCloserThanStepAreEqual(a, 0.0, s);
    }
  }
}
