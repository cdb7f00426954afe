/**
 Rounding of one component to a step `sk`, as `Vector2D.round` does it for
 each component, next to the nearest-multiple rounding that its
 documentation describes ("rounded ... to the closest sk").
 */
module Rounding {
  import opened Numbers

  /**
   What `round` makes of a component `c`: a multiple of `sk`; for `c >= 0`
   the one in `(c - sk/2, c + sk/2]`, the nearest with ties going up; for
   `c < 0` the one in `[c, c + sk)`, which is `c` truncated toward zero.
   */
  predicate RoundedAsWritten(c: real, r: real, sk: real)
    requires sk > 0.0
  {
    && IsMultipleOf(r, sk)
    && (c >= 0.0 ==> c - sk / 2.0 < r <= c + sk / 2.0)
    && (c < 0.0 ==> c <= r <= 0.0 && r < c + sk)
  }

  /** `r` is the multiple of `sk` nearest to `c`, an exact tie going to the larger one. */
  predicate RoundedToNearest(c: real, r: real, sk: real)
    requires sk > 0.0
  {
    IsMultipleOf(r, sk) && c - sk / 2.0 < r <= c + sk / 2.0
  }

  /**
   One component of `round(sk)`: `low` is `c` less its truncated remainder,
   `high` one step above, and `low` wins only when strictly closer.
   */
  function RoundComponent(c: real, sk: real): (r: real)
    requires sk > 0.0
    ensures RoundedAsWritten(c, r, sk)
  {
    var low := c - Rem(c, sk);
    var high := low + sk;
    MultiplePlusStep(low, sk);
    var r := if c - low < high - c then low else high;
    assert c < 0.0 ==> r <= 0.0 by {
      if c < 0.0 && r > 0.0 {
        PositiveMultipleIsAtLeastStep(r, sk);
      }
    }
    r
  }

  /**
   The rounding the documentation describes: the nearest multiple of `sk`,
   from the multiple at or below `c` (`Math.floor(c / sk) * sk`) instead of
   `c` less its truncated remainder.
   */
  function RoundNearest(c: real, sk: real): (r: real)
    requires sk > 0.0
    ensures RoundedToNearest(c, r, sk)
  {
    var k := (c / sk).Floor;
    var low := k as real * sk;
    var high := low + sk;
    IntegerTimesIsMultiple(k, sk);
    MultiplePlusStep(low, sk);
    QuotientSign(c, sk);
    FractionOfStep(c - low, c / sk - k as real, sk);
    if c - low < high - c then low else high
  }

  /** `RoundedAsWritten` pins the result down: only `RoundComponent(c, sk)` meets it. */
  lemma RoundedAsWrittenUnique(c: real, r: real, sk: real)
    requires sk > 0.0 && RoundedAsWritten(c, r, sk)
    ensures r == RoundComponent(c, sk)
  {
    MultiplesCloserThanStepAreEqual(r, RoundComponent(c, sk), sk);
  }

  /** `RoundedToNearest` pins the result down: only `RoundNearest(c, sk)` meets it. */
  lemma RoundedToNearestUnique(c: real, r: real, sk: real)
    requires sk > 0.0 && RoundedToNearest(c, r, sk)
    ensures r == RoundNearest(c, sk)
  {
    MultiplesCloserThanStepAreEqual(r, RoundNearest(c, sk), sk);
  }

  /**
   `RoundNearest` is no farther from `c` than any multiple `m` of `sk`, and a
   multiple exactly as far lies below it.
   */
  lemma RoundNearestIsNearest(c: real, sk: real, m: real)
    requires sk > 0.0 && IsMultipleOf(m, sk)
    ensures Magnitude(RoundNearest(c, sk) - c) <= Magnitude(m - c)
    ensures Magnitude(m - c) == Magnitude(RoundNearest(c, sk) - c) ==> m <= RoundNearest(c, sk)
  {
    var r := RoundNearest(c, sk);
    if Magnitude(m - r) < sk {
      MultiplesCloserThanStepAreEqual(m, r, sk);
    }
  }

  /** A component that is already a multiple of `sk` is left as it is. */
  lemma RoundFixesMultiples(c: real, sk: real)
    requires sk > 0.0 && IsMultipleOf(c, sk)
    ensures RoundComponent(c, sk) == c
  {
    RoundedAsWrittenUnique(c, c, sk);
  }

  /** Rounding twice to the same step is rounding once. */
  lemma RoundIdempotent(c: real, sk: real)
    requires sk > 0.0
    ensures RoundComponent(RoundComponent(c, sk), sk) == RoundComponent(c, sk)
  {
    RoundFixesMultiples(RoundComponent(c, sk), sk);
  }

  /** A negative component is truncated toward zero: the result is `c` less its remainder. */
  lemma RoundNegativeTruncates(c: real, sk: real)
    requires sk > 0.0 && c < 0.0
    ensures RoundComponent(c, sk) == c - Rem(c, sk)
    ensures RoundComponent(c, sk) == Trunc(c / sk) as real * sk
  {
  }

  /**
   The code agrees with nearest rounding exactly on the non-negative
   components and on the negative ones whose remainder is at most half a
   step below zero; on the others it gives the multiple nearer zero although
   the one below is nearer.
   */
  lemma RoundAgreesWithNearestIff(c: real, sk: real)
    requires sk > 0.0
    ensures RoundComponent(c, sk) == RoundNearest(c, sk) <==> (c >= 0.0 || Rem(c, sk) >= -sk / 2.0)
  {
    var a := RoundComponent(c, sk);
    if c >= 0.0 {
      RoundedToNearestUnique(c, a, sk);
    } else {
      RoundNegativeTruncates(c, sk);
      if Rem(c, sk) >= -sk / 2.0 {
        RoundedToNearestUnique(c, a, sk);
      }
    }
  }

  /**
   A concrete input on which the code is not nearest rounding: -0.75 with
   step 1 becomes 0, a distance of 0.75, although -1 is only 0.25 away.
   */
  lemma RoundNegativeNotNearest()
    ensures RoundComponent(-0.75, 1.0) == 0.0
    ensures RoundNearest(-0.75, 1.0) == -1.0
    ensures Magnitude(RoundComponent(-0.75, 1.0) - -0.75) > Magnitude(RoundNearest(-0.75, 1.0) - -0.75)
  {
  }
}
