/**
 The immutable two-dimensional vector `Vector2D` and its factory `vec2`.
 Components are exact reals rather than IEEE-754 doubles, so NaN, the
 infinities, signed zero and rounding error do not arise.
 */
module V2d {
  import Numbers
  import Rounding

  /** `vec2(x, y)`: builds a vector that holds its two arguments unchanged. */
  function Vec2(x: real, y: real): (v: Vector2D)
    ensures v.x == x && v.y == y
  {
    Vector2D(x, y)
  }

  /**
   A point or displacement in the plane. Both components are fixed at
   construction; every operation returns a new vector or a number.
   */
  datatype Vector2D = Vector2D(x: real, y: real) {

    /** Exact component-wise comparison: true precisely for the same value. */
    function Equals(v: Vector2D): (b: bool)
      ensures b <==> this == v
    {
      x == v.x && y == v.y
    }

    /** Component-wise sum: taking `v` away from the result gives back this vector. */
    function Add(v: Vector2D): (r: Vector2D)
      ensures r.x - v.x == x && r.y - v.y == y
    {
      Vec2(x + v.x, y + v.y)
    }

    /** Component-wise difference: the vector that, added to `v`, makes this one. */
    function Sub(v: Vector2D): (r: Vector2D)
      ensures r.x + v.x == x && r.y + v.y == y
    {
      Vec2(x - v.x, y - v.y)
    }

    /** Scaling by `s` is the point-wise product with `(s, s)`. */
    function Sca(s: real): (r: Vector2D)
      ensures r == Times(Vec2(s, s))
    {
      Vec2(x * s, y * s)
    }

    /** Point-wise product; its two components add up to the dot product. */
    function Times(v: Vector2D): (r: Vector2D)
      ensures r.x + r.y == Dot(v)
      ensures v == Vec2(1.0, 1.0) ==> r == this
    {
      Vec2(x * v.x, y * v.y)
    }

    /** `f` applied to each component on its own; an identity `f` changes nothing. */
    function Apply(f: real -> real): (r: Vector2D)
      ensures (forall a :: f(a) == a) ==> r == this
    {
      Vec2(f(x), f(y))
    }

    /** Dot product; a vector with itself gives a square length, zero only for the zero vector. */
    function Dot(v: Vector2D): (d: real)
      ensures v == this ==> d >= 0.0
      ensures v == this ==> (d == 0.0 <==> this == Vec2(0.0, 0.0))
    {
      SquaresNonNegative(x, y);
      x * v.x + y * v.y
    }

    /** Swapped components: the length is kept, and only a vector with `x == y` is its own swap. */
    function Invert(): (r: Vector2D)
      ensures r.Dot(r) == Dot(this)
      ensures r == this <==> x == y
    {
      Vec2(y, x)
    }

    /** Component-wise magnitude: non-negative, keeps each magnitude, fixes non-negative vectors. */
    function Abs(): (r: Vector2D)
      ensures r.x >= 0.0 && r.y >= 0.0
      ensures (r.x == x || r.x == -x) && (r.y == y || r.y == -y)
      ensures x >= 0.0 && y >= 0.0 ==> r == this
    {
      Vec2(Numbers.Magnitude(x), Numbers.Magnitude(y))
    }

    /**
     Each component rounded to a multiple of `sk` as the code does it:
     nearest (ties upward) for a non-negative component, truncated toward
     zero for a negative one.
     */
    function Round(sk: real): (r: Vector2D)
      requires sk > 0.0
      ensures Rounding.RoundedAsWritten(x, r.x, sk)
      ensures Rounding.RoundedAsWritten(y, r.y, sk)
    {
      Vec2(Rounding.RoundComponent(x, sk), Rounding.RoundComponent(y, sk))
    }

    /**
     Nearest-multiple rounding of each component (ties upward), the behaviour
     the documentation of `round` describes.
     */
    function RoundToNearest(sk: real): (r: Vector2D)
      requires sk > 0.0
      ensures Rounding.RoundedToNearest(x, r.x, sk)
      ensures Rounding.RoundedToNearest(y, r.y, sk)
    {
      Vec2(Rounding.RoundNearest(x, sk), Rounding.RoundNearest(y, sk))
    }

    /** Half of the sum with `v`: the point as far from this vector as from `v`. */
    function Middle(v: Vector2D): (r: Vector2D)
      ensures r.Sub(this) == v.Sub(r)
    {
      Add(v).Sca(0.5)
    }

    /** Sign of `x` as -1, 0 or 1. */
    function XSign(): (s: real)
      ensures s == -1.0 || s == 0.0 || s == 1.0
      ensures s == 0.0 <==> x == 0.0
      ensures s * x == Numbers.Magnitude(x)
    {
      if x < 0.0 then -1.0 else if x > 0.0 then 1.0 else 0.0
    }

    /** Sign of `y` as -1, 0 or 1. */
    function YSign(): (s: real)
      ensures s == -1.0 || s == 0.0 || s == 1.0
      ensures s == 0.0 <==> y == 0.0
      ensures s * y == Numbers.Magnitude(y)
    {
      if y < 0.0 then -1.0 else if y > 0.0 then 1.0 else 0.0
    }

    /** The pair `(x, y)` in that order; handing it back to `vec2` rebuilds this vector. */
    function Params(): (p: (real, real))
      ensures Vec2(p.0, p.1) == this
    {
      (x, y)
    }
  }

  /** A sum of two squares is never negative, and is zero only when both are. */
  lemma SquaresNonNegative(a: real, b: real)
    ensures a * a + b * b >= 0.0
    ensures a * a + b * b == 0.0 <==> a == 0.0 && b == 0.0
  {
    SquareNonNegative(a);
    SquareNonNegative(b);
  }

  lemma SquareNonNegative(a: real)
    ensures a * a >= 0.0
    ensures a * a == 0.0 <==> a == 0.0
  {
    if a > 0.0 {
      ProductOfPositives(a * a, a, a);
    } else if a < 0.0 {
      ProductOfPositives(a * a, -a, -a);
    }
  }

  lemma ProductOfPositives(p: real, a: real, b: real)
    requires a > 0.0 && b > 0.0 && p == a * b
    ensures p > 0.0
  {
  }

  /** `equals` is reflexive and symmetric, and one differing component makes it false. */
  lemma EqualsLaws(u: Vector2D, v: Vector2D)
    ensures u.Equals(u)
    ensures u.Equals(v) == v.Equals(u)
    ensures u.x != v.x || u.y != v.y ==> !u.Equals(v)
  {
  }

  /** `add` and `sub` undo each other, in either order. */
  lemma AddSubInverse(v: Vector2D, w: Vector2D)
    ensures v.Add(w).Sub(w) == v
    ensures v.Sub(w).Add(w) == v
  {
  }

  lemma AddCommutative(v: Vector2D, w: Vector2D)
    ensures v.Add(w) == w.Add(v)
  {
  }

  /** A vector less itself is the zero vector. */
  lemma SubSelfIsZero(v: Vector2D)
    ensures v.Sub(v) == Vec2(0.0, 0.0)
  {
  }

  lemma ScaOneIsIdentity(v: Vector2D)
    ensures v.Sca(1.0) == v
  {
  }

  /** Applying `a => a * s` is scaling by `s`. */
  lemma ApplyScaling(v: Vector2D, s: real, f: real -> real)
    requires forall a :: f(a) == a * s
    ensures v.Apply(f) == v.Sca(s)
  {
  }

  lemma DotSymmetric(v: Vector2D, w: Vector2D)
    ensures v.Dot(w) == w.Dot(v)
  {
  }

  lemma InvertInvolution(v: Vector2D)
    ensures v.Invert().Invert() == v
  {
  }

  lemma AbsIdempotent(v: Vector2D)
    ensures v.Abs().Abs() == v.Abs()
  {
  }

  /** The midpoint does not depend on which of the two vectors it is taken from. */
  lemma MiddleSymmetric(v: Vector2D, w: Vector2D)
    ensures v.Middle(w) == w.Middle(v)
  {
  }

  /** A vector whose components are both multiples of `sk` is left unchanged by `round(sk)`. */
  lemma RoundVecFixesMultiples(v: Vector2D, sk: real)
    requires sk > 0.0 && Numbers.IsMultipleOf(v.x, sk) && Numbers.IsMultipleOf(v.y, sk)
    ensures v.Round(sk) == v
  {
    Rounding.RoundFixesMultiples(v.x, sk);
    Rounding.RoundFixesMultiples(v.y, sk);
  }

  /** Rounding a rounded vector to the same step changes nothing. */
  lemma RoundVecIdempotent(v: Vector2D, sk: real)
    requires sk > 0.0
    ensures v.Round(sk).Round(sk) == v.Round(sk)
  {
    RoundVecFixesMultiples(v.Round(sk), sk);
  }

  /** `round` and nearest rounding agree on every vector with non-negative components. */
  lemma RoundIsNearestForNonNegative(v: Vector2D, sk: real)
    requires sk > 0.0 && v.x >= 0.0 && v.y >= 0.0
    ensures v.Round(sk) == v.RoundToNearest(sk)
  {
    Rounding.RoundAgreesWithNearestIff(v.x, sk);
    Rounding.RoundAgreesWithNearestIff(v.y, sk);
  }

  /** A vector on which `round` is not nearest rounding: `(-0.75, 0)` to step 1. */
  lemma RoundVecNegativeNotNearest()
    ensures Vec2(-0.75, 0.0).Round(1.0) == Vec2(0.0, 0.0)
    ensures Vec2(-0.75, 0.0).RoundToNearest(1.0) == Vec2(-1.0, 0.0)
  {
    Rounding.RoundNegativeNotNearest();
  }

  /** The readings of `x` and `y` in the test suite. */
  lemma BasisTestCases()
    ensures Vec2(3.0, 5.0).x == 3.0 && Vec2(3.0, 5.0).y == 5.0
    ensures Vec2(-1.0, 5.0).x == -1.0 && Vec2(3.0, -2.0).y == -2.0
    ensures Vec2(-20.0, -23.0).x == -20.0 && Vec2(-20.0, -23.0).y == -23.0
  {
  }

  /** The comparisons of `equals` in the test suite. */
  lemma EqualsTestCases()
    ensures Vec2(3.0, 5.0).Equals(Vec2(3.0, 5.0))
    ensures Vec2(-3.0, 5.0).Equals(Vec2(-3.0, 5.0))
    ensures Vec2(3.0, -5.0).Equals(Vec2(3.0, -5.0))
    ensures Vec2(-3.0, -5.0).Equals(Vec2(-3.0, -5.0))
    ensures !Vec2(3.0, 5.0).Equals(Vec2(2.0, 5.0))
    ensures !Vec2(3.0, 5.0).Equals(Vec2(3.0, 2.0))
    ensures !Vec2(3.0, 5.0).Equals(Vec2(3.0, -5.0))
    ensures !Vec2(-3.0, -5.0).Equals(Vec2(3.0, 5.0))
  {
  }

  /** The two documented sums and the five sums of the test suite. */
  lemma AddTestCases()
    ensures Vec2(2.0, 3.0).Add(Vec2(2.0, 3.0)) == Vec2(4.0, 6.0)
    ensures Vec2(2.0, 3.0).Add(Vec2(-1.0, -2.0)) == Vec2(1.0, 1.0)
    ensures Vec2(3.0, 5.0).Add(Vec2(1.0, 3.0)) == Vec2(4.0, 8.0)
    ensures Vec2(3.0, 5.0).Add(Vec2(-1.0, -3.0)) == Vec2(2.0, 2.0)
    ensures Vec2(1.0, 1.0).Add(Vec2(3.0, 4.0)) == Vec2(4.0, 5.0)
    ensures Vec2(-3.0, -5.0).Add(Vec2(1.0, 3.0)) == Vec2(-2.0, -2.0)
    ensures Vec2(3345.0, 5231.0).Add(Vec2(1.0, 3.0)) == Vec2(3346.0, 5234.0)
  {
  }

  /** The two documented differences and the five differences of the test suite. */
  lemma SubTestCases()
    ensures Vec2(2.0, 3.0).Sub(Vec2(2.0, 3.0)) == Vec2(0.0, 0.0)
    ensures Vec2(2.0, 3.0).Sub(Vec2(-1.0, -2.0)) == Vec2(3.0, 5.0)
    ensures Vec2(3.0, 5.0).Sub(Vec2(1.0, 3.0)) == Vec2(2.0, 2.0)
    ensures Vec2(3.0, 5.0).Sub(Vec2(-1.0, -3.0)) == Vec2(4.0, 8.0)
    ensures Vec2(1.0, 1.0).Sub(Vec2(3.0, 4.0)) == Vec2(-2.0, -3.0)
    ensures Vec2(-3.0, -5.0).Sub(Vec2(1.0, 3.0)) == Vec2(-4.0, -8.0)
    ensures Vec2(3345.0, 5231.0).Sub(Vec2(1.0, 3.0)) == Vec2(3344.0, 5228.0)
  {
  }

  /** The five scalings of the test suite. */
  lemma ScaTestCases()
    ensures Vec2(3.0, 5.0).Sca(1.0) == Vec2(3.0, 5.0)
    ensures Vec2(3.0, 5.0).Sca(2.0) == Vec2(6.0, 10.0)
    ensures Vec2(1.0, 1.0).Sca(4.0) == Vec2(4.0, 4.0)
    ensures Vec2(-3.0, -5.0).Sca(-3.0) == Vec2(9.0, 15.0)
    ensures Vec2(1111.0, 3333.0).Sca(3.0) == Vec2(3333.0, 9999.0)
  {
  }

  /** The four dot products of the test suite. */
  lemma DotTestCases()
    ensures Vec2(3.0, 5.0).Dot(Vec2(5.0, -3.0)) == 0.0
    ensures Vec2(3.0, 5.0).Dot(Vec2(5.0, 3.0)) == 30.0
    ensures Vec2(1.0, 2.0).Dot(Vec2(1.0, 2.0)) == 5.0
    ensures Vec2(2.0, 1.0).Dot(Vec2(1.0, -2.0)) == 0.0
  {
  }

  /** The four magnitudes of the test suite. */
  lemma AbsTestCases()
    ensures Vec2(3.0, 5.0).Abs() == Vec2(3.0, 5.0)
    ensures Vec2(-3.0, 5.0).Abs() == Vec2(3.0, 5.0)
    ensures Vec2(3.0, -5.0).Abs() == Vec2(3.0, 5.0)
    ensures Vec2(-3.0, -5.0).Abs() == Vec2(3.0, 5.0)
  {
  }

  /** The four swaps of the test suite. */
  lemma InvertTestCases()
    ensures Vec2(3.0, 5.0).Invert() == Vec2(5.0, 3.0)
    ensures Vec2(1.0, 2.0).Invert() == Vec2(2.0, 1.0)
    ensures Vec2(-3.0, 5.0).Invert() == Vec2(5.0, -3.0)
    ensures Vec2(3.0, -5.0).Invert() == Vec2(-5.0, 3.0)
  {
  }

  /**
   The four roundings of the test suite. The exact ties are 3 and 5 to step 2
   and 5 to step 10, each resolved upward.
   */
  lemma RoundTestCases()
    ensures Vec2(3.0, 5.0).Round(2.0) == Vec2(4.0, 6.0)
    ensures Vec2(3.0, 5.0).Round(3.0) == Vec2(3.0, 6.0)
    ensures Vec2(3.0, 5.0).Round(5.0) == Vec2(5.0, 5.0)
    ensures Vec2(3.0, 5.0).Round(10.0) == Vec2(0.0, 10.0)
  {
  }

  /** The four midpoints of the test suite. */
  lemma MiddleTestCases()
    ensures Vec2(3.0, 5.0).Middle(Vec2(5.0, 3.0)) == Vec2(4.0, 4.0)
    ensures Vec2(1.0, 5.0).Middle(Vec2(5.0, 1.0)) == Vec2(3.0, 3.0)
    ensures Vec2(3.0, 5.0).Middle(Vec2(3.0, 7.0)) == Vec2(3.0, 6.0)
    ensures Vec2(1.0, 5.0).Middle(Vec2(2.0, 5.0)) == Vec2(1.5, 5.0)
  {
    MiddleComponents(Vec2(3.0, 5.0), Vec2(5.0, 3.0));
    MiddleComponents(Vec2(1.0, 5.0), Vec2(5.0, 1.0));
    MiddleComponents(Vec2(3.0, 5.0), Vec2(3.0, 7.0));
    MiddleComponents(Vec2(1.0, 5.0), Vec2(2.0, 5.0));
  }

  /** The midpoint is the average of the two vectors, component by component. */
  lemma MiddleComponents(v: Vector2D, w: Vector2D)
    ensures v.Middle(w).x == (v.x + w.x) / 2.0 && v.Middle(w).y == (v.y + w.y) / 2.0
  {
  }

  /** The five point-wise products of the test suite. */
  lemma TimesTestCases()
    ensures Vec2(3.0, 5.0).Times(Vec2(1.0, 3.0)) == Vec2(3.0, 15.0)
    ensures Vec2(3.0, 5.0).Times(Vec2(-1.0, -3.0)) == Vec2(-3.0, -15.0)
    ensures Vec2(1.0, 1.0).Times(Vec2(3.0, 4.0)) == Vec2(3.0, 4.0)
    ensures Vec2(-3.0, -5.0).Times(Vec2(1.0, 3.0)) == Vec2(-3.0, -15.0)
    ensures Vec2(3345.0, 5231.0).Times(Vec2(1.0, 2.0)) == Vec2(3345.0, 10462.0)
  {
  }

  /** The five applications of a function in the test suite. */
  lemma ApplyTestCases()
    ensures Vec2(3.0, 5.0).Apply(a => a) == Vec2(3.0, 5.0)
    ensures Vec2(3.0, 5.0).Apply(a => a * 2.0) == Vec2(6.0, 10.0)
    ensures Vec2(1.0, 1.0).Apply(a => a * 4.0) == Vec2(4.0, 4.0)
    ensures Vec2(-3.0, -5.0).Apply(a => -a * 3.0) == Vec2(9.0, 15.0)
    ensures Vec2(1111.0, 3333.0).Apply(a => a * 3.0) == Vec2(3333.0, 9999.0)
  {
  }

  /** The five readings of `xSign` and of `ySign` in the test suite. */
  lemma SignTestCases()
    ensures Vec2(1.0, 2.0).XSign() == 1.0 && Vec2(1.0, 2.0).YSign() == 1.0
    ensures Vec2(0.0, -1.0).XSign() == 0.0 && Vec2(0.0, -1.0).YSign() == -1.0
    ensures Vec2(-1.0, -123214.0).XSign() == -1.0 && Vec2(-1.0, -123214.0).YSign() == -1.0
    ensures Vec2(102.0, 23123.0).XSign() == 1.0 && Vec2(102.0, 23123.0).YSign() == 1.0
    ensures Vec2(-1213123.0, 0.0).XSign() == -1.0 && Vec2(-1213123.0, 0.0).YSign() == 0.0
  {
  }
}
