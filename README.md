# v2d: an immutable 2D vector, modelled in Dafny

`v2d` has one type, `Vector2D`, and its shorthand factory `vec2`. A vector holds two
readonly numeric components `x` and `y`. Each method reads them and returns a fresh
vector or a number: `equals`, `add`, `sub`, `sca`, `times`, `apply`, `dot`, `invert`,
`abs`, `round`, `middle`, `xSign`, `ySign` and `params`.

Because nothing is ever mutated, the model is a `datatype Vector2D` with one member
function per method. The components are exact `real`s, not IEEE-754 doubles.

- `numbers.dfy` (module `Numbers`) holds the number operations the vector uses. The
  main one is the language's `%` operator, modelled as `Rem`. `%` is a truncated
  remainder: its sign follows the dividend (ECMA-262, section 6.1.6.1.6,
  Number::remainder). `Rem` is built from `Trunc`, which rounds toward zero using
  `.Floor`. Dafny's own `%` could not be used: it is Euclidean and exists only on `int`.
- `rounding.dfy` (module `Rounding`) holds the per-component rounding that `round`
  performs. It also holds the nearest-multiple rounding that `round`'s documentation
  describes, and lemmas relating the two.
- `vector2d.dfy` (module `V2d`) holds `vec2`, the `Vector2D` datatype and the
  algebraic laws.

For `sk > 0`, `round(sk)` maps a non-negative component to the nearest multiple of
`sk`, and an exact tie goes to the higher multiple. A negative component is always
truncated toward zero instead. The reason: `c - low` equals `c % sk`, which is not
positive, so the strict `<` always keeps `low`. `Rounding.RoundAgreesWithNearestIff`
states exactly when the code's result is the nearest multiple.

## Model

| member | source | states |
|---|---|---|
| V2d.Vec2 | src/index.ts:6-8 | the factory stores both arguments unchanged as `x` and `y` |
| V2d.Vector2D.Params | src/index.ts:382-384 | `params()` returns `(x, y)` in that order; passing it back to `vec2` rebuilds the same vector |
| V2d.Vector2D.Equals | src/index.ts:56-58 | `equals` holds exactly when the two vectors are the same value (exact component-wise equality, no tolerance) |
| V2d.EqualsLaws | tests/index.test.ts:14-24 | `equals` is reflexive and symmetric, and false as soon as one component differs |
| V2d.Vector2D.Add | src/index.ts:76-78 | subtracting `v` from `this.add(v)` gives back each component of `this` |
| V2d.Vector2D.Sub | src/index.ts:96-98 | `this.sub(v)` is the vector that, added to `v`, gives `this` |
| V2d.AddSubInverse | src/index.ts:60-98 | `v.add(w).sub(w) == v` and `v.sub(w).add(w) == v` |
| V2d.AddCommutative | src/index.ts:76-78 | `v.add(w) == w.add(v)` |
| V2d.SubSelfIsZero | src/index.ts:92 | `v.sub(v)` is the zero vector |
| V2d.Vector2D.Sca | src/index.ts:116-118 | `sca(s)` equals `times(vec2(s, s))` |
| V2d.ScaOneIsIdentity | tests/index.test.ts:45 | `sca(1)` is the identity |
| V2d.Vector2D.Times | src/index.ts:136-138 | the two components of the point-wise product add up to `dot`; `times(vec2(1, 1))` is the identity |
| V2d.Vector2D.Apply | src/index.ts:156-158 | `apply` with a function that returns its argument leaves the vector unchanged |
| V2d.ApplyScaling | tests/index.test.ts:112-137 | `apply(a => a * s)` equals `sca(s)` |
| V2d.Vector2D.Dot | src/index.ts:176-178 | `v.dot(v) >= 0`, and it is 0 only for the zero vector |
| V2d.DotSymmetric | src/index.ts:176-178 | `v.dot(w) == w.dot(v)` |
| V2d.Vector2D.Invert | src/index.ts:195-197 | swapping keeps `dot` with itself; a vector is its own swap exactly when `x == y` |
| V2d.InvertInvolution | src/index.ts:195-197 | `invert().invert()` is the identity |
| V2d.Vector2D.Abs | src/index.ts:214-219 | both components are non-negative and have the original magnitudes; a vector with non-negative components is unchanged |
| V2d.AbsIdempotent | src/index.ts:214-219 | `abs().abs() == abs()` |
| V2d.Vector2D.Round | src/index.ts:236-246 | each component is a multiple of `sk`; a component `c >= 0` goes to the multiple in `(c - sk/2, c + sk/2]`, which is the nearest with ties to `low + sk`; a component `c < 0` goes to the multiple in `[c, c + sk)`, with `c <= r <= 0`, which is truncation toward zero |
| V2d.Vector2D.RoundToNearest | src/index.ts:221-235 | the corrected rounding: each component goes to the multiple of `sk` in `(c - sk/2, c + sk/2]`, for both signs |
| V2d.RoundVecFixesMultiples | src/index.ts:236-246 | a vector whose components are multiples of `sk` is unchanged by `round(sk)` |
| V2d.RoundVecIdempotent | src/index.ts:236-246 | `round(sk).round(sk) == round(sk)` |
| V2d.RoundIsNearestForNonNegative | src/index.ts:221-246 | on vectors with non-negative components, `round` is nearest rounding |
| V2d.RoundVecNegativeNotNearest | src/index.ts:236-246 | `vec2(-0.75, 0).round(1)` is `(0, 0)`, while nearest rounding gives `(-1, 0)` |
| V2d.RoundTestCases | tests/index.test.ts:83-88 | `vec2(3,5).round(2) == (4,6)`, `round(3) == (3,6)`, `round(5) == (5,5)`, `round(10) == (0,10)`; the exact ties (3 and 5 to step 2, 5 to step 10) go to the higher multiple |
| V2d.Vector2D.Middle | src/index.ts:303-305 | the midpoint is as far from `this` as from `v` (`r - this == v - r`) |
| V2d.MiddleSymmetric | src/index.ts:303-305 | `v.middle(w) == w.middle(v)` |
| V2d.Vector2D.XSign | src/index.ts:343-345 | the result is -1, 0 or 1; it is 0 exactly when `x == 0`; `xSign() * x == abs(x)` |
| V2d.Vector2D.YSign | src/index.ts:364-366 | the result is -1, 0 or 1; it is 0 exactly when `y == 0`; `ySign() * y == abs(y)` |
| V2d.BasisTestCases | tests/index.test.ts:5-12 | all six tested readings of `x` and `y` |
| V2d.EqualsTestCases | tests/index.test.ts:14-24 | all eight tested comparisons, four true and four false |
| V2d.AddTestCases | tests/index.test.ts:28-34 | all five tested sums, plus the two documented ones for `v = vec2(2,3)` at src/index.ts:72-73 |
| V2d.SubTestCases | tests/index.test.ts:36-42 | all five tested differences, plus the two documented ones for `v = vec2(2,3)` at src/index.ts:92-93 |
| V2d.ScaTestCases | tests/index.test.ts:44-50 | all five tested scalings |
| V2d.DotTestCases | tests/index.test.ts:52-57 | all four tested dot products |
| V2d.AbsTestCases | tests/index.test.ts:59-64 | all four tested magnitudes |
| V2d.InvertTestCases | tests/index.test.ts:76-81 | all four tested swaps |
| V2d.MiddleTestCases | tests/index.test.ts:90-95 | all four tested midpoints |
| V2d.TimesTestCases | tests/index.test.ts:102-110 | all five tested point-wise products |
| V2d.ApplyTestCases | tests/index.test.ts:112-138 | all five tested applications, with the same functions |
| V2d.SignTestCases | tests/index.test.ts:151-167 | all five tested values of `xSign` and all five of `ySign` |
| Numbers.Magnitude | src/index.ts:216-217 | `c < 0 ? -c : c` is non-negative, equals `c` or `-c`, and equals `c` when `c >= 0` |
| Numbers.Trunc | src/index.ts:237-238 | the truncated quotient behind `%`: it has the sign of its argument and lies less than 1 from it, on the zero side |
| Numbers.Rem | src/index.ts:237-238 | `c % sk` leaves a multiple of `sk`, has the sign of the dividend, and is smaller in magnitude than `sk` |
| Numbers.RemUnique | src/index.ts:237-238 | those three facts determine `%` completely |
| Numbers.RemZeroIffMultiple | src/index.ts:237-238 | `c % sk == 0` exactly when `c` is a multiple of `sk` |
| Rounding.RoundComponent | src/index.ts:236-246 | one component of `round`, with the bounds listed for `V2d.Vector2D.Round` |
| Rounding.RoundNearest | src/index.ts:221-235 | nearest rounding from `Math.floor(c / sk) * sk`: a multiple of `sk` in `(c - sk/2, c + sk/2]` |
| Rounding.RoundedAsWrittenUnique | src/index.ts:236-246 | the bounds of `RoundComponent` hold for exactly one value, so they specify it completely |
| Rounding.RoundedToNearestUnique | src/index.ts:221-235 | the bounds of `RoundNearest` hold for exactly one value |
| Rounding.RoundNearestIsNearest | src/index.ts:221-235 | no multiple of `sk` is nearer to `c` than `RoundNearest`, and one equally near lies below it |
| Rounding.RoundFixesMultiples | src/index.ts:236-246 | a component that is already a multiple of `sk` is returned unchanged |
| Rounding.RoundIdempotent | src/index.ts:236-246 | rounding a rounded component again changes nothing |
| Rounding.RoundNegativeTruncates | src/index.ts:237-243 | for `c < 0` the result is `low`, which is `c - c % sk`, which is `Trunc(c / sk) * sk` |
| Rounding.RoundAgreesWithNearestIff | src/index.ts:236-246 | `round` equals nearest rounding exactly when `c >= 0` or `c % sk >= -sk/2` |
| Rounding.RoundNegativeNotNearest | src/index.ts:236-246 | `-0.75` rounded to step 1 gives 0 (0.75 away), while nearest rounding gives -1 (0.25 away) |

## Findings

| source | as written | input that shows it | evidently intended | confidence | as-written member | corrected member |
|---|---|---|---|---|---|---|
| src/index.ts:236-246 | `low = c - c % sk` uses a truncated remainder. For a negative `c`, `low` is the multiple nearer zero, and `c - low < high - c` always keeps it, so a negative component is truncated toward zero | `vec2(-0.75, 0).round(1)` gives x = 0, which is 0.75 away, instead of -1, which is 0.25 away | each component rounded to the closest multiple of `sk`, as the comment at src/index.ts:222 says; the corrected version takes `low = Math.floor(c / sk) * sk` | medium, not executed | Rounding.RoundNegativeNotNearest | Rounding.RoundNearest |

`V2d.Vector2D.Round` stays as written, since it models what the code does.
`V2d.Vector2D.RoundToNearest` applies the corrected rounding to a vector.
`Rounding.RoundAgreesWithNearestIff` gives the exact set of inputs on which the two agree.

## Left out

- IEEE-754 doubles: components are exact reals. NaN (which makes `equals` irreflexive), `-0 === 0`, the infinities, overflow and the rounding error of `add`/`sub` round trips are not modelled. So `%` is modelled only for finite operands and a non-zero divisor.
- V2d.Vector2D.Round: requires `sk > 0`. With `sk == 0`, `%` yields NaN. A negative step is not modelled.
- `length` (src/index.ts:263-265) is left out: it needs `Math.sqrt`, which has no exact counterpart over reals. `v.dot(v)`, its square, is modelled by `Dot`.
- `angle` (src/index.ts:282-286) is left out: it needs `Math.acos` and a division by `length`. Its early return is the `equals` modelled above.
- `dydx` (src/index.ts:322-324) is left out: its test relies on IEEE division by zero giving `Infinity`, which exact reals cannot express.
- `apply` takes a pure, total `real -> real`. Side effects inside the caller's closure are not modelled.
- The getters `x` and `y` are the datatype's fields, and the class constructor is the datatype constructor. Neither has a separate member.
- The test harness (chai/mocha) is not modelled. Every assertion on the modelled operations appears in a `...TestCases` lemma. The assertions on `length`, `angle` and `dydx` (tests/index.test.ts:68-74, 97-100, 140-149) are left out with those operations.
