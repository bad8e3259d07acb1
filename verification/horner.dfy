/** Horner-scheme polynomial evaluation: `horner` over all powers, and
    `horner_even` / `horner_odd` over the even / odd powers only.
    Coefficients come lowest degree first; at least one is required. */
module Horner {
  import opened Powers
  import opened Fma

  /** Reference definition: `sum of cs[i] * x^(stride * i + offset)`. */
  ghost function PowerSum(cs: seq<real>, x: real, stride: nat, offset: nat): real
    decreases |cs|
  {
    if |cs| == 0 then 0.0
    else cs[0] * Pow(x, offset) + PowerSum(cs[1..], x, stride, offset + stride)
  }

  /** `horner(x, c0) == c0`;
      `horner(x, c0, c1, rest...) == fmadd(horner(x, c1, rest...), x, c0)`.
      The value is the polynomial `c0 + c1 x + ... + cn x^n`. */
  function Horner(x: real, cs: seq<real>): (r: real)
    requires |cs| >= 1
    ensures r == PowerSum(cs, x, 1, 0)
    decreases |cs|
  {
    if |cs| == 1 then cs[0]
    else
      PowerSumTimesX(cs[1..], x, 1, 0);
      FmAdd(Horner(x, cs[1..]), x, cs[0])
  }

  /** `horner_even(x, c0) == c0`; with more coefficients it runs `horner`
      on `x * x` for all but the first and folds `c0` in with one `fmadd`.
      The value is `c0 + c2 x^2 + ... + c2n x^(2n)`. */
  function HornerEven(x: real, cs: seq<real>): (r: real)
    requires |cs| >= 1
    ensures r == PowerSum(cs, x, 2, 0)
  {
    if |cs| == 1 then cs[0]
    else
      var x2 := x * x;
      PowerSumTimesX(cs[1..], x2, 1, 0);
      PowerSumOfSquare(cs[1..], x, 1);
      FmAdd(Horner(x2, cs[1..]), x2, cs[0])
  }

  /** `horner_odd(x, c1) == c1 * x`; with more coefficients it evaluates as
      `horner_even` does and multiplies the outcome by `x` once.
      The value is `c1 x + c3 x^3 + ... + c2n+1 x^(2n+1)`. */
  function HornerOdd(x: real, cs: seq<real>): (r: real)
    requires |cs| >= 1
    ensures r == PowerSum(cs, x, 2, 1)
  {
    if |cs| == 1 then cs[0] * x
    else
      var x2 := x * x;
      PowerSumTimesX(cs[1..], x2, 1, 0);
      PowerSumOfSquare(cs[1..], x, 1);
      PowerSumTimesX(cs, x, 2, 0);
      FmAdd(Horner(x2, cs[1..]), x2, cs[0]) * x
  }

  /** Multiplying a power sum by `x` raises every exponent by one. */
  lemma {:induction false} PowerSumTimesX(cs: seq<real>, x: real, stride: nat, offset: nat)
    ensures PowerSum(cs, x, stride, offset) * x == PowerSum(cs, x, stride, offset + 1)
    decreases |cs|
  {
    if |cs| > 0 {
      PowerSumTimesX(cs[1..], x, stride, offset + stride);
      assert Pow(x, offset + 1) == x * Pow(x, offset);
    }
  }

  /** A power sum in `x * x` is the power sum in `x` with doubled exponents. */
  lemma {:induction false} PowerSumOfSquare(cs: seq<real>, x: real, offset: nat)
    ensures PowerSum(cs, x * x, 1, offset) == PowerSum(cs, x, 2, 2 * offset)
    decreases |cs|
  {
    if |cs| > 0 {
      PowerSumOfSquare(cs[1..], x, offset + 1);
      PowOfSquare(x, offset);
    }
  }

  /** `horner_even` is `horner` evaluated at `x * x`. */
  lemma HornerEvenIsHornerOfSquare(x: real, cs: seq<real>)
    requires |cs| >= 1
    ensures HornerEven(x, cs) == Horner(x * x, cs)
  {
  }

  /** A single coefficient is returned unchanged, whatever `x` is. */
  lemma HornerConstant(x: real, c0: real)
    ensures Horner(x, [c0]) == c0 && HornerEven(x, [c0]) == c0
    ensures HornerOdd(x, [c0]) == c0 * x
  {
  }

  /** The documented examples: `horner(x, 1, 2, 3)` is `3x^2 + 2x + 1`,
      `horner_even(x, 1, 2, 3)` is `3x^4 + 2x^2 + 1`, and
      `horner_odd(x, 1, 2, 3)` is `3x^5 + 2x^3 + x`; at `x = 2` they give
      17, 57 and 114. */
  lemma HornerExamples(x: real)
    ensures Horner(x, [1.0, 2.0, 3.0]) == 3.0 * Pow(x, 2) + 2.0 * x + 1.0
    ensures HornerEven(x, [1.0, 2.0, 3.0]) == 3.0 * Pow(x, 4) + 2.0 * Pow(x, 2) + 1.0
    ensures HornerOdd(x, [1.0, 2.0, 3.0]) == 3.0 * Pow(x, 5) + 2.0 * Pow(x, 3) + x
    ensures Horner(2.0, [1.0, 2.0, 3.0]) == 17.0
    ensures HornerEven(2.0, [1.0, 2.0, 3.0]) == 57.0
    ensures HornerOdd(2.0, [1.0, 2.0, 3.0]) == 114.0
  {
    var cs := [1.0, 2.0, 3.0];
    assert cs[1..][1..][1..] == [];
  }
}
