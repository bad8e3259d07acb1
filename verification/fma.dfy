/** Multiply-add blends: `fmadd`, `fmsub`, the linear interpolations `mix`
    and `mixs`, and the inclusive range test `inrange`.

    Arithmetic is exact, so fused and unfused evaluation coincide here. */
module Fma {
  import Folds

  /** `fmadd(x, y, z)`: the product of the first two operands plus the third,
      the same value as the unfused `add(mul(x, y), z)`. */
  function FmAdd(x: real, y: real, z: real): (r: real)
    ensures r == Folds.Add([Folds.Mul([x, y]), z])
  {
    x * y + z
  }

  /** `fmsub(x, y, z)`: the product of the first two operands minus the third,
      the same value as the unfused `sub(mul(x, y), z)`. */
  function FmSub(x: real, y: real, z: real): (r: real)
    ensures r == Folds.Sub(Folds.Mul([x, y]), z)
  {
    x * y - z
  }

  /** Subtracting `z` is adding its negation, and both recover the product. */
  lemma FmSubIsFmAddOfNegation(x: real, y: real, z: real)
    ensures FmSub(x, y, z) == FmAdd(x, y, -z)
    ensures FmAdd(x, y, z) - z == x * y == FmSub(x, y, z) + z
  {
  }

  /** `inrange(x, min, max)`: inclusive at both ends. Over a non-empty range
      a value is inside exactly when clamping it to the range leaves it alone. */
  function InRange(x: real, lo: real, hi: real): (b: bool)
    ensures b ==> lo <= hi
    ensures lo <= hi ==> (b <==> Min(Max(x, lo), hi) == x)
  {
    x >= lo && x <= hi
  }

  function Min(x: real, y: real): real { if x <= y then x else y }

  function Max(x: real, y: real): real { if x <= y then y else x }

  /** A non-empty inclusive range holds both of its bounds. */
  lemma InRangeBounds(lo: real, hi: real)
    ensures lo <= hi ==> InRange(lo, lo, hi) && InRange(hi, lo, hi)
  {
  }

  /** `mix(c, x, y)`: linear blend of `x` and `y`, evaluated as
      `fmadd(c, y - x, x)`. The blend factor is meant to lie in `[0, 1]`,
      but nothing checks it. */
  function Mix(c: real, x: real, y: real): (r: real)
    ensures r == (1.0 - c) * x + c * y
    ensures c == 0.0 ==> r == x
    ensures c == 1.0 ==> r == y
  {
    FmAdd(c, y - x, x)
  }

  /** `mixs(c, x, y)`: the same blend with `c` in `[-1, 1]`, remapped to
      `[0, 1]` by `fmadd(c, 0.5, 0.5)` first. */
  function Mixs(c: real, x: real, y: real): (r: real)
    ensures r == Mix((c + 1.0) / 2.0, x, y)
    ensures c == -1.0 ==> r == x
    ensures c == 1.0 ==> r == y
  {
    Mix(FmAdd(c, 0.5, 0.5), x, y)
  }

  /** `mix` is also the documented `x + (y - x) * c`, and a constant when
      both ends agree. */
  lemma MixIsWeightedAverage(c: real, x: real, y: real)
    ensures Mix(c, x, y) == x + (y - x) * c
    ensures Mix(c, x, x) == x
  {
  }

  /** Blending from `x` towards `y` with `c` is blending from `y` towards
      `x` with `1 - c`. */
  lemma MixSymmetric(c: real, x: real, y: real)
    ensures Mix(c, x, y) == Mix(1.0 - c, y, x)
  {
    MixIsWeightedAverage(c, x, y);
    MixIsWeightedAverage(1.0 - c, y, x);
  }

  /** A blend factor in `[0, 1]` keeps an ascending blend inside its end points. */
  lemma MixAscendingBetween(c: real, lo: real, hi: real)
    requires InRange(c, 0.0, 1.0) && lo <= hi
    ensures InRange(Mix(c, lo, hi), lo, hi)
  {
    var d := hi - lo;
    assert d - c * d == (1.0 - c) * d;
    assert 0.0 <= c * d <= d;
    assert Mix(c, lo, hi) == lo + c * d;
  }

  /** With `c` in `[0, 1]` the blend never leaves the interval spanned by
      its two end points. */
  lemma MixStaysBetween(c: real, x: real, y: real)
    requires InRange(c, 0.0, 1.0)
    ensures InRange(Mix(c, x, y), Min(x, y), Max(x, y))
  {
    if x <= y {
      MixAscendingBetween(c, x, y);
    } else {
      MixSymmetric(c, x, y);
      MixAscendingBetween(1.0 - c, y, x);
    }
  }

  /** The remap sends `[-1, 1]` onto `[0, 1]`, so `mixs` gives the midpoint
      `mix(0.5, x, y)` at `0` and stays between the end points over its
      documented domain. */
  lemma MixsRemapsToMix(c: real, x: real, y: real)
    ensures Mixs(0.0, x, y) == Mix(0.5, x, y)
    ensures InRange(c, -1.0, 1.0) ==> InRange(FmAdd(c, 0.5, 0.5), 0.0, 1.0)
    ensures InRange(c, -1.0, 1.0) ==> InRange(Mixs(c, x, y), Min(x, y), Max(x, y))
  {
    if InRange(c, -1.0, 1.0) {
      MixStaysBetween(FmAdd(c, 0.5, 0.5), x, y);
    }
  }
}
