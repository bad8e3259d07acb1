/** The variadic folds `add` and `mul`, the binary `sub`, and the identity
    seeds these operations return for an `initialvalue` tag.

    The element type is modelled as exact `real` arithmetic, so the fold
    order matters only for which operand pairs are formed, not for rounding. */
module Folds {

  /** `add(x)` is `x`; `add(x, y, rest...)` is `x + add(y, rest...)`.
      There is no overload for an empty operand list. */
  function Add(xs: seq<real>): (r: real)
    requires |xs| >= 1
    ensures forall acc :: SumFrom(acc, xs) == acc + r
    decreases |xs|
  {
    if |xs| == 1 then xs[0] else xs[0] + Add(xs[1..])
  }

  /** `sub(x, y)` is binary only. */
  function Sub(x: real, y: real): (r: real)
    ensures r + y == x
  {
    x - y
  }

  /** `mul(x)` is `x`; `mul(x, y, rest...)` is `x * mul(y, rest...)`. */
  function Mul(xs: seq<real>): (r: real)
    requires |xs| >= 1
    ensures forall acc :: ProductFrom(acc, xs) == acc * r
    decreases |xs|
  {
    if |xs| == 1 then xs[0] else xs[0] * Mul(xs[1..])
  }

  /** `add(initialvalue<T>)`: the seed of an additive reduction. */
  function AddInitial(): (r: real)
    ensures forall xs :: |xs| >= 1 ==> SumFrom(r, xs) == Add(xs)
  {
    0.0
  }

  /** `sub(initialvalue<T>)`: the seed of a subtractive reduction. */
  function SubInitial(): (r: real)
    ensures forall x :: Sub(x, r) == x
  {
    0.0
  }

  /** `mul(initialvalue<T>)`: the seed of a multiplicative reduction. */
  function MulInitial(): (r: real)
    ensures forall xs :: |xs| >= 1 ==> ProductFrom(r, xs) == Mul(xs)
  {
    1.0
  }

  /** The additive reduction a generic caller writes: start from a seed
      and add the operands in one at a time, left to right. */
  function SumFrom(acc: real, xs: seq<real>): real
    decreases |xs|
  {
    if |xs| == 0 then acc else SumFrom(acc + xs[0], xs[1..])
  }

  /** The multiplicative reduction: start from a seed and multiply the
      operands in one at a time, left to right. */
  function ProductFrom(acc: real, xs: seq<real>): real
    decreases |xs|
  {
    if |xs| == 0 then acc else ProductFrom(acc * xs[0], xs[1..])
  }

  /** Splitting the operand list splits the sum. */
  lemma {:induction false} AddAppend(xs: seq<real>, ys: seq<real>)
    requires |xs| >= 1 && |ys| >= 1
    ensures Add(xs + ys) == Add(xs) + Add(ys)
    decreases |xs|
  {
    if |xs| == 1 {
      assert (xs + ys)[1..] == ys;
    } else {
      assert (xs + ys)[1..] == xs[1..] + ys;
      AddAppend(xs[1..], ys);
    }
  }

  /** Splitting the operand list splits the product. */
  lemma {:induction false} MulAppend(xs: seq<real>, ys: seq<real>)
    requires |xs| >= 1 && |ys| >= 1
    ensures Mul(xs + ys) == Mul(xs) * Mul(ys)
    decreases |xs|
  {
    if |xs| == 1 {
      assert (xs + ys)[1..] == ys;
    } else {
      assert (xs + ys)[1..] == xs[1..] + ys;
      MulAppend(xs[1..], ys);
    }
  }
}
