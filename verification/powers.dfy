/** `sqr`, `cub`, `pow2`..`pow5`, the exponentiation-by-squaring `ipow`,
    and the squared sum / squared difference helpers. */
module Powers {
  import Folds

  /** Reference definition: `x` multiplied by itself `n` times. */
  ghost function Pow(x: real, n: nat): real
    decreases n
  {
    if n == 0 then 1.0 else x * Pow(x, n - 1)
  }

  lemma {:induction false} PowAdd(x: real, m: nat, n: nat)
    ensures Pow(x, m + n) == Pow(x, m) * Pow(x, n)
    decreases m
  {
    if m > 0 {
      PowAdd(x, m - 1, n);
    }
  }

  /** Raising the square to `n` is raising the base to `2n`. */
  lemma {:induction false} PowOfSquare(x: real, n: nat)
    ensures Pow(x * x, n) == Pow(x, 2 * n)
    decreases n
  {
    if n > 0 {
      PowOfSquare(x, n - 1);
      assert Pow(x, 2 * n) == x * (x * Pow(x, 2 * (n - 1)));
    }
  }

  /** One step of exponentiation by squaring: peel the low bit of `n` off. */
  lemma PowHalve(x: real, n: nat)
    ensures Pow(x, n) == (if n % 2 == 1 then x else 1.0) * Pow(x * x, n / 2)
  {
    PowOfSquare(x, n / 2);
    if n % 2 == 1 {
      assert n == 2 * (n / 2) + 1;
    } else {
      assert n == 2 * (n / 2);
    }
  }

  function Sqr(x: real): (r: real)
    ensures r == Pow(x, 2)
    ensures r >= 0.0
  {
    x * x
  }

  /** `cub` reuses `sqr`: one extra multiply. */
  function Cub(x: real): (r: real)
    ensures r == Pow(x, 3)
    ensures r < 0.0 <==> x < 0.0
  {
    Sqr(x) * x
  }

  function Pow2(x: real): (r: real)
    ensures r == Pow(x, 2)
  {
    Sqr(x)
  }

  function Pow3(x: real): (r: real)
    ensures r == Pow(x, 3)
  {
    Cub(x)
  }

  /** `pow4` squares twice rather than multiplying four times. */
  function Pow4(x: real): (r: real)
    ensures r == Pow(x, 4)
    ensures r >= 0.0
  {
    PowAdd(x, 2, 2);
    Sqr(Sqr(x))
  }

  function Pow5(x: real): (r: real)
    ensures r == Pow(x, 5)
  {
    PowAdd(x, 4, 1);
    Pow4(x) * x
  }

  /** `ipow(x, base)`: exponentiation by squaring over the bits of `base`.
      `base & 1` and `base >>= 1` are `% 2` and `/ 2` on a non-negative
      exponent. A negative exponent never reaches zero under an arithmetic
      shift, so callers must not pass one. */
  method IPow(x: real, base: int) returns (result: real)
    requires base >= 0
    ensures result == Pow(x, base)
  {
    var xx := x;
    var b := base;
    result := 1.0;
    while b != 0
      invariant 0 <= b
      invariant result * Pow(xx, b) == Pow(x, base)
      decreases b
    {
      PowHalve(xx, b);
      if b % 2 == 1 {
        result := result * xx;
      }
      b := b / 2;
      xx := xx * xx;
    }
  }

  /** The documented examples `ipow(10, 3) == 1000` and `ipow(0.5, 2) == 0.25`,
      and the empty product `ipow(x, 0) == 1`. */
  method IPowExamples(x: real) returns (thousand: real, quarter: real, one: real)
    ensures thousand == 1000.0 && quarter == 0.25 && one == 1.0
  {
    thousand := IPow(10.0, 3);
    quarter := IPow(0.5, 2);
    one := IPow(x, 0);
  }

  /** `sqrsum(x, rest...)`: the square of `add(x, rest...)`. */
  function SqrSum(xs: seq<real>): (r: real)
    requires |xs| >= 1
    ensures r >= 0.0
  {
    Sqr(Folds.Add(xs))
  }

  /** `sqrdiff(x, y)`: the square of `x - y`. */
  function SqrDiff(x: real, y: real): (r: real)
    ensures r >= 0.0
  {
    Sqr(x - y)
  }

  /** The documented example `sqrsum(1, 2, 3) == 36`. */
  lemma SqrSumExample()
    ensures SqrSum([1.0, 2.0, 3.0]) == 36.0
  {
  }

  /** `sqrsum` squares the total a seeded left-to-right reduction of its
      operands produces. */
  lemma SqrSumIsSquaredTotal(xs: seq<real>)
    requires |xs| >= 1
    ensures SqrSum(xs) == Pow(Folds.SumFrom(Folds.AddInitial(), xs), 2)
  {
  }

  /** The squared difference is the expanded binomial, symmetric in its
      operands, and vanishes exactly when the operands are equal. */
  lemma SqrDiffProperties(x: real, y: real)
    ensures SqrDiff(x, y) == Pow(x - y, 2)
    ensures SqrDiff(x, y) == x * x - 2.0 * x * y + y * y
    ensures SqrDiff(x, y) == SqrDiff(y, x)
    ensures SqrDiff(x, y) == 0.0 <==> x == y
  {
    if SqrDiff(x, y) == 0.0 {
      assert (x - y) * (x - y) == 0.0;
    }
  }
}
