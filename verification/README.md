# KFR numeric operators, modelled in Dafny

This project models the numeric operation layer of KFR's
`include/kfr/base/operators.hpp`: the eager, stateless scalar and vector
primitives that the library's expression engine is built on. It covers:

- the variadic right folds `add` and `mul`, the binary `sub`, and the
  `initialvalue` seeds that reductions start from (`folds.dfy`);
- `sqr`, `cub`, `pow2`..`pow5`, the exponentiation-by-squaring loop `ipow`,
  `sqrsum` and `sqrdiff` (`powers.dfy`);
- `fmadd`, `fmsub`, the linear blends `mix` and `mixs`, and the inclusive
  range test `inrange` (`fma.dfy`);
- the Horner evaluators `horner`, `horner_even` and `horner_odd`
  (`horner.dfy`);
- the sign-bit operations `mulsign`, `negeven` and `negodd` on 32-bit lanes
  (`signbits.dfy`);
- the lane-interleaving `subadd` and `addsub` (`lanes.dfy`);
- `swapbyteorder` for 2-, 4- and 8-byte values and for wider vectors,
  together with the `bswap16/32/64` builtins it calls (`byteorder.dfy`);
  the scalar overloads are read by their evident meaning (see "## Left out").

Element values are exact `real`s: integer element types are the integral
reals, and floating-point operations are modelled by their exact real
results, with no rounding.
Bit-level operations work on `bv32` lanes and `bv8` bytes. A vector is a
`seq` of lanes; a value handed to `swapbyteorder` is the `seq` of its bytes
in memory order together with its element width `sizeof(T)`.

The external lane primitives the file relies on are given the meaning
KFR gives them: `blend<m0, m1, ...>(x, y)` takes lane `i` from `y` where the
repeated mask pattern holds a 1 and from `x` where it holds a 0;
`broadcast<N>(p0, p1, ...)` repeats its pattern over `N` lanes; the
`bswap` builtins reverse the bytes of a word, and a word's bytes are laid
out least significant first (a little-endian target); `swap<w>(v)`
reverses each consecutive run of `w` lanes of `v` in place, so for a
power-of-two `w` output lane `i` is input lane `i ^ (w - 1)`; and
`bitcast` reinterprets a vector's bytes without moving them, keeping
memory order.

`mulsign(x, y)` is sometimes described as copying the sign of `y` onto
`x`. The code instead xors `x` with the sign bit of `y`, so the result is
negative exactly when one of the two operands is. The model follows the
code.

Each operation has an independent reference it is proved against: the
folds against a seeded left-to-right reduction, the power family and
`ipow` against a recursive `Pow`, the Horner family against a power-sum
`PowerSum`, `mix` against the weighted average `(1 - c) x + c y`,
`negeven`/`negodd` against `mulsign`, `subadd` against `addsub`, and
the corrected `swapbyteorder` (see ## Findings) against a reversal of
each element's bytes, with the element order kept.

## Model

| member | source | states |
|---|---|---|
| `Folds.Add` | include/kfr/base/operators.hpp:36-49 | `add(x) == x` and `add(x, y, rest...) == x + add(y, rest...)` is the total that any left-to-right reduction of the operands adds to its accumulator |
| `Folds.Sub` | include/kfr/base/operators.hpp:66-70 | `sub(x, y)` is the value that `y` must be added to in order to give back `x` |
| `Folds.Mul` | include/kfr/base/operators.hpp:84-97 | `mul(x) == x` and `mul(x, y, rest...) == x * mul(y, rest...)` is the factor that any left-to-right reduction of the operands multiplies its accumulator by |
| `Folds.AddInitial` | include/kfr/base/operators.hpp:50-54 | the `add` seed `T(0)` is the identity of the additive reduction: seeded with it, the reduction returns exactly `add(xs...)` |
| `Folds.SubInitial` | include/kfr/base/operators.hpp:71-75 | the `sub` seed `T(0)` is a right identity: `sub(x, seed) == x` for every `x` |
| `Folds.MulInitial` | include/kfr/base/operators.hpp:99-103 | the `mul` seed `T(1)` is the identity of the multiplicative reduction: seeded with it, the reduction returns exactly `mul(xs...)` |
| `Folds.AddAppend` | include/kfr/base/operators.hpp:42-49 | the sum of a concatenated operand list is the sum of the two parts' sums |
| `Folds.MulAppend` | include/kfr/base/operators.hpp:90-97 | the product of a concatenated operand list is the product of the two parts' products |
| `Powers.Sqr` | include/kfr/base/operators.hpp:115-122 | `sqr(x)` is `x^2` and is never negative |
| `Powers.Cub` | include/kfr/base/operators.hpp:137-141 | `cub(x) = sqr(x) * x` is `x^3`, negative exactly when `x` is |
| `Powers.Pow2` | include/kfr/base/operators.hpp:153-157 | `pow2(x)` is `x^2` |
| `Powers.Pow3` | include/kfr/base/operators.hpp:159-163 | `pow3(x)` is `x^3` |
| `Powers.Pow4` | include/kfr/base/operators.hpp:165-169 | `pow4(x) = sqr(sqr(x))` is `x^4` and is never negative |
| `Powers.Pow5` | include/kfr/base/operators.hpp:171-175 | `pow5(x) = pow4(x) * x` is `x^5` |
| `Powers.IPow` | include/kfr/base/operators.hpp:202-220 | for a non-negative exponent the squaring loop terminates and returns `x^base` |
| `Powers.IPowExamples` | include/kfr/base/operators.hpp:202-206 | `ipow(10, 3) == 1000`, `ipow(0.5, 2) == 0.25` and `ipow(x, 0) == 1` |
| `Powers.SqrSum` | include/kfr/base/operators.hpp:229-237 | the squared sum of one or more operands is never negative |
| `Powers.SqrSumIsSquaredTotal` | include/kfr/base/operators.hpp:229-237 | `sqrsum(xs...)` is the square of the total a seeded reduction of the operands produces |
| `Powers.SqrSumExample` | include/kfr/base/operators.hpp:229-232 | `sqrsum(1, 2, 3) == 36` |
| `Powers.SqrDiff` | include/kfr/base/operators.hpp:239-243 | the squared difference is never negative |
| `Powers.SqrDiffProperties` | include/kfr/base/operators.hpp:239-243 | `sqrdiff(x, y)` is `(x - y)^2 = x^2 - 2xy + y^2`, symmetric in `x` and `y`, and zero exactly when `x == y` |
| `Fma.FmAdd` | include/kfr/base/operators.hpp:308-313 | `fmadd(x, y, z)` is the unfused `add(mul(x, y), z)` |
| `Fma.FmSub` | include/kfr/base/operators.hpp:314-319 | `fmsub(x, y, z)` is the unfused `sub(mul(x, y), z)` |
| `Fma.FmSubIsFmAddOfNegation` | include/kfr/base/operators.hpp:308-319 | `fmsub(x, y, z) == fmadd(x, y, -z)`, and both recover the product `x * y` from `z` |
| `Fma.Mix` | include/kfr/base/operators.hpp:323-329 | `mix(c, x, y)` is the weighted average `(1 - c) x + c y`: `x` at `c = 0` and `y` at `c = 1` |
| `Fma.Mixs` | include/kfr/base/operators.hpp:331-336 | `mixs(c, x, y)` is `mix((c + 1) / 2, x, y)`: `x` at `c = -1` and `y` at `c = 1` |
| `Fma.MixIsWeightedAverage` | include/kfr/base/operators.hpp:323-329 | `mix(c, x, y)` is also the documented `x + (y - x) c`, and gives `x` when `x == y` |
| `Fma.MixSymmetric` | include/kfr/base/operators.hpp:323-329 | blending from `x` to `y` by `c` equals blending from `y` to `x` by `1 - c` |
| `Fma.MixStaysBetween` | include/kfr/base/operators.hpp:323-329 | with `c` in the documented range `[0, 1]` the blend lies between `x` and `y` |
| `Fma.MixsRemapsToMix` | include/kfr/base/operators.hpp:331-336 | `mixs(0, x, y)` is the midpoint `mix(0.5, x, y)`; for `c` in `[-1, 1]` the remapped factor lies in `[0, 1]` and `mixs(c, x, y)` lies between `x` and `y` |
| `Fma.InRange` | include/kfr/base/operators.hpp:504-508 | `inrange(x, min, max)` holds only when `min <= max`, and then exactly when clamping `x` to `[min, max]` leaves it unchanged |
| `Fma.InRangeBounds` | include/kfr/base/operators.hpp:504-508 | a non-empty inclusive range contains both its bounds |
| `Horner.Horner` | include/kfr/base/operators.hpp:355-366 | `horner(x, c0, ..., cn)` is the polynomial `c0 + c1 x + ... + cn x^n` |
| `Horner.HornerEven` | include/kfr/base/operators.hpp:368-380 | `horner_even(x, c0, c2, ..., c2n)` is the even polynomial `c0 + c2 x^2 + ... + c2n x^(2n)` |
| `Horner.HornerOdd` | include/kfr/base/operators.hpp:382-394 | `horner_odd(x, c1, c3, ..., c2n+1)` is the odd polynomial `c1 x + c3 x^3 + ... + c2n+1 x^(2n+1)` |
| `Horner.HornerEvenIsHornerOfSquare` | include/kfr/base/operators.hpp:368-380 | `horner_even(x, c...)` is `horner(x * x, c...)` |
| `Horner.HornerConstant` | include/kfr/base/operators.hpp:355-386 | a single coefficient `c0` gives `c0` from `horner` and `horner_even` and `c0 * x` from `horner_odd`, for every `x` |
| `Horner.HornerExamples` | include/kfr/base/operators.hpp:397-436 | the documented polynomials: `horner(x, 1, 2, 3) = 3x^2 + 2x + 1`, `horner_even = 3x^4 + 2x^2 + 1`, `horner_odd = 3x^5 + 2x^3 + x`; 17, 57 and 114 at `x = 2` |
| `SignBits.MulSign` | include/kfr/base/operators.hpp:455-459 | `mulsign(x, y)` keeps the magnitude bits of `x` and is negative exactly when the signs of `x` and `y` differ |
| `SignBits.MulSignInvolution` | include/kfr/base/operators.hpp:455-459 | applying `mulsign` by the same `y` twice restores `x`; a non-negative `y` leaves `x` unchanged |
| `SignBits.NegEven` | include/kfr/base/operators.hpp:546-550 | `negeven` keeps every odd lane and multiplies every even lane in sign by `-T()` (`mulsign`): negated on float lanes, unchanged on integer lanes |
| `SignBits.NegOdd` | include/kfr/base/operators.hpp:551-555 | `negodd` keeps every even lane and multiplies every odd lane in sign by `-T()` (`mulsign`): negated on float lanes, unchanged on integer lanes |
| `SignBits.NegFlipsFloatSigns` | include/kfr/base/operators.hpp:546-555 | on float lanes `negeven` negates each even lane and `negodd` each odd lane: same magnitude, opposite sign |
| `SignBits.NegEvenOddInvolutions` | include/kfr/base/operators.hpp:546-555 | `negeven` and `negodd` each undo themselves |
| `SignBits.NegEvenThenOddNegatesAll` | include/kfr/base/operators.hpp:546-555 | `negeven` and `negodd` commute, and together multiply every lane in sign by `-T()` (`mulsign`), negating every float lane |
| `SignBits.NegOnIntegerLanesIsIdentity` | include/kfr/base/operators.hpp:546-555 | on integer lanes `-T()` is `0`, so `negeven` and `negodd` return their input unchanged |
| `Lanes.SubAdd` | include/kfr/base/operators.hpp:533-537 | `subadd(a, b)` keeps the lane count, with `a - b` on even lanes and `a + b` on odd lanes |
| `Lanes.AddSub` | include/kfr/base/operators.hpp:538-542 | `addsub(a, b)` keeps the lane count, with `a + b` on even lanes and `a - b` on odd lanes |
| `Lanes.SubAddAddSubOpposite` | include/kfr/base/operators.hpp:533-542 | on every lane the two choose opposite operators: their lanes sum to `2a`, agree exactly where `b` is zero, and `subadd(a, b) == addsub(a, -b)` |
| `ByteOrder.ReverseInvolution` | include/kfr/base/operators.hpp:516-530 | reversing the bytes of a value twice restores it |
| `ByteOrder.SwapElements` | include/kfr/base/operators.hpp:510-515 | `swap<sizeof(T)>` on a vector's bytes keeps the byte count; its per-element meaning is `ByteOrder.SwapElementsPerElement` |
| `ByteOrder.SwapElementsPerElement` | include/kfr/base/operators.hpp:510-515 | `swap<sizeof(T)>` on a vector's bytes reverses the bytes of every element and keeps the elements in order |
| `ByteOrder.SwapElementsInvolution` | include/kfr/base/operators.hpp:510-515 | the per-element swap undoes itself |
| `ByteOrder.SwapByteOrderAsWritten` | include/kfr/base/operators.hpp:510-530 | overload selection as written keeps the byte count, and on a scalar or a vector wider than 8 bytes it swaps every element in place |
| `ByteOrder.SwapByteOrderAsWrittenInvolution` | include/kfr/base/operators.hpp:510-530 | the overloads as written undo themselves: applied twice they restore the value |
| `ByteOrder.ShortVectorLanesTradePlaces` | include/kfr/base/operators.hpp:510-530 | as written, a two-lane 16-bit vector `02 01 04 03` becomes `03 04 01 02` (its lanes trade places), not `01 02 03 04` |
| `ByteOrder.SwapByteOrder` | include/kfr/base/operators.hpp:510-530 | the corrected `swapbyteorder` (see ## Findings) preserves the length of the value; its per-element meaning is `ByteOrder.SwapByteOrderPerElement` |
| `ByteOrder.SwapByteOrderAgreesWithOverloads` | include/kfr/base/operators.hpp:510-530 | a one-element value gets its bytes reversed, and one-element values and vectors wider than 8 bytes get exactly what the existing overloads compute |
| `ByteOrder.SwapByteOrderInvolution` | include/kfr/base/operators.hpp:510-530 | the corrected `swapbyteorder` (see ## Findings) undoes itself, for 2-, 4- and 8-byte scalars and for vectors |
| `ByteOrder.SwapByteOrderPerElement` | include/kfr/base/operators.hpp:510-515 | for a vector given by its elements, the corrected `swapbyteorder` (see ## Findings) reverses each element's bytes and keeps the element order; the source's vector overload does this for vectors wider than 8 bytes |
| `ByteOrder.Bswap16` | include/kfr/base/operators.hpp:526-530 | byte `k` of `__builtin_bswap16(x)` is byte `1 - k` of `x` |
| `ByteOrder.Bswap32` | include/kfr/base/operators.hpp:521-525 | byte `k` of `__builtin_bswap32(x)` is byte `3 - k` of `x` |
| `ByteOrder.Bswap64` | include/kfr/base/operators.hpp:516-520 | byte `k` of `__builtin_bswap64(x)` is byte `7 - k` of `x` |
| `ByteOrder.Bswap16ReversesBytes` | include/kfr/base/operators.hpp:526-530 | the 16-bit `bswap` reverses the two bytes of the word |
| `ByteOrder.Bswap32ReversesBytes` | include/kfr/base/operators.hpp:521-525 | the 32-bit `bswap` reverses the four bytes of the word |
| `ByteOrder.Bswap64ReversesBytes` | include/kfr/base/operators.hpp:516-520 | the 64-bit `bswap` reverses the eight bytes of the word |

## Left out

- The expression composition layer (the `is_input_expressions` overloads that return `expression_function` nodes, and the `KFR_EXPR_UNARY` / `KFR_EXPR_BINARY` operator banks): it only records structure, and the evaluator that gives a node its meaning is not part of this model.
- IEEE floating-point behaviour: rounding, fused versus unfused `fmadd`, NaN and infinities. Arithmetic is exact.
- The classification predicates `isnan`, `isinf`, `isfinite`, `isnegative`, `ispositive` and `iszero`: their meaning is IEEE classification, which exact arithmetic does not have.
- `copysign`: it masks both operands with the same high-bit mask, so what it computes is not the magnitude-of-`x`, sign-of-`y` its name suggests, and no intended behaviour is evident enough to model.
- `packtranspose`: its meaning rests entirely on `transpose`, `concat` and `compcast`, which are not part of this model.
- `div`, `rem`, `neg`, `reciprocal` and the six comparison wrappers: each forwards to the native operator or a compile-time check, with nothing of its own to state.
- `common_type` promotion across mixed operand types: a compile-time rule outside the file; every operand here has the one element type.
- Fixed-width integer overflow (undefined for signed types): integer element types are modelled by exact values, so overflow in `add`, `mul`, the power family or `ipow` is not modelled. In particular the `ipow` loop squares `xx` once more after the last exponent bit, so with a 32-bit `int` `ipow(10, 8)` overflows in that unused square although the result `10^8` fits; the exact model cannot show this.
- Powers.IPow: the exponent is a C++ `int`; the model accepts any non-negative integer and requires non-negativity, because under an arithmetic right shift a negative exponent never reaches zero and the loop does not end.
- Lane-wise application of the scalar operations (`fmadd`, `mix`, `horner`, `inrange` and the rest on vectors, with scalars broadcast): each is modelled on one lane.
- `mulsign` with operands of different widths: both are 32-bit lanes.
- The scalar `swapbyteorder` overloads for 2, 4 and 8 bytes apply `reinterpret_cast<const T&>` to the prvalue that `__builtin_bswapNN` returns, which standard C++ rejects (a reference cast needs a glvalue). They are modelled by their evident meaning, a byte reversal of the value (`Bswap16`, `Bswap32`, `Bswap64`, and the scalar branch of `SwapByteOrderAsWritten`).
- Sign-bit operations on 64-bit lanes: only 32-bit lanes are modelled.
- Element widths that are not a power of two: `swap<w>` is given its lane-pairing meaning `i ^ (w - 1)` only for power-of-two `w`, so `WellShaped` admits only those widths.

## Findings

| source | as written | input that shows it | evidently intended | confidence | as-written member | corrected member |
|---|---|---|---|---|---|---|
| include/kfr/base/operators.hpp:510-530 | the vector overload is enabled only for vectors wider than 8 bytes, so a vector of 2, 4 or 8 bytes is taken by the scalar overload of that size and byte-reversed as a whole, which also reverses its lane order | a two-lane vector of 16-bit elements with bytes `02 01 04 03` (lanes `0x0102`, `0x0304`) becomes `03 04 01 02` (lanes `0x0403`, `0x0201`) | every element byte-swapped in place, as wider vectors are: `01 02 03 04` (lanes `0x0201`, `0x0403`); proved per element by `ByteOrder.SwapByteOrderPerElement` | medium, not executed; assumes the scalar overload compiles (it casts a prvalue to `const T&`, see ## Left out) and that `sizeof(vec<u16, 2>) == 4` | `ByteOrder.SwapByteOrderAsWritten` / `ByteOrder.ShortVectorLanesTradePlaces` | `ByteOrder.SwapByteOrder` / `ByteOrder.SwapByteOrderPerElement` |
