/** Sign-bit manipulation on 32-bit lanes: `mulsign`, `negeven`, `negodd`.
    A lane is the bit pattern of its element; for a floating-point element
    the top bit is the sign and the other 31 bits are the magnitude. */
module SignBits {

  /** `constants<T>::highbitmask()` for a 32-bit element. */
  const HighBitMask: bv32 := 0x8000_0000

  const MagnitudeMask: bv32 := 0x7FFF_FFFF

  predicate SignBit(x: bv32)
  {
    x & HighBitMask != 0
  }

  function Magnitude(x: bv32): bv32
  {
    x & MagnitudeMask
  }

  /** Xor with a value that has only the sign bit possibly set keeps the magnitude. */
  lemma XorSignKeepsMagnitude(x: bv32, y: bv32)
    ensures Magnitude(x ^ (y & HighBitMask)) == Magnitude(x)
  {
  }

  /** Xor with the sign bit of `y` sets the sign to the exclusive or of both signs. */
  lemma XorSignCombinesSigns(x: bv32, y: bv32)
    ensures SignBit(x ^ (y & HighBitMask)) <==> SignBit(x) != SignBit(y)
  {
    if SignBit(y) {
      assert y & HighBitMask == HighBitMask;
      assert (x ^ HighBitMask) & HighBitMask == (x & HighBitMask) ^ HighBitMask;
    } else {
      assert x ^ (y & HighBitMask) == x;
    }
  }

  /** `mulsign(x, y)`: xor `x` with the sign bit of `y`, so the result has
      the magnitude of `x` and is negative exactly when one of `x`, `y` is. */
  function MulSign(x: bv32, y: bv32): (r: bv32)
    ensures Magnitude(r) == Magnitude(x)
    ensures SignBit(r) <==> SignBit(x) != SignBit(y)
  {
    XorSignKeepsMagnitude(x, y);
    XorSignCombinesSigns(x, y);
    x ^ (y & HighBitMask)
  }

  /** Applying the sign of `y` twice restores `x`, and a non-negative `y`
      leaves `x` unchanged. */
  lemma MulSignInvolution(x: bv32, y: bv32)
    ensures MulSign(MulSign(x, y), y) == x
    ensures !SignBit(y) ==> MulSign(x, y) == x
  {
  }

  /** Element types a lane can hold: their `-T()` differs. */
  datatype ElementKind = Float32 | Int32

  /** Bit pattern of `-T()`: negative zero for a float carries the sign bit;
      for a two's-complement integer `-0` is `0`. */
  function NegZero(kind: ElementKind): bv32
  {
    match kind
    case Float32 => HighBitMask
    case Int32 => 0
  }

  /** `broadcast<N>(p0, p1, ...)`: the pattern repeated over `n` lanes. */
  function Broadcast(n: nat, pattern: seq<bv32>): (r: seq<bv32>)
    requires |pattern| >= 1
    ensures |r| == n
  {
    seq(n, i requires 0 <= i < n => pattern[i % |pattern|])
  }

  /** Lane-wise `x ^ y`. */
  function LaneXor(x: seq<bv32>, y: seq<bv32>): (r: seq<bv32>)
    requires |x| == |y|
    ensures |r| == |x|
  {
    seq(|x|, i requires 0 <= i < |x| => x[i] ^ y[i])
  }

  /** Xor with the `-T()` pattern of a lane is `mulsign` by `-T()`; xor
      with the `T()` pattern changes nothing. */
  lemma XorPatternLane(v: bv32, kind: ElementKind)
    ensures v ^ NegZero(kind) == MulSign(v, NegZero(kind))
    ensures v ^ 0 == v
  {
  }

  /** `negeven(x)`: `x ^ broadcast<N>(-T(), T())`. Even lanes are multiplied
      in sign by `-T()` (negated on float lanes, unchanged on integer lanes);
      odd lanes are left as they were. */
  function NegEven(x: seq<bv32>, kind: ElementKind): (r: seq<bv32>)
    ensures |r| == |x|
    ensures forall i :: 0 <= i < |x| ==>
      r[i] == if i % 2 == 0 then MulSign(x[i], NegZero(kind)) else x[i]
  {
    var mask := Broadcast(|x|, [NegZero(kind), 0]);
    var r := LaneXor(x, mask);
    assert forall i :: 0 <= i < |x| ==>
      r[i] == if i % 2 == 0 then MulSign(x[i], NegZero(kind)) else x[i]
    by {
      forall i | 0 <= i < |x|
        ensures r[i] == if i % 2 == 0 then MulSign(x[i], NegZero(kind)) else x[i]
      {
        XorPatternLane(x[i], kind);
        assert mask[i] == if i % 2 == 0 then NegZero(kind) else 0;
      }
    }
    r
  }

  /** `negodd(x)`: `x ^ broadcast<N>(T(), -T())`. Odd lanes are multiplied
      in sign by `-T()` (negated on float lanes, unchanged on integer lanes);
      even lanes are left as they were. */
  function NegOdd(x: seq<bv32>, kind: ElementKind): (r: seq<bv32>)
    ensures |r| == |x|
    ensures forall i :: 0 <= i < |x| ==>
      r[i] == if i % 2 == 1 then MulSign(x[i], NegZero(kind)) else x[i]
  {
    var mask := Broadcast(|x|, [0, NegZero(kind)]);
    var r := LaneXor(x, mask);
    assert forall i :: 0 <= i < |x| ==>
      r[i] == if i % 2 == 1 then MulSign(x[i], NegZero(kind)) else x[i]
    by {
      forall i | 0 <= i < |x|
        ensures r[i] == if i % 2 == 1 then MulSign(x[i], NegZero(kind)) else x[i]
      {
        XorPatternLane(x[i], kind);
        assert mask[i] == if i % 2 == 1 then NegZero(kind) else 0;
      }
    }
    r
  }

  lemma NegativeZeroIsNegative()
    ensures SignBit(NegZero(Float32)) && !SignBit(NegZero(Int32))
  {
  }

  /** On float lanes, `negeven` negates every even lane (same magnitude,
      opposite sign) and `negodd` every odd lane. */
  lemma NegFlipsFloatSigns(x: seq<bv32>)
    ensures forall i :: 0 <= i < |x| && i % 2 == 0 ==>
      Magnitude(NegEven(x, Float32)[i]) == Magnitude(x[i]) && (SignBit(NegEven(x, Float32)[i]) <==> !SignBit(x[i]))
    ensures forall i :: 0 <= i < |x| && i % 2 == 1 ==>
      Magnitude(NegOdd(x, Float32)[i]) == Magnitude(x[i]) && (SignBit(NegOdd(x, Float32)[i]) <==> !SignBit(x[i]))
  {
    NegativeZeroIsNegative();
  }

  /** Lane `i` after `negeven` then `negodd`: whichever of the two touches
      the lane applies the one `mulsign`, and the other leaves it alone. */
  lemma NegEvenThenOddLane(x: seq<bv32>, kind: ElementKind, i: int)
    requires 0 <= i < |x|
    ensures NegOdd(NegEven(x, kind), kind)[i] == MulSign(x[i], NegZero(kind))
  {
    var e := NegEven(x, kind);
    if i % 2 == 0 {
      assert NegOdd(e, kind)[i] == e[i];
    } else {
      assert e[i] == x[i];
    }
  }

  /** Lane `i` after `negodd` then `negeven`, likewise. */
  lemma NegOddThenEvenLane(x: seq<bv32>, kind: ElementKind, i: int)
    requires 0 <= i < |x|
    ensures NegEven(NegOdd(x, kind), kind)[i] == MulSign(x[i], NegZero(kind))
  {
    var o := NegOdd(x, kind);
    if i % 2 == 0 {
      assert o[i] == x[i];
    } else {
      assert NegEven(o, kind)[i] == o[i];
    }
  }

  /** Applied one after the other, in either order, `negeven` and `negodd`
      multiply every lane in sign by `-T()`, which on float lanes negates them
      all. */
  lemma NegEvenThenOddNegatesAll(x: seq<bv32>, kind: ElementKind)
    ensures NegOdd(NegEven(x, kind), kind) == NegEven(NegOdd(x, kind), kind)
    ensures forall i :: 0 <= i < |x| ==> NegOdd(NegEven(x, kind), kind)[i] == MulSign(x[i], NegZero(kind))
  {
    var eo := NegOdd(NegEven(x, kind), kind);
    var oe := NegEven(NegOdd(x, kind), kind);
    forall i | 0 <= i < |x|
      ensures eo[i] == MulSign(x[i], NegZero(kind)) && oe[i] == eo[i]
    {
      NegEvenThenOddLane(x, kind, i);
      NegOddThenEvenLane(x, kind, i);
    }
    assert eo == oe;
  }

  /** Each of `negeven` and `negodd` undoes itself. */
  lemma NegEvenOddInvolutions(x: seq<bv32>, kind: ElementKind)
    ensures NegEven(NegEven(x, kind), kind) == x
    ensures NegOdd(NegOdd(x, kind), kind) == x
  {
    forall i | 0 <= i < |x| {
      MulSignInvolution(x[i], NegZero(kind));
    }
    assert NegEven(NegEven(x, kind), kind) == x;
    assert NegOdd(NegOdd(x, kind), kind) == x;
  }

  /** On integer lanes `-T()` is zero, so neither operation changes anything. */
  lemma NegOnIntegerLanesIsIdentity(x: seq<bv32>)
    ensures NegEven(x, Int32) == x && NegOdd(x, Int32) == x
  {
    NegativeZeroIsNegative();
    forall i | 0 <= i < |x| {
      MulSignInvolution(x[i], NegZero(Int32));
    }
    assert NegEven(x, Int32) == x;
    assert NegOdd(x, Int32) == x;
  }
}
