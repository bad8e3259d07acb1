/** `swapbyteorder`: byte reversal of 2-, 4- and 8-byte values, and a
    per-element byte reversal for vectors wider than 8 bytes.

    A value is modelled by its bytes in memory order. `w` is the width in
    bytes of one element (`sizeof(T)`); a scalar is a value whose only
    element is the whole value. */
module ByteOrder {

  /** Byte `i` of the result is byte `|b| - 1 - i` of the input. */
  function Reverse(b: seq<bv8>): (r: seq<bv8>)
    ensures |r| == |b|
  {
    seq(|b|, i requires 0 <= i < |b| => b[|b| - 1 - i])
  }

  lemma ReverseInvolution(b: seq<bv8>)
    ensures Reverse(Reverse(b)) == b
  {
  }

  /** `swap<w>` on a byte vector: reverse each consecutive run of `w` bytes,
      keeping the runs in place. */
  function SwapElements(b: seq<bv8>, w: nat): (r: seq<bv8>)
    requires w >= 1
    ensures |r| == |b|
    decreases |b|
  {
    if |b| <= w then Reverse(b) else Reverse(b[..w]) + SwapElements(b[w..], w)
  }

  /** The bytes of a vector whose elements have the given byte images. */
  function Flatten(lanes: seq<seq<bv8>>): seq<bv8>
    decreases |lanes|
  {
    if |lanes| == 0 then [] else lanes[0] + Flatten(lanes[1..])
  }

  function ReverseEach(lanes: seq<seq<bv8>>): (r: seq<seq<bv8>>)
    ensures |r| == |lanes|
  {
    seq(|lanes|, k requires 0 <= k < |lanes| => Reverse(lanes[k]))
  }

  /** `swap<w>` reverses the bytes inside every `w`-byte element and leaves
      the order of the elements unchanged. */
  lemma {:induction false} SwapElementsPerElement(lanes: seq<seq<bv8>>, w: nat)
    requires w >= 1
    requires forall k :: 0 <= k < |lanes| ==> |lanes[k]| == w
    ensures SwapElements(Flatten(lanes), w) == Flatten(ReverseEach(lanes))
    decreases |lanes|
  {
    if |lanes| > 0 {
      var rest := lanes[1..];
      SwapElementsPerElement(rest, w);
      assert ReverseEach(lanes)[1..] == ReverseEach(rest);
      var b := Flatten(lanes);
      assert b == lanes[0] + Flatten(rest);
      assert b[..w] == lanes[0];
      assert b[w..] == Flatten(rest);
      if |b| <= w {
        assert rest == [];
      }
    }
  }

  /** Swapping twice restores the bytes: the first element is reversed
      back, and the rest by induction. */
  lemma {:induction false} SwapElementsInvolution(b: seq<bv8>, w: nat)
    requires w >= 1
    ensures SwapElements(SwapElements(b, w), w) == b
    decreases |b|
  {
    if |b| <= w {
      ReverseInvolution(b);
    } else {
      var head, rest := b[..w], b[w..];
      assert head + rest == b;
      var front, back := Reverse(head), SwapElements(rest, w);
      var s := front + back;
      assert SwapElements(b, w) == s;
      assert s[..w] == front && s[w..] == back;
      assert SwapElements(s, w) == Reverse(front) + SwapElements(back, w);
      ReverseInvolution(head);
      SwapElementsInvolution(rest, w);
    }
  }

  /** Value sizes that have an overload: 2, 4 and 8 bytes, or a vector
      wider than 8 bytes. A one-lane vector whose element is wider than
      8 bytes is such a vector, and the vector overload reverses that
      element whole. */
  predicate HasOverload(size: nat)
  {
    size == 2 || size == 4 || size == 8 || size > 8
  }

  /** Element widths are powers of two, the widths for which `swap<w>`
      pairs lane `i` with lane `i ^ (w - 1)`. */
  predicate IsPowerOfTwo(w: nat)
    decreases w
  {
    w == 1 || (w >= 2 && w % 2 == 0 && IsPowerOfTwo(w / 2))
  }

  /** A value made of whole `w`-byte elements that some overload accepts. */
  predicate WellShaped(b: seq<bv8>, w: nat)
  {
    IsPowerOfTwo(w) && |b| % w == 0 && HasOverload(|b|)
  }

  /** Overload selection as written: the vector overload is enabled only
      above 8 bytes, so any value of 2, 4 or 8 bytes, including a short
      vector such as two 16-bit lanes, reaches the whole-value `bswap`. */
  function SwapByteOrderAsWritten(b: seq<bv8>, w: nat): (r: seq<bv8>)
    requires WellShaped(b, w)
    ensures |r| == |b|
    ensures |b| == w || |b| > 8 ==> r == SwapElements(b, w)
  {
    if |b| > 8 then SwapElements(b, w) else Reverse(b)
  }

  /** A two-lane vector of 16-bit elements, bytes `02 01 | 04 03`, comes out
      as `03 04 | 01 02`: the lanes trade places, whereas the per-element
      swap yields `01 02 | 03 04`. */
  lemma ShortVectorLanesTradePlaces()
    ensures WellShaped([2, 1, 4, 3], 2)
    ensures SwapByteOrderAsWritten([2, 1, 4, 3], 2) == [3, 4, 1, 2]
    ensures SwapElements([2, 1, 4, 3], 2) == [1, 2, 3, 4]
  {
    var b: seq<bv8> := [2, 1, 4, 3];
    assert b[..2] == [2, 1] && b[2..] == [4, 3];
    assert Reverse([4, 3]) == [3, 4];
    assert Reverse([2, 1]) == [1, 2];
  }

  /** `swapbyteorder` with every element swapped in place, the behaviour
      the vector overload gives and the scalar overloads agree with. */
  function SwapByteOrder(b: seq<bv8>, w: nat): (r: seq<bv8>)
    requires WellShaped(b, w)
    ensures |r| == |b|
  {
    SwapElements(b, w)
  }

  /** A one-element value gets its bytes reversed, as the whole-value
      `bswap` does for 2, 4 and 8 bytes and `swap<sizeof(T)>` does for a
      one-lane vector wider than 8 bytes; any wider vector is swapped
      element by element. Only short multi-lane vectors differ. */
  lemma SwapByteOrderAgreesWithOverloads(b: seq<bv8>, w: nat)
    requires WellShaped(b, w)
    ensures |b| == w ==> SwapByteOrder(b, w) == Reverse(b)
    ensures |b| == w || |b| > 8 ==> SwapByteOrder(b, w) == SwapByteOrderAsWritten(b, w)
  {
  }

  /** Swapping twice restores the value, for scalars and vectors alike. */
  lemma SwapByteOrderInvolution(b: seq<bv8>, w: nat)
    requires WellShaped(b, w)
    ensures WellShaped(SwapByteOrder(b, w), w)
    ensures SwapByteOrder(SwapByteOrder(b, w), w) == b
  {
    SwapElementsInvolution(b, w);
  }

  /** The overloads as written are still an involution: the whole-value
      reversal and the per-element swap each undo themselves. */
  lemma SwapByteOrderAsWrittenInvolution(b: seq<bv8>, w: nat)
    requires WellShaped(b, w)
    ensures WellShaped(SwapByteOrderAsWritten(b, w), w)
    ensures SwapByteOrderAsWritten(SwapByteOrderAsWritten(b, w), w) == b
  {
    if |b| > 8 {
      SwapElementsInvolution(b, w);
    } else {
      ReverseInvolution(b);
    }
  }

  /** For a vector given by its elements' byte images, `swapbyteorder`
      reverses each element and keeps the element order. */
  lemma SwapByteOrderPerElement(lanes: seq<seq<bv8>>, w: nat)
    requires forall k :: 0 <= k < |lanes| ==> |lanes[k]| == w
    requires WellShaped(Flatten(lanes), w)
    ensures SwapByteOrder(Flatten(lanes), w) == Flatten(ReverseEach(lanes))
  {
    SwapElementsPerElement(lanes, w);
  }

  /** The low byte of a word. */
  function LowByte(x: bv64): bv8
  {
    (x & 0xFF) as bv8
  }

  /** The bytes of a 2-, 4- or 8-byte word in memory order on a
      little-endian target: least significant byte first. */
  function WordBytes(y: bv64, size: nat): (r: seq<bv8>)
    requires size == 2 || size == 4 || size == 8
    ensures |r| == size
  {
    if size == 2 then [LowByte(y), LowByte(y >> 8)]
    else if size == 4 then [LowByte(y), LowByte(y >> 8), LowByte(y >> 16), LowByte(y >> 24)]
    else [LowByte(y), LowByte(y >> 8), LowByte(y >> 16), LowByte(y >> 24),
          LowByte(y >> 32), LowByte(y >> 40), LowByte(y >> 48), LowByte(y >> 56)]
  }

  /** `__builtin_bswap16` on the low 16 bits of a word: byte `k` of the
      result is byte `1 - k` of the argument. */
  function Bswap16(x: bv16): (r: bv16)
    ensures r & 0xFF == x >> 8
    ensures r >> 8 == x & 0xFF
  {
    (x << 8) | (x >> 8)
  }

  /** `__builtin_bswap32`: byte `k` of the result is byte `3 - k` of the
      argument. */
  function Bswap32(x: bv32): (r: bv32)
    ensures r & 0xFF == x >> 24
    ensures (r >> 8) & 0xFF == (x >> 16) & 0xFF
    ensures (r >> 16) & 0xFF == (x >> 8) & 0xFF
    ensures r >> 24 == x & 0xFF
  {
    (x << 24) | ((x & 0xFF00) << 8) | ((x >> 8) & 0xFF00) | (x >> 24)
  }

  /** `__builtin_bswap64`, as two swapped 32-bit halves: byte `k` of the
      result is byte `7 - k` of the argument. */
  function Bswap64(x: bv64): (r: bv64)
    ensures r & 0xFF == x >> 56
    ensures (r >> 8) & 0xFF == (x >> 48) & 0xFF
    ensures (r >> 16) & 0xFF == (x >> 40) & 0xFF
    ensures (r >> 24) & 0xFF == (x >> 32) & 0xFF
    ensures (r >> 32) & 0xFF == (x >> 24) & 0xFF
    ensures (r >> 40) & 0xFF == (x >> 16) & 0xFF
    ensures (r >> 48) & 0xFF == (x >> 8) & 0xFF
    ensures r >> 56 == x & 0xFF
  {
    var lo := Bswap32((x & 0xFFFF_FFFF) as bv32) as bv64;
    var hi := Bswap32((x >> 32) as bv32) as bv64;
    (lo << 32) | hi
  }

  /** Widening a 16-bit word to 64 bits keeps both of its bytes. */
  lemma WidenedBytes16(v: bv16)
    ensures LowByte(v as bv64) == (v & 0xFF) as bv8
    ensures LowByte((v as bv64) >> 8) == (v >> 8) as bv8
  {
  }

  /** Widening a 32-bit word to 64 bits keeps each of its four bytes. */
  lemma WidenedBytes32(v: bv32)
    ensures LowByte(v as bv64) == (v & 0xFF) as bv8
    ensures LowByte((v as bv64) >> 8) == ((v >> 8) & 0xFF) as bv8
    ensures LowByte((v as bv64) >> 16) == ((v >> 16) & 0xFF) as bv8
    ensures LowByte((v as bv64) >> 24) == (v >> 24) as bv8
  {
  }

  /** Each builtin reverses the bytes of the word it is given, so the
      scalar overloads of `swapbyteorder` are `Reverse` on the value's bytes. */
  lemma Bswap16ReversesBytes(x: bv16)
    ensures WordBytes(Bswap16(x) as bv64, 2) == Reverse(WordBytes(x as bv64, 2))
  {
    WidenedBytes16(x);
    WidenedBytes16(Bswap16(x));
  }

  lemma Bswap32ReversesBytes(x: bv32)
    ensures WordBytes(Bswap32(x) as bv64, 4) == Reverse(WordBytes(x as bv64, 4))
  {
    WidenedBytes32(x);
    WidenedBytes32(Bswap32(x));
  }

  lemma Bswap64ReversesBytes(x: bv64)
    ensures WordBytes(Bswap64(x), 8) == Reverse(WordBytes(x, 8))
  {
    ReverseOfEight(WordBytes(x, 8));
  }

  lemma ReverseOfEight(b: seq<bv8>)
    requires |b| == 8
    ensures Reverse(b) == [b[7], b[6], b[5], b[4], b[3], b[2], b[1], b[0]]
  {
  }
}
