/** Bytes as bit strings, and the padding loops of the hand-written SHA-256.
    Models the first part of sha256Hex in packages/core/src/v12UnlinkableSchemas.ts. */
module Sha256Padding {
  import opened Powers
  import opened Collections
  import opened Js32
  import opened BitMasks
  import opened Sha256Spec
  import opened Sha256Words

  function BytesBits(bytes: seq<Byte>): (b: Bits)
    ensures |b| == 8 * |bytes|
  {
    if bytes == [] then [] else BytesBits(bytes[..|bytes| - 1]) + BitsOf(8, bytes[|bytes| - 1])
  }

  lemma BytesBitsAppend(bytes: seq<Byte>, last: Byte)
    ensures BytesBits(bytes + [last]) == BytesBits(bytes) + BitsOf(8, last)
  {
  }

  lemma {:induction false} BytesBitsConcat(a: seq<Byte>, b: seq<Byte>)
    ensures BytesBits(a + b) == BytesBits(a) + BytesBits(b)
  {
    if b == [] {
      assert a + b == a;
    } else {
      var front, last := b[..|b| - 1], b[|b| - 1];
      BytesBitsConcat(a, front);
      BytesBitsConcatLast(a, front, last);
      assert b == front + [last];
    }
  }

  lemma BytesBitsConcatLast(a: seq<Byte>, front: seq<Byte>, last: Byte)
    requires BytesBits(a + front) == BytesBits(a) + BytesBits(front)
    ensures BytesBits(a + (front + [last])) == BytesBits(a) + BytesBits(front + [last])
  {
    ConcatAssociates(a, front, [last]);
    BytesBitsAppend(a + front, last);
    BytesBitsAppend(front, last);
    ConcatAssociates(BytesBits(a), BytesBits(front), BitsOf(8, last));
  }

  lemma {:induction false} BitsSplit(n: nat, m: nat, x: nat)
    ensures BitsOf(n + m, x) == BitsOf(n, DropBits(x, m)) + BitsOf(m, x)
  {
    if m > 0 {
      BitsSplit(n, m - 1, x / 2);
      HalfThenDivide(x, m - 1);
    }
  }

  lemma {:induction false} BitsOfLow(n: nat, x: nat)
    ensures BitsOf(n, x % Pow2(n)) == BitsOf(n, x)
  {
    if n > 0 {
      ModStep(x, n - 1);
      BitsOfLow(n - 1, x / 2);
    }
  }

  lemma {:induction false} ZerosOfZero(n: nat, x: nat)
    requires x % Pow2(n) == 0
    ensures BitsOf(n, x) == Zeros(n)
  {
    BitsOfLow(n, x);
    BitsOfNothing(n);
  }

  lemma {:induction false} BitsOfNothing(n: nat)
    ensures BitsOf(n, 0) == Zeros(n)
  {
    if n > 0 {
      BitsOfNothing(n - 1);
    }
  }

  lemma {:induction false} ZerosConcat(m: nat, n: nat)
    ensures Zeros(m) + Zeros(n) == Zeros(m + n)
  {
    if n > 0 {
      ZerosConcat(m, n - 1);
      assert Zeros(m) + Zeros(n) == Zeros(m) + Zeros(n - 1) + [0];
    } else {
      assert Zeros(m) + [] == Zeros(m);
    }
  }

  lemma OneBitByte()
    ensures BitsOf(8, 0x80) == [1] + Zeros(7)
  {
    assert Pow2(7) == 128;
    BitsSplit(1, 7, 0x80);
    assert DropBits(0x80, 7) == 1 && BitsOf(1, 1) == [1];
    ZerosOfZero(7, 0x80);
  }

  lemma ZeroByte(n: nat)
    ensures Zeros(n) + BitsOf(8, 0) == Zeros(n + 8)
  {
    BitsOfNothing(8);
    ZerosConcat(n, 8);
  }

  /** The zero bits of the byte 0x80 and of some zero bytes after it. */
  function ZeroTail(zeros: nat): Bits {
    Zeros(7 + 8 * zeros)
  }

  /** The number of zero bytes that fill a block up to its last eight bytes. */
  predicate FillsBlock(length: nat, zeros: nat) {
    zeros < 64 && (length + 1 + zeros) % 64 == 56
  }

  lemma FillerExists(length: nat) returns (enough: nat)
    ensures FillsBlock(length, enough) && Zeros(ZeroCount(8 * length)) == ZeroTail(enough)
  {
    enough := (55 - length) % 64;
    var q := (55 - length) / 64;
    QuotientIs(length + 1 + enough, 64, -q, 56);
    QuotientIs(447 - 8 * length, 512, q, 8 * enough + 7);
  }

  /** The loop stops when the block is filled, and not before. */
  lemma StopsWhenFilled(length: nat, enough: nat, zeros: nat, size: nat)
    requires FillsBlock(length, enough) && zeros <= enough && size == length + 1 + zeros
    ensures size % 64 == 56 <==> zeros == enough
  {
  }

  lemma AppendZeroByte(padded: seq<Byte>, start: Bits, zeros: nat)
    requires BytesBits(padded) == start + ZeroTail(zeros)
    ensures BytesBits(padded + [0]) == start + ZeroTail(zeros + 1)
  {
    BytesBitsAppend(padded, 0);
    ConcatAssociates(start, ZeroTail(zeros), BitsOf(8, 0));
    ZeroByte(7 + 8 * zeros);
  }

  /** The one bit, and zero bytes until 8 bytes are left in the block. */
  method PadToLength(bytes: seq<Byte>) returns (padded: seq<Byte>)
    ensures BytesBits(padded) == BytesBits(bytes) + [1] + Zeros(ZeroCount(8 * |bytes|))
  {
    ghost var enough := FillerExists(|bytes|);
    BytesBitsAppend(bytes, 0x80);
    OneBitByte();
    ConcatAssociates(BytesBits(bytes), [1], Zeros(7));
    padded := FillBlock(bytes + [0x80], BytesBits(bytes) + [1], |bytes|, enough);
  }

  /** The loop of zero bytes. */
  method FillBlock(bytes: seq<Byte>, ghost start: Bits, ghost length: nat, ghost enough: nat)
    returns (padded: seq<Byte>)
    requires |bytes| == length + 1 && FillsBlock(length, enough) && BytesBits(bytes) == start + ZeroTail(0)
    ensures BytesBits(padded) == start + ZeroTail(enough)
  {
    padded := bytes;
    ghost var zeros: nat := 0;
    StopsWhenFilled(length, enough, zeros, |padded|);
    while |padded| % 64 != 56
      invariant |padded| == length + 1 + zeros && zeros <= enough
      invariant |padded| % 64 == 56 <==> zeros == enough
      invariant BytesBits(padded) == start + ZeroTail(zeros)
      decreases enough - zeros
    {
      AppendZeroByte(padded, start, zeros);
      padded := padded + [0];
      zeros := zeros + 1;
      StopsWhenFilled(length, enough, zeros, |padded|);
    }
  }

  lemma {:induction false} DropTwice(x: nat, m: nat, n: nat)
    ensures DropBits(DropBits(x, m), n) == DropBits(x, m + n)
    decreases m
  {
    if m > 0 {
      HalfThenDivide(x, m - 1);
      DropTwice(x / 2, m - 1, n);
      HalfThenDivide(x, m - 1 + n);
    }
  }

  lemma FitsInBits(x: nat, m: nat)
    requires x < Pow2(m)
    ensures DropBits(x, m) == 0
  {
  }

  lemma LengthBits(n: nat, x: nat, shift: nat, b: Byte)
    requires b == DropBits(x, shift) % 256
    ensures BitsOf(n + 8, DropBits(x, shift)) == BitsOf(n, DropBits(x, shift + 8)) + BitsOf(8, b)
  {
    var high := DropBits(x, shift);
    BitsSplit(n, 8, high);
    DropTwice(x, shift, 8);
    LowByteBits(high);
  }

  /** The next length byte holds the next eight bits. */
  lemma LengthByte(tail: seq<Byte>, n: nat, shorter: nat, longer: nat, b: Byte)
    requires BytesBits(tail) == BitsOf(n, shorter) && BitsOf(n + 8, longer) == BitsOf(n, shorter) + BitsOf(8, b)
    ensures BytesBits(tail + [b]) == BitsOf(n + 8, longer)
  {
  }

  lemma LowByteBits(x: nat)
    ensures BitsOf(8, x % 256) == BitsOf(8, x)
  {
    assert Pow2(8) == 256;
    BitsOfLow(8, x);
  }

  /** The eight bytes `Math.floor(bitLength / 2 ** shift) & 0xff`, highest first. */
  method LengthBytes(bitLength: nat) returns (tail: seq<Byte>)
    requires bitLength < TWO32 * TWO32
    ensures BytesBits(tail) == BitsOf(64, bitLength)
  {
    tail := [];
    var shift := 56;
    assert Pow2(64) == TWO32 * TWO32 by {
      Pow2Of32();
      PowSum(32, 32);
    }
    FitsInBits(bitLength, 64);
    while shift >= 0
      invariant shift == 56 - 8 * |tail| && |tail| <= 8
      invariant BytesBits(tail) == BitsOf(8 * |tail|, DropBits(bitLength, shift + 8))
      decreases shift + 8
    {
      LowByte(DropBits(bitLength, shift));
      var b: Byte := JsAnd(DropBits(bitLength, shift), 0xff);
      LengthBits(8 * |tail|, bitLength, shift, b);
      LengthByte(tail, 8 * |tail|, DropBits(bitLength, shift + 8), DropBits(bitLength, shift), b);
      tail := tail + [b];
      shift := shift - 8;
    }
    assert DropBits(bitLength, 0) == bitLength;
  }

  /** The padding, byte by byte. */
  method PadBytes(bytes: seq<Byte>) returns (padded: seq<Byte>)
    requires 8 * |bytes| < TWO32 * TWO32
    ensures BytesBits(padded) == Pad(BytesBits(bytes))
  {
    padded := PadToLength(bytes);
    var tail := LengthBytes(8 * |bytes|);
    BytesBitsConcat(padded, tail);
    padded := padded + tail;
  }

  // Words of a block.

  lemma ValueAppend(bits: Bits, last: Bit)
    ensures ValueOf(bits + [last]) == 2 * ValueOf(bits) + last
  {
  }

  lemma DoubleProduct(p: int, v: int)
    ensures 2 * (p * v) == (2 * p) * v
  {
  }

  lemma {:induction false} ValueAppendBits(bits: Bits, n: nat, x: nat)
    requires x < Pow2(n)
    ensures ValueOf(bits + BitsOf(n, x)) == Pow2(n) * ValueOf(bits) + x
  {
    if n == 0 {
      assert bits + [] == bits;
    } else {
      var front, v := bits + BitsOf(n - 1, x / 2), ValueOf(bits);
      calc {
        ValueOf(bits + BitsOf(n, x));
        { assert bits + BitsOf(n, x) == front + [x % 2]; ValueAppend(front, x % 2); }
        2 * ValueOf(front) + x % 2;
        { ValueAppendBits(bits, n - 1, x / 2); }
        2 * (Pow2(n - 1) * v + x / 2) + x % 2;
        { DoubleProduct(Pow2(n - 1), v); }
        Pow2(n) * v + x;
      }
    }
  }

  /** Appending a byte's bits multiplies the value by 256. */
  lemma ValueAppendByte(bits: Bits, b: Byte)
    ensures ValueOf(bits + BitsOf(8, b)) == 256 * ValueOf(bits) + b
  {
    ValueAppendBits(bits, 8, b);
    assert Pow2(8) == 256;
  }

  /** `(b0 << 24) | (b1 << 16) | (b2 << 8) | b3`. */
  function JsWord(b0: Byte, b1: Byte, b2: Byte, b3: Byte): int {
    JsOr(JsOr(JsOr(JsShl(b0, 24), JsShl(b1, 16)), JsShl(b2, 8)), b3)
  }

  lemma ShiftedByte(b: Byte, n: nat)
    requires n == 8 || n == 16 || n == 24
    ensures ToUint32(JsShl(b, n)) == b * Pow2(n)
  {
    SomePowers();
    ShlWord(b, n);
    WordOfWord(b);
    WordOfWord(b * Pow2(n));
  }

  lemma JsWordIsBigEndian(b0: Byte, b1: Byte, b2: Byte, b3: Byte)
    ensures ToUint32(JsWord(b0, b1, b2, b3)) == BigEndian(b0, b1, b2, b3)
  {
    SomePowers();
    ShiftedByte(b0, 24);
    ShiftedByte(b1, 16);
    ShiftedByte(b2, 8);
    WordOfWord(b3);
    var x, y := JsShl(b0, 24), JsShl(b1, 16);
    DisjointOr(x, y, b0, 24);
    DisjointOr(JsOr(x, y), JsShl(b2, 8), b0 * 256 + b1, 16);
    DisjointOr(JsOr(JsOr(x, y), JsShl(b2, 8)), b3, (b0 * 256 + b1) * 256 + b2, 8);
  }

  function BigEndian(b0: int, b1: int, b2: int, b3: int): int {
    ((b0 * 256 + b1) * 256 + b2) * 256 + b3
  }

  lemma ValueOfFourBytes(b0: Byte, b1: Byte, b2: Byte, b3: Byte)
    ensures ValueOf(BytesBits([b0, b1, b2, b3])) == BigEndian(b0, b1, b2, b3)
  {
    ValueOfNext([], b0);
    ValueOfNext([b0], b1);
    ValueOfNext([b0, b1], b2);
    ValueOfNext([b0, b1, b2], b3);
    assert [] + [b0] == [b0] && [b0] + [b1] == [b0, b1];
    assert [b0, b1] + [b2] == [b0, b1, b2] && [b0, b1, b2] + [b3] == [b0, b1, b2, b3];
  }

  lemma ValueOfNext(bytes: seq<Byte>, next: Byte)
    ensures ValueOf(BytesBits(bytes + [next])) == 256 * ValueOf(BytesBits(bytes)) + next
  {
    BytesBitsAppend(bytes, next);
    ValueAppendByte(BytesBits(bytes), next);
  }

  lemma SliceOfParts(a: seq<Byte>, b: seq<Byte>, c: seq<Byte>)
    ensures BytesBits(a + b + c)[8 * |a|..8 * |a| + 8 * |b|] == BytesBits(b)
  {
    BytesBitsConcat(a, b);
    BytesBitsConcat(a + b, c);
    ConcatAssociates(BytesBits(a), BytesBits(b), BytesBits(c));
    MiddleSlice(BytesBits(a), BytesBits(b), BytesBits(c));
  }

  lemma FourByteParts(bytes: seq<Byte>, j: nat)
    requires j + 4 <= |bytes|
    ensures bytes == bytes[..j] + [bytes[j], bytes[j + 1], bytes[j + 2], bytes[j + 3]] + bytes[j + 4..]
  {
  }

  lemma FourByteSlice(bytes: seq<Byte>, j: nat)
    requires j + 4 <= |bytes|
    ensures BytesBits(bytes)[8 * j..8 * j + 32] == BytesBits([bytes[j], bytes[j + 1], bytes[j + 2], bytes[j + 3]])
  {
    FourByteParts(bytes, j);
    SliceOfParts(bytes[..j], [bytes[j], bytes[j + 1], bytes[j + 2], bytes[j + 3]], bytes[j + 4..]);
  }

  lemma FourByteValue(bytes: seq<Byte>, j: nat)
    requires j + 4 <= |bytes|
    ensures ValueOf(BytesBits(bytes)[8 * j..8 * j + 32])
         == BigEndian(bytes[j], bytes[j + 1], bytes[j + 2], bytes[j + 3])
  {
    FourByteSlice(bytes, j);
    ValueOfFourBytes(bytes[j], bytes[j + 1], bytes[j + 2], bytes[j + 3]);
  }

  /** Reading four bytes of a block, as the source does, gives the standard's word. */
  lemma WordOfBlock(bytes: seq<Byte>, t: nat, j: nat)
    requires j == 4 * t && j + 4 <= |bytes|
    ensures WordAt(BytesBits(bytes), t) == ToUint32(JsWord(bytes[j], bytes[j + 1], bytes[j + 2], bytes[j + 3]))
  {
    FourByteValue(bytes, j);
    JsWordIsBigEndian(bytes[j], bytes[j + 1], bytes[j + 2], bytes[j + 3]);
  }
}
