/** The functions of SHA-256 bit by bit and in numbers, as sections 3.2, 4.1.2 and 6.2.2 of FIPS 180-4 describe
    them. */
module Sha256Bits {
  import opened Powers
  import opened Js32
  import opened Sha256Spec

  /** Bit i of a number, counted from the lowest. */
  function BitAt(x: nat, i: nat): (b: Bit)
    decreases i
  {
    if i == 0 then x % 2 else BitAt(x / 2, i - 1)
  }

  lemma {:induction false} BitIsDigit(x: nat, i: nat)
    ensures 0 <= x / Pow2(i) && BitAt(x, i) == x / Pow2(i) % 2
    decreases i
  {
    QuotientBounds(x, Pow2(i));
    if i > 0 {
      BitIsDigit(x / 2, i - 1);
      HalfThenDivide(x, i - 1);
    }
  }

  lemma {:induction false} GateBits(g: Gate, n: nat, x: nat, y: nat, i: nat)
    requires i < n
    ensures BitAt(Bitwise(g, n, x, y), i) == GateBit(g, BitAt(x, i), BitAt(y, i))
    decreases i
  {
    var low, high := GateBit(g, x % 2, y % 2), Bitwise(g, n - 1, x / 2, y / 2);
    assert Bitwise(g, n, x, y) == low + 2 * high;
    assert (low + 2 * high) % 2 == low && (low + 2 * high) / 2 == high;
    if i > 0 {
      GateBits(g, n - 1, x / 2, y / 2, i - 1);
    }
  }

  lemma {:induction false} FlipBits(n: nat, x: nat, i: nat)
    requires i < n
    ensures BitAt(Flip(n, x), i) == 1 - BitAt(x, i)
    decreases i
  {
    var low, high := 1 - x % 2, Flip(n - 1, x / 2);
    assert Flip(n, x) == low + 2 * high;
    assert (low + 2 * high) % 2 == low && (low + 2 * high) / 2 == high;
    if i > 0 {
      FlipBits(n - 1, x / 2, i - 1);
    }
  }

  lemma {:induction false} NoHighBits(x: nat, k: nat, i: nat)
    requires x < Pow2(k) && k <= i
    ensures BitAt(x, i) == 0
    decreases i
  {
    if i > 0 {
      NoHighBits(x / 2, if k > 0 then k - 1 else 0, i - 1);
    }
  }

  lemma {:induction false} BitsAbove(x: nat, n: nat, i: nat)
    ensures 0 <= x / Pow2(n) && BitAt(x / Pow2(n), i) == BitAt(x, i + n)
    decreases n
  {
    QuotientBounds(x, Pow2(n));
    if n > 0 {
      BitsAbove(x / 2, n - 1, i);
      HalfThenDivide(x, n - 1);
    }
  }

  lemma {:induction false} BitsShifted(x: nat, m: nat, i: nat)
    ensures BitAt(x * Pow2(m), i) == if i < m then 0 else BitAt(x, i - m)
    decreases m
  {
    if m > 0 {
      assert x * Pow2(m) == 2 * (x * Pow2(m - 1));
      if i > 0 {
        BitsShifted(x, m - 1, i - 1);
      }
    }
  }

  lemma {:induction false} BitsBelow(x: nat, k: nat, i: nat)
    requires i < k
    ensures 0 <= x % Pow2(k) && BitAt(x % Pow2(k), i) == BitAt(x, i)
    decreases i
  {
    ModStep(x, k - 1);
    var low, high := x % 2, x / 2 % Pow2(k - 1);
    assert x % Pow2(k) == low + 2 * high;
    LowAndHigh(low, high);
    if i > 0 {
      BitsBelow(x / 2, k - 1, i - 1);
    }
  }

  lemma LowAndHigh(low: nat, high: nat)
    requires low < 2
    ensures (low + 2 * high) % 2 == low && (low + 2 * high) / 2 == high
  {
  }

  /** Shifting right moves every bit down and brings in zeros. */
  lemma ShiftRightBit(x: Word, n: nat, i: nat)
    requires i < 32
    ensures BitAt(ShiftRight(x, n), i) == if i + n < 32 then BitAt(x, i + n) else 0
  {
    Pow2Of32();
    BitsAbove(x, n, i);
    if i + n >= 32 {
      NoHighBits(x, 32, i + n);
    }
  }

  lemma ShiftLeftBit(x: Word, m: nat, i: nat)
    requires i < 32
    ensures BitAt(ShiftLeft(x, m), i) == if i < m then 0 else BitAt(x, i - m)
  {
    Pow2Of32();
    BitsBelow(x * Pow2(m), 32, i);
    BitsShifted(x, m, i);
  }

  lemma WordGateBit(g: Gate, x: Word, y: Word, i: nat)
    requires i < 32
    ensures BitAt(WordGate(g, x, y), i) == GateBit(g, BitAt(x, i), BitAt(y, i))
  {
    GateBits(g, 32, x, y, i);
  }

  /** Rotating right moves every bit down, and the lowest ones to the top. */
  lemma RotateRightBit(x: Word, n: nat, i: nat)
    requires n < 32 && i < 32
    ensures BitAt(RotateRight(x, n), i) == BitAt(x, (i + n) % 32)
  {
    WordGateBit(Or, ShiftRight(x, n), ShiftLeft(x, 32 - n), i);
    ShiftRightBit(x, n, i);
    ShiftLeftBit(x, 32 - n, i);
  }

  /** Bit i of Ch is y's where x has a one, and z's elsewhere. */
  lemma ChBit(x: Word, y: Word, z: Word, i: nat)
    requires i < 32
    ensures BitAt(Ch(x, y, z), i) == if BitAt(x, i) == 1 then BitAt(y, i) else BitAt(z, i)
  {
    FlipBits(32, x, i);
    WordGateBit(And, x, y, i);
    WordGateBit(And, Not(x), z, i);
    WordGateBit(Xor, WordGate(And, x, y), WordGate(And, Not(x), z), i);
  }

  lemma Xor3Bit(x: Word, y: Word, z: Word, i: nat)
    requires i < 32
    ensures BitAt(Xor3(x, y, z), i) == (BitAt(x, i) + BitAt(y, i) + BitAt(z, i)) % 2
  {
    WordGateBit(Xor, x, y, i);
    WordGateBit(Xor, WordGate(Xor, x, y), z, i);
  }

  /** Bit i of Maj is the majority of the three. */
  lemma MajBit(x: Word, y: Word, z: Word, i: nat)
    requires i < 32
    ensures BitAt(Maj(x, y, z), i) == if BitAt(x, i) + BitAt(y, i) + BitAt(z, i) >= 2 then 1 else 0
  {
    WordGateBit(And, x, y, i);
    WordGateBit(And, x, z, i);
    WordGateBit(And, y, z, i);
    Xor3Bit(WordGate(And, x, y), WordGate(And, x, z), WordGate(And, y, z), i);
  }

  lemma BigSigmaBit(x: Word, p: nat, q: nat, r: nat, i: nat)
    requires p < 32 && q < 32 && r < 32 && i < 32
    ensures BitAt(Xor3(RotateRight(x, p), RotateRight(x, q), RotateRight(x, r)), i)
         == (BitAt(x, (i + p) % 32) + BitAt(x, (i + q) % 32) + BitAt(x, (i + r) % 32)) % 2
  {
    RotateRightBit(x, p, i);
    RotateRightBit(x, q, i);
    RotateRightBit(x, r, i);
    Xor3Bit(RotateRight(x, p), RotateRight(x, q), RotateRight(x, r), i);
  }

  lemma SmallSigmaBit(x: Word, p: nat, q: nat, r: nat, i: nat)
    requires p < 32 && q < 32 && i < 32
    ensures BitAt(Xor3(RotateRight(x, p), RotateRight(x, q), ShiftRight(x, r)), i)
         == (BitAt(x, (i + p) % 32) + BitAt(x, (i + q) % 32) + (if i + r < 32 then BitAt(x, i + r) else 0)) % 2
  {
    RotateRightBit(x, p, i);
    RotateRightBit(x, q, i);
    ShiftRightBit(x, r, i);
    Xor3Bit(RotateRight(x, p), RotateRight(x, q), ShiftRight(x, r), i);
  }

  /** Bit i of BigSigma0 is the parity of three bits. */
  lemma BigSigma0Bit(x: Word, i: nat)
    requires i < 32
    ensures BitAt(BigSigma0(x), i)
         == (BitAt(x, (i + 2) % 32) + BitAt(x, (i + 13) % 32) + BitAt(x, (i + 22) % 32)) % 2
  {
    BigSigmaBit(x, 2, 13, 22, i);
  }

  /** Bit i of BigSigma1 is the parity of three bits. */
  lemma BigSigma1Bit(x: Word, i: nat)
    requires i < 32
    ensures BitAt(BigSigma1(x), i)
         == (BitAt(x, (i + 6) % 32) + BitAt(x, (i + 11) % 32) + BitAt(x, (i + 25) % 32)) % 2
  {
    BigSigmaBit(x, 6, 11, 25, i);
  }

  /** Bit i of SmallSigma0 is the parity of three bits. */
  lemma SmallSigma0Bit(x: Word, i: nat)
    requires i < 32
    ensures BitAt(SmallSigma0(x), i)
         == (BitAt(x, (i + 7) % 32) + BitAt(x, (i + 18) % 32) + (if i + 3 < 32 then BitAt(x, i + 3) else 0)) % 2
  {
    SmallSigmaBit(x, 7, 18, 3, i);
  }

  /** Bit i of SmallSigma1 is the parity of three bits. */
  lemma SmallSigma1Bit(x: Word, i: nat)
    requires i < 32
    ensures BitAt(SmallSigma1(x), i)
         == (BitAt(x, (i + 17) % 32) + BitAt(x, (i + 19) % 32) + (if i + 10 < 32 then BitAt(x, i + 10) else 0)) % 2
  {
    SmallSigmaBit(x, 17, 19, 10, i);
  }

  // Sums.

  lemma PlusOne(x: int, y: int)
    ensures Plus(x % TWO32, y) == (x + y) % TWO32
  {
  }

  lemma PlusTwo(x: int, y: int)
    ensures Plus(x % TWO32, y % TWO32) == (x + y) % TWO32
  {
  }

  lemma PlusFour(a: Word, b: Word, c: Word, d: Word)
    ensures Plus(Plus(Plus(a, b), c), d) == (a + b + c + d) % TWO32
  {
    PlusOne(a + b, c);
    PlusOne(a + b + c, d);
  }

  lemma PlusFive(a: Word, b: Word, c: Word, d: Word, e: Word)
    ensures Plus(Plus(Plus(Plus(a, b), c), d), e) == (a + b + c + d + e) % TWO32
  {
    PlusFour(a, b, c, d);
    PlusOne(a + b + c + d, e);
  }

  /** A later word of the message schedule is the sum of four earlier ones, modulo 2^32. */
  lemma ScheduleSums(block: seq<Word>, t: nat)
    requires |block| == 16
    ensures t < 16 ==> Schedule(block, t) == block[t]
    ensures t >= 16 ==>
      Schedule(block, t)
      == (SmallSigma1(Schedule(block, t - 2)) + Schedule(block, t - 7)
          + SmallSigma0(Schedule(block, t - 15)) + Schedule(block, t - 16)) % 0x1_0000_0000
  {
    if t >= 16 {
      PlusFour(SmallSigma1(Schedule(block, t - 2)), Schedule(block, t - 7), SmallSigma0(Schedule(block, t - 15)),
        Schedule(block, t - 16));
    }
  }

  /** The nested additions of a round are two sums modulo 2^32. */
  lemma RoundInts(h: Word, s1: Word, ch: Word, k: Word, w: Word, s0: Word, maj: Word, d: Word)
    ensures var t1, t2 := Plus(Plus(Plus(Plus(h, s1), ch), k), w), Plus(s0, maj);
      && Plus(t1, t2) == (h + s1 + ch + k + w + s0 + maj) % TWO32
      && Plus(d, t1) == (d + h + s1 + ch + k + w) % TWO32
  {
    PlusFive(h, s1, ch, k, w);
    PlusTwo(h + s1 + ch + k + w, s0 + maj);
    PlusOne(h + s1 + ch + k + w, d);
  }

  /** One round shifts the working variables. */
  lemma RoundShifts(v: Vars, k: Word, w: Word)
    ensures var r := Round(v, k, w);
      r.b == v.a && r.c == v.b && r.d == v.c && r.f == v.e && r.g == v.f && r.h == v.g
  {
  }

  /** A round computes its two new variables from these sums. */
  lemma RoundOf(v: Vars, k: Word, w: Word, s0: Word, s1: Word, ch: Word, maj: Word)
    requires s0 == BigSigma0(v.a) && s1 == BigSigma1(v.e) && ch == Ch(v.e, v.f, v.g) && maj == Maj(v.a, v.b, v.c)
    ensures Round(v, k, w).a == Plus(Plus(Plus(Plus(Plus(v.h, s1), ch), k), w), Plus(s0, maj))
    ensures Round(v, k, w).e == Plus(v.d, Plus(Plus(Plus(Plus(v.h, s1), ch), k), w))
  {
  }

  /** The rounds run from the first constant and schedule word to the last. */
  lemma RoundsStep(v: Vars, block: seq<Word>, t: nat)
    requires |block| == 16 && t < 64
    ensures Rounds(v, block, 0) == v
    ensures Rounds(v, block, t + 1) == Round(Rounds(v, block, t), K(t), Schedule(block, t))
  {
  }

  /** A block adds its last working variables to the hash value, word by word. */
  lemma CompressSums(v: Vars, block: seq<Word>)
    requires |block| == 16
    ensures var after, r := Rounds(v, block, 64), Compress(v, block);
      && r.a == Plus(v.a, after.a) && r.b == Plus(v.b, after.b) && r.c == Plus(v.c, after.c)
      && r.d == Plus(v.d, after.d) && r.e == Plus(v.e, after.e) && r.f == Plus(v.f, after.f)
      && r.g == Plus(v.g, after.g) && r.h == Plus(v.h, after.h)
  {
  }
}
