/** SHA-256 as FIPS 180-4 defines it, on bits and 32-bit words. */
module Sha256Spec {
  import opened Powers
  import opened Js32

  type Bit = b: int | 0 <= b <= 1

  /** A string of bits, most significant first. */
  type Bits = seq<Bit>

  // Words, section 3.2.

  /** The low n bits of a number, most significant first. */
  function BitsOf(n: nat, x: nat): (b: Bits)
    ensures |b| == n
  {
    if n == 0 then [] else BitsOf(n - 1, x / 2) + [x % 2]
  }

  /** The number a bit string stands for. */
  function ValueOf(bits: Bits): (v: nat)
    ensures v < Pow2(|bits|)
  {
    if bits == [] then 0 else 2 * ValueOf(bits[..|bits| - 1]) + bits[|bits| - 1]
  }

  function Plus(x: int, y: int): Word {
    (x + y) % TWO32
  }

  /** The complement of the low n bits. */
  function Flip(n: nat, x: nat): (y: nat)
    ensures y < Pow2(n)
  {
    if n == 0 then 0 else (1 - x % 2) + 2 * Flip(n - 1, x / 2)
  }

  function Not(x: Word): Word {
    Pow2Of32();
    Flip(32, x)
  }

  function ShiftRight(x: Word, n: nat): Word {
    QuotientBounds(x, Pow2(n));
    x / Pow2(n)
  }

  function ShiftLeft(x: Word, n: nat): Word {
    (x * Pow2(n)) % TWO32
  }

  function RotateRight(x: Word, n: nat): Word
    requires n < 32
  {
    WordGate(Or, ShiftRight(x, n), ShiftLeft(x, 32 - n))
  }

  // Functions, section 4.1.2.

  function Xor3(x: Word, y: Word, z: Word): Word {
    WordGate(Xor, WordGate(Xor, x, y), z)
  }

  function Ch(x: Word, y: Word, z: Word): Word {
    WordGate(Xor, WordGate(And, x, y), WordGate(And, Not(x), z))
  }

  function Maj(x: Word, y: Word, z: Word): Word {
    Xor3(WordGate(And, x, y), WordGate(And, x, z), WordGate(And, y, z))
  }

  function BigSigma0(x: Word): Word { Xor3(RotateRight(x, 2), RotateRight(x, 13), RotateRight(x, 22)) }

  function BigSigma1(x: Word): Word { Xor3(RotateRight(x, 6), RotateRight(x, 11), RotateRight(x, 25)) }

  function SmallSigma0(x: Word): Word { Xor3(RotateRight(x, 7), RotateRight(x, 18), ShiftRight(x, 3)) }

  function SmallSigma1(x: Word): Word { Xor3(RotateRight(x, 17), RotateRight(x, 19), ShiftRight(x, 10)) }

  // Constants, sections 4.2.2 and 5.3.3.

  /** The round constants, in rows of eight. */
  const CONSTANTS: seq<seq<Word>> := [
    [0x428a2f98, 0x71374491, 0xb5c0fbcf, 0xe9b5dba5, 0x3956c25b, 0x59f111f1, 0x923f82a4, 0xab1c5ed5],
    [0xd807aa98, 0x12835b01, 0x243185be, 0x550c7dc3, 0x72be5d74, 0x80deb1fe, 0x9bdc06a7, 0xc19bf174],
    [0xe49b69c1, 0xefbe4786, 0x0fc19dc6, 0x240ca1cc, 0x2de92c6f, 0x4a7484aa, 0x5cb0a9dc, 0x76f988da],
    [0x983e5152, 0xa831c66d, 0xb00327c8, 0xbf597fc7, 0xc6e00bf3, 0xd5a79147, 0x06ca6351, 0x14292967],
    [0x27b70a85, 0x2e1b2138, 0x4d2c6dfc, 0x53380d13, 0x650a7354, 0x766a0abb, 0x81c2c92e, 0x92722c85],
    [0xa2bfe8a1, 0xa81a664b, 0xc24b8b70, 0xc76c51a3, 0xd192e819, 0xd6990624, 0xf40e3585, 0x106aa070],
    [0x19a4c116, 0x1e376c08, 0x2748774c, 0x34b0bcb5, 0x391c0cb3, 0x4ed8aa4a, 0x5b9cca4f, 0x682e6ff3],
    [0x748f82ee, 0x78a5636f, 0x84c87814, 0x8cc70208, 0x90befffa, 0xa4506ceb, 0xbef9a3f7, 0xc67178f2]]

  function K(t: nat): Word
    requires t < 64
  {
    CONSTANTS[t / 8][t % 8]
  }

  const INITIAL: Vars := Vars(
    0x6a09e667, 0xbb67ae85, 0x3c6ef372, 0xa54ff53a, 0x510e527f, 0x9b05688c, 0x1f83d9ab, 0x5be0cd19)

  // The computation, sections 5.1.1, 5.2.1 and 6.2.

  datatype Vars = Vars(a: Word, b: Word, c: Word, d: Word, e: Word, f: Word, g: Word, h: Word)

  function Zeros(n: nat): (b: Bits)
    ensures |b| == n
  {
    if n == 0 then [] else Zeros(n - 1) + [0]
  }

  /** The number of zero bits of padding: the smallest that leaves 64 bits in the last block. */
  function ZeroCount(length: nat): nat {
    (447 - length) % 512
  }

  function Pad(message: Bits): Bits {
    message + [1] + Zeros(ZeroCount(|message|)) + BitsOf(64, |message|)
  }

  /** Word t of a padded message, counted over all blocks. */
  function WordAt(padded: Bits, t: nat): Word
    requires 32 * t + 32 <= |padded|
  {
    Pow2Of32();
    ValueOf(padded[32 * t..32 * t + 32])
  }

  function BlockAt(padded: Bits, n: nat): seq<Word>
    requires 512 * n + 512 <= |padded|
  {
    seq<Word>(16, i requires 0 <= i < 16 => WordAt(padded, 16 * n + i))
  }

  /** The message schedule of a block of sixteen words. */
  function Schedule(block: seq<Word>, t: nat): Word
    requires |block| == 16
  {
    if t < 16 then block[t]
    else
      Plus(Plus(Plus(SmallSigma1(Schedule(block, t - 2)), Schedule(block, t - 7)),
                SmallSigma0(Schedule(block, t - 15))), Schedule(block, t - 16))
  }

  function Round(v: Vars, k: Word, w: Word): Vars {
    var t1 := Plus(Plus(Plus(Plus(v.h, BigSigma1(v.e)), Ch(v.e, v.f, v.g)), k), w);
    var t2 := Plus(BigSigma0(v.a), Maj(v.a, v.b, v.c));
    Vars(Plus(t1, t2), v.a, v.b, v.c, Plus(v.d, t1), v.e, v.f, v.g)
  }

  function Rounds(v: Vars, block: seq<Word>, t: nat): Vars
    requires |block| == 16 && t <= 64
  {
    if t == 0 then v else Round(Rounds(v, block, t - 1), K(t - 1), Schedule(block, t - 1))
  }

  function AddVars(x: Vars, y: Vars): Vars {
    Vars(Plus(x.a, y.a), Plus(x.b, y.b), Plus(x.c, y.c), Plus(x.d, y.d),
         Plus(x.e, y.e), Plus(x.f, y.f), Plus(x.g, y.g), Plus(x.h, y.h))
  }

  function Compress(v: Vars, block: seq<Word>): Vars
    requires |block| == 16
  {
    AddVars(v, Rounds(v, block, 64))
  }

  /** The hash value after n blocks. */
  function HashBlocks(padded: Bits, n: nat): Vars
    requires 512 * n <= |padded|
  {
    if n == 0 then INITIAL else Compress(HashBlocks(padded, n - 1), BlockAt(padded, n - 1))
  }

  /** SHA-256 of a message shorter than 2^64 bits. */
  function Sha256(message: Bits): Vars
    requires |message| < TWO32 * TWO32
  {
    HashBlocks(Pad(message), |Pad(message)| / 512)
  }

  /** The padded message is a whole number of blocks. */
  lemma PadIsWholeBlocks(message: Bits)
    ensures |Pad(message)| % 512 == 0
  {
  }

  /** The count of zero bits is the only one below 512 that works. */
  lemma ZeroCountIsUnique(length: nat, k: nat)
    requires k < 512 && (length + 1 + k) % 512 == 448
    ensures k == ZeroCount(length)
  {
  }
}
