/** JavaScript's 32-bit number operators, on mathematical integers.

    Every operator converts its operands with ToInt32 or ToUint32 (section 7.1 of ECMA-262) and
    works on the 32 bits of the result. A word is a 32-bit unsigned value. */
module Js32 {
  import opened Powers

  const TWO31: int := 0x8000_0000
  const TWO32: int := 0x1_0000_0000

  type Word = w: int | 0 <= w < TWO32

  function ToUint32(x: int): Word {
    x % TWO32
  }

  function ToInt32(x: int): (s: int)
    ensures -TWO31 <= s < TWO31
  {
    var u := x % TWO32;
    if u < TWO31 then u else u - TWO32
  }

  lemma SmallWord(x: int)
    requires 0 <= x < TWO31
    ensures ToUint32(x) == x == ToInt32(x)
  {
  }

  datatype Gate = And | Or | Xor

  function GateBit(g: Gate, a: int, b: int): (c: int)
    requires 0 <= a <= 1 && 0 <= b <= 1
    ensures 0 <= c <= 1
  {
    match g
    case And => if a == 1 && b == 1 then 1 else 0
    case Or => if a == 1 || b == 1 then 1 else 0
    case Xor => if a != b then 1 else 0
  }

  /** Applies a gate to the low n bits of two values, lowest bit first. */
  function Bitwise(g: Gate, n: nat, x: nat, y: nat): (z: nat)
    ensures z < Pow2(n)
  {
    if n == 0 then 0 else GateBit(g, x % 2, y % 2) + 2 * Bitwise(g, n - 1, x / 2, y / 2)
  }

  lemma Pow2Of32()
    ensures Pow2(32) == TWO32
  {
    assert Pow2(8) == 256;
    PowSum(8, 8);
    PowSum(16, 16);
  }

  function WordGate(g: Gate, x: Word, y: Word): Word {
    Pow2Of32();
    Bitwise(g, 32, x, y)
  }

  /** The operators `&`, `|` and `^`. */
  function JsBitwise(g: Gate, a: int, b: int): int {
    ToInt32(WordGate(g, ToUint32(a), ToUint32(b)))
  }

  function JsAnd(a: int, b: int): int { JsBitwise(And, a, b) }

  function JsOr(a: int, b: int): int { JsBitwise(Or, a, b) }

  function JsXor(a: int, b: int): int { JsBitwise(Xor, a, b) }

  /** The operator `~`. */
  function JsNot(a: int): int {
    -ToInt32(a) - 1
  }

  /** The operator `<<`. */
  function JsShl(a: int, n: nat): int
    requires n < 32
  {
    ToInt32(ToUint32(a) * Pow2(n))
  }

  /** The operator `>>`. */
  function JsShr(a: int, n: nat): int
    requires n < 32
  {
    ToInt32(a) / Pow2(n)
  }

  /** The operator `>>>`. */
  function JsUshr(a: int, n: nat): int
    requires n < 32
  {
    ToUint32(a) / Pow2(n)
  }

  lemma {:induction false} GateWithZero(g: Gate, n: nat, x: nat)
    requires x < Pow2(n)
    ensures Bitwise(g, n, x, 0) == if g.And? then 0 else x
  {
    if n > 0 {
      GateWithZero(g, n - 1, x / 2);
    }
  }

  lemma {:induction false} ZeroWithGate(g: Gate, n: nat, x: nat)
    requires x < Pow2(n)
    ensures Bitwise(g, n, 0, x) == if g.And? then 0 else x
  {
    if n > 0 {
      ZeroWithGate(g, n - 1, x / 2);
    }
  }

  /** A gate acts on the low k bits and on the bits above them separately. */
  lemma {:induction false} GateSplits(g: Gate, n: nat, k: nat, xh: nat, xl: nat, yh: nat, yl: nat)
    requires k <= n && xl < Pow2(k) && yl < Pow2(k)
    ensures Bitwise(g, n, xh * Pow2(k) + xl, yh * Pow2(k) + yl)
         == Bitwise(g, n - k, xh, yh) * Pow2(k) + Bitwise(g, k, xl, yl)
  {
    if k > 0 {
      var p := Pow2(k - 1);
      HalveSplit(xh, p, xl);
      HalveSplit(yh, p, yl);
      GateSplits(g, n - 1, k - 1, xh, xl / 2, yh, yl / 2);
      HalveSplit(Bitwise(g, n - k, xh, yh), p, 0);
    }
  }

  lemma GateWithOne(g: Gate, n: nat, x: nat)
    requires n > 0 && x < Pow2(n)
    ensures Bitwise(g, n, x, 1) == GateBit(g, x % 2, 1) + if g.And? then 0 else x - x % 2
  {
    GateWithZero(g, n - 1, x / 2);
  }

  lemma WordGateWithOne(g: Gate, u: Word)
    ensures WordGate(g, u, 1) == GateBit(g, u % 2, 1) + if g.And? then 0 else u - u % 2
  {
    Pow2Of32();
    GateWithOne(g, 32, u);
  }

  lemma ParityOfWord(x: int)
    ensures ToUint32(x) % 2 == x % 2
    ensures ToInt32(x) % 2 == x % 2
  {
  }

  /** `x ^ 1` flips the lowest bit of the 32-bit word. */
  lemma XorOne(x: int)
    ensures var u := ToUint32(x); JsXor(x, 1) == ToInt32(if u % 2 == 0 then u + 1 else u - 1)
  {
    WordGateWithOne(Xor, ToUint32(x));
  }

  /** `x & 1` is the parity. */
  lemma AndOne(x: int)
    ensures JsAnd(x, 1) == x % 2
  {
    ParityOfWord(x);
    WordGateWithOne(And, ToUint32(x));
    assert JsAnd(x, 1) == ToInt32(x % 2);
  }
}
