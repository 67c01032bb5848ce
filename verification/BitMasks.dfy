/** Bytes and bit masks: what `&`, `|` and the shifts do to JavaScript numbers, as arithmetic. */
module BitMasks {
  import opened Powers
  import opened Js32

  type Byte = b: int | 0 <= b < 256

  lemma GateWord(g: Gate, a: int, b: int)
    ensures ToUint32(JsBitwise(g, a, b)) == WordGate(g, ToUint32(a), ToUint32(b))
  {
  }

  lemma WordOfWord(w: int)
    requires 0 <= w < TWO32
    ensures ToUint32(w) == w
  {
  }

  lemma SomePowers()
    ensures Pow2(8) == 256 && Pow2(16) == 0x1_0000 && Pow2(24) == 0x100_0000
  {
  }

  /** `x & 0xff`. */
  lemma LowByte(x: nat)
    ensures JsAnd(x, 0xff) == x % 256
  {
    var u := ToUint32(x);
    LowWord(u);
    SmallWord(u % 256);
    ModOfMod(x, 256, 0x100_0000);
  }

  lemma LowWord(u: Word)
    ensures WordGate(And, u, 0xff) == u % 256
  {
    Pow2Of32();
    LowBits(32, 8, u);
    KeepBitsIsRemainder(u, 8);
    assert Pow2(8) == 256;
  }

  lemma ModOfMod(x: int, m: int, k: int)
    requires m > 0 && k > 0
    ensures m * k > 0 && (x % (m * k)) % m == x % m
  {
    AtLeast(k, m);
    var q, r := x / (m * k), x % (m * k);
    assert x == (q * k + r / m) * m + r % m by {
      assert q * (m * k) == (q * k) * m;
      assert (q * k + r / m) * m == (q * k) * m + r / m * m;
    }
    QuotientIs(x, m, q * k + r / m, r % m);
  }

  lemma AndOddMask(n: nat, x: nat, p: nat)
    requires n > 0 && p > 0
    ensures Bitwise(And, n, x, 2 * p - 1) == x % 2 + 2 * Bitwise(And, n - 1, x / 2, p - 1)
  {
  }

  /** The n lowest bits of a number, one by one. */
  function KeepBits(x: nat, n: nat): nat
    decreases n
  {
    if n == 0 then 0 else x % 2 + 2 * KeepBits(x / 2, n - 1)
  }

  lemma {:induction false} KeepBitsIsRemainder(x: nat, n: nat)
    ensures KeepBits(x, n) == x % Pow2(n)
    decreases n
  {
    if n > 0 {
      KeepBitsIsRemainder(x / 2, n - 1);
      ModStep(x, n - 1);
    }
  }

  lemma {:induction false} LowBits(n: nat, k: nat, x: nat)
    requires k <= n
    ensures Bitwise(And, n, x, Pow2(k) - 1) == KeepBits(x, k)
    decreases k
  {
    if k == 0 {
      AndZero(n, x);
    } else {
      AndOddMask(n, x, Pow2(k - 1));
      LowBits(n - 1, k - 1, x / 2);
    }
  }

  lemma {:induction false} AndZero(n: nat, x: nat)
    ensures Bitwise(And, n, x, 0) == 0
  {
    if n > 0 {
      AndZero(n - 1, x / 2);
    }
  }

  lemma HighFits(hi: nat, k: nat)
    requires k <= 32 && hi * Pow2(k) < TWO32
    ensures hi < Pow2(32 - k)
  {
    Pow2Of32();
    PowSum(32 - k, k);
    LessFactor(hi, Pow2(32 - k), Pow2(k));
  }

  lemma LessFactor(x: int, y: int, p: int)
    requires p > 0 && x * p < y * p
    ensures x < y
  {
  }

  /** Gating a multiple of 2^k with a value below 2^k. */
  lemma OrOfParts(hi: nat, k: nat, lo: nat)
    requires k <= 32 && hi < Pow2(32 - k) && lo < Pow2(k)
    ensures Bitwise(Or, 32, hi * Pow2(k), lo) == hi * Pow2(k) + lo
  {
    GateSplits(Or, 32, k, hi, 0, 0, lo);
    GateWithZero(Or, 32 - k, hi);
    ZeroWithGate(Or, k, lo);
    assert 0 * Pow2(k) == 0;
  }

  /** `|` of two numbers with no common bits adds them. */
  lemma DisjointOr(a: int, b: int, hi: nat, k: nat)
    requires k <= 32 && ToUint32(a) == hi * Pow2(k) && ToUint32(b) < Pow2(k)
    ensures ToUint32(JsOr(a, b)) == ToUint32(a) + ToUint32(b)
  {
    GateWord(Or, a, b);
    HighFits(hi, k);
    OrOfParts(hi, k, ToUint32(b));
  }

  // On small non-negative numbers.

  lemma AndMask(x: nat, k: nat, mask: nat)
    requires x < TWO31 && k < 31 && mask == Pow2(k) - 1 && mask < TWO31
    ensures JsAnd(x, mask) == x % (mask + 1)
  {
    SmallWord(x);
    SmallWord(mask);
    LowBits(32, k, x);
    KeepBitsIsRemainder(x, k);
    RemainderIsSmall(x, mask + 1);
    SmallWord(x % (mask + 1));
  }

  lemma RemainderIsSmall(x: nat, m: nat)
    requires m > 0
    ensures x % m <= x
  {
    QuotientBounds(x, m);
    if x / m > 0 {
      AtLeast(x / m, m);
    }
  }

  lemma SignedIsWord(x: int)
    requires -TWO31 <= x < TWO31 && ToUint32(x) < TWO31
    ensures x == ToUint32(x)
  {
  }

  lemma OrAdds(a: nat, b: nat, hi: nat, k: nat)
    requires k <= 32 && a == hi * Pow2(k) && b < Pow2(k) && a + b < TWO31
    ensures JsOr(a, b) == a + b
  {
    WordOfWord(a);
    WordOfWord(b);
    DisjointOr(a, b, hi, k);
    SignedIsWord(JsOr(a, b));
  }
}
