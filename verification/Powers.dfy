/** Powers of two, and how division by them composes. */
module Powers {

  const TWO256: int := 0x1_00000000_00000000_00000000_00000000_00000000_00000000_00000000_00000000

  function Pow2(n: nat): (p: nat)
    ensures p > 0
  {
    if n == 0 then 1 else 2 * Pow2(n - 1)
  }

  lemma {:induction false} PowSum(m: nat, n: nat)
    ensures Pow2(m + n) == Pow2(m) * Pow2(n)
  {
    if m > 0 {
      PowSum(m - 1, n);
      assert 2 * (Pow2(m - 1) * Pow2(n)) == (2 * Pow2(m - 1)) * Pow2(n);
    }
  }

  lemma {:induction false} PowMonotone(m: nat, n: nat)
    requires m <= n
    ensures Pow2(m) <= Pow2(n)
  {
    if m < n {
      PowMonotone(m, n - 1);
    }
  }

  /** Halving and then dividing by a power is dividing by the next power. */
  lemma HalfThenDivide(x: int, n: nat)
    ensures x / 2 / Pow2(n) == x / Pow2(n + 1)
  {
    ModStep(x, n);
  }

  /** Quotient and remainder are unique. */
  lemma QuotientIs(x: int, d: int, q: int, r: int)
    requires d > 0 && x == q * d + r && 0 <= r < d
    ensures x / d == q && x % d == r
  {
    var m := q - x / d;
    assert m * d == q * d - (x / d) * d == x % d - r;
    if m > 0 {
      AtLeast(m, d);
    } else if m < 0 {
      AtLeast(-m, d);
    }
  }

  /** A number lies in the q-th block of length d exactly when q is its quotient. */
  lemma InBlock(x: int, d: int, q: int)
    requires d > 0
    ensures x / d == q <==> q * d <= x < q * d + d
  {
    if q * d <= x < q * d + d {
      QuotientIs(x, d, q, x - q * d);
    }
  }

  /** A remainder by a power of two, one bit at a time. */
  lemma ModStep(x: int, n: nat)
    ensures x % Pow2(n + 1) == 2 * (x / 2 % Pow2(n)) + x % 2
    ensures x / Pow2(n + 1) == x / 2 / Pow2(n)
  {
    var p, h := Pow2(n), x / 2;
    HalveSplit(h / p, p, 2 * (h % p) + x % 2);
    QuotientIs(x, 2 * p, h / p, 2 * (h % p) + x % 2);
  }

  lemma QuotientBounds(x: int, d: int)
    requires x >= 0 && d > 0
    ensures 0 <= x / d <= x
  {
    var q := x / d;
    if q < 0 {
      AtLeast(-q, d);
    } else if q > 0 {
      AtLeast(d, q);
    }
  }

  /** A number without its n lowest bits. */
  function DropBits(x: nat, n: nat): nat {
    QuotientBounds(x, Pow2(n));
    x / Pow2(n)
  }

  lemma AtLeast(m: int, d: int)
    requires m >= 1 && d > 0
    ensures m * d >= d
  {
  }

  /** Halving a value split at a doubled modulus. */
  lemma HalveSplit(hi: int, p: int, lo: int)
    ensures hi * (2 * p) + lo == 2 * (hi * p) + lo
    ensures (hi * (2 * p) + lo) % 2 == lo % 2 && (hi * (2 * p) + lo) / 2 == hi * p + lo / 2
  {
  }
}
