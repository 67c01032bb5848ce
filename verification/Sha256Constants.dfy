/** The constants of SHA-256 are what sections 4.2.2 and 5.3.3 of FIPS 180-4 say: the first 32 bits of the
    fractional parts of the cube roots of the first 64 primes, and of the square roots of the first eight. */
module Sha256Constants {
  import opened Js32
  import opened Powers
  import opened Sha256Spec

  /** The first 64 primes, in rows of eight. */
  const PRIMES: seq<seq<nat>> := [
    [2, 3, 5, 7, 11, 13, 17, 19],
    [23, 29, 31, 37, 41, 43, 47, 53],
    [59, 61, 67, 71, 73, 79, 83, 89],
    [97, 101, 103, 107, 109, 113, 127, 131],
    [137, 139, 149, 151, 157, 163, 167, 173],
    [179, 181, 191, 193, 197, 199, 211, 223],
    [227, 229, 233, 239, 241, 251, 257, 263],
    [269, 271, 277, 281, 283, 293, 307, 311]]

  /** The t-th number of the list. */
  function Listed(t: nat): nat
    requires t < 64
  {
    PRIMES[t / 8][t % 8]
  }

  // The listed numbers are the first 64 primes.

  predicate IsPrime(n: nat) {
    n >= 2 && forall d :: 2 <= d < n ==> n % d != 0
  }

  /** The number of primes below a number. */
  function CountPrimes(n: nat): nat {
    if n == 0 then 0 else CountPrimes(n - 1) + (if IsPrime(n - 1) then 1 else 0)
  }

  /** No prime below 19 divides the number, unless it is that prime. */
  predicate PassesTrials(n: nat) {
    && n >= 2 && (n % 2 != 0 || n == 2) && (n % 3 != 0 || n == 3) && (n % 5 != 0 || n == 5) && (n % 7 != 0 || n == 7)
    && (n % 11 != 0 || n == 11) && (n % 13 != 0 || n == 13) && (n % 17 != 0 || n == 17)
  }

  /** The least prime factor of a number below 19. */
  function SmallFactor(d: nat): nat {
    if d % 2 == 0 then 2 else if d % 3 == 0 then 3 else if d % 5 == 0 then 5 else d
  }

  lemma SmallFactorCases(d: nat)
    requires 2 <= d <= 18
    ensures d % SmallFactor(d) == 0 && SmallFactor(d) in [2, 3, 5, 7, 11, 13, 17]
  {
  }

  lemma SmallFactorIsTried(d: nat, n: nat)
    requires 2 <= d <= 18 && n % SmallFactor(d) == 0 && n > d
    ensures !PassesTrials(n)
  {
    SmallFactorCases(d);
  }

  lemma FailsTrialByFactor(n: nat, d: nat, e: nat)
    requires 2 <= d <= 18 && 2 <= e && n == d * e
    ensures !PassesTrials(n)
  {
    var f := SmallFactor(d);
    SmallFactorCases(d);
    assert d == d / f * f;
    assert n == (d / f * e) * f;
    QuotientIs(n, f, d / f * e, 0);
    AtLeast(e - 1, d);
    assert n == d + (e - 1) * d;
    SmallFactorIsTried(d, n);
  }

  lemma ProductAtLeast(d: nat, e: nat)
    requires d >= 19 && e >= 19
    ensures d * e >= 361
  {
    assert d * e == (d - 19) * (e - 19) + 19 * (d - 19) + 19 * (e - 19) + 361;
  }

  lemma FactorsOf(d: nat, e: nat)
    requires 2 <= d < d * e < 361
    ensures e >= 2 && (d < 19 || e < 19)
  {
    if d >= 19 && e >= 19 {
      ProductAtLeast(d, e);
    }
  }

  /** A composite number below 19 times 19 has a factor below 19. */
  lemma CompositeFails(n: nat, d: nat)
    requires n < 361 && 2 <= d < n && n % d == 0
    ensures !PassesTrials(n)
  {
    var e := n / d;
    assert n == d * e;
    FactorsOf(d, e);
    if d < 19 {
      FailsTrialByFactor(n, d, e);
    } else {
      FailsTrialByFactor(n, e, d);
    }
  }

  /** Trial division by the primes below 19 decides primality below 19 times 19. */
  lemma TrialsDecide(n: nat)
    requires n < 361
    ensures PassesTrials(n) <==> IsPrime(n)
  {
    if n >= 2 && !IsPrime(n) {
      var d :| 2 <= d < n && n % d == 0;
      CompositeFails(n, d);
    }
  }

  lemma PrimeRow0(n: nat)
    requires 0 < n <= 19
    ensures PassesTrials(n) <==> n in [2, 3, 5, 7, 11, 13, 17, 19]
  {
  }

  lemma PrimeRow1(n: nat)
    requires 19 < n <= 53
    ensures PassesTrials(n) <==> n in [23, 29, 31, 37, 41, 43, 47, 53]
  {
  }

  lemma PrimeRow2Low(n: nat)
    requires 53 < n <= 71
    ensures PassesTrials(n) <==> n in [59, 61, 67, 71]
  {
  }

  lemma PrimeRow2High(n: nat)
    requires 71 < n <= 89
    ensures PassesTrials(n) <==> n in [73, 79, 83, 89]
  {
  }

  lemma PrimeRow3Low(n: nat)
    requires 89 < n <= 107
    ensures PassesTrials(n) <==> n in [97, 101, 103, 107]
  {
  }

  lemma PrimeRow3High(n: nat)
    requires 107 < n <= 131
    ensures PassesTrials(n) <==> n in [109, 113, 127, 131]
  {
  }

  lemma PrimeRow4Low(n: nat)
    requires 131 < n <= 151
    ensures PassesTrials(n) <==> n in [137, 139, 149, 151]
  {
  }

  lemma PrimeRow4High(n: nat)
    requires 151 < n <= 173
    ensures PassesTrials(n) <==> n in [157, 163, 167, 173]
  {
  }

  lemma PrimeRow5Low(n: nat)
    requires 173 < n <= 193
    ensures PassesTrials(n) <==> n in [179, 181, 191, 193]
  {
  }

  lemma PrimeRow5High(n: nat)
    requires 193 < n <= 223
    ensures PassesTrials(n) <==> n in [197, 199, 211, 223]
  {
  }

  lemma PrimeRow6Low(n: nat)
    requires 223 < n <= 241
    ensures PassesTrials(n) <==> n in [227, 229, 233, 239, 241]
  {
  }

  lemma PrimeRow6High(n: nat)
    requires 241 < n <= 263
    ensures PassesTrials(n) <==> n in [251, 257, 263]
  {
  }

  lemma PrimeRow7Low(n: nat)
    requires 263 < n <= 283
    ensures PassesTrials(n) <==> n in [269, 271, 277, 281, 283]
  {
  }

  lemma PrimeRow7High(n: nat)
    requires 283 < n <= 311
    ensures PassesTrials(n) <==> n in [293, 307, 311]
  {
  }

  /** A number up to the last one of a row and above the row before passes the trials exactly when it is in
      the row. */
  lemma PrimeRow(row: nat, n: nat)
    requires row < 8 && (if row == 0 then 0 else PRIMES[row - 1][7]) < n <= PRIMES[row][7]
    ensures PassesTrials(n) <==> n in PRIMES[row]
  {
    match row
    case 0 => PrimeRow0(n);
    case 1 => PrimeRow1(n);
    case 2 => if n <= 71 { PrimeRow2Low(n); } else { PrimeRow2High(n); }
    case 3 => if n <= 107 { PrimeRow3Low(n); } else { PrimeRow3High(n); }
    case 4 => if n <= 151 { PrimeRow4Low(n); } else { PrimeRow4High(n); }
    case 5 => if n <= 193 { PrimeRow5Low(n); } else { PrimeRow5High(n); }
    case 6 => if n <= 241 { PrimeRow6Low(n); } else { PrimeRow6High(n); }
    case 7 => if n <= 283 { PrimeRow7Low(n); } else { PrimeRow7High(n); }
  }

  /** The list ascends. */
  lemma RowAscends(row: nat)
    requires row < 8
    ensures forall i, j :: 0 <= i < j < 8 ==> PRIMES[row][i] < PRIMES[row][j]
    ensures row > 0 ==> PRIMES[row - 1][7] < PRIMES[row][0]
  {
  }

  /** The primes above the number listed before, up to the t-th. */
  lemma NextPrime(t: nat, n: nat)
    requires t < 64 && (if t == 0 then 0 else Listed(t - 1)) < n <= Listed(t)
    ensures IsPrime(n) <==> n == Listed(t)
  {
    var row, column := t / 8, t % 8;
    RowAscends(row);
    if column > 0 {
      assert (t - 1) / 8 == row && (t - 1) % 8 == column - 1;
      RowAscends(if row > 0 then row - 1 else 0);
    } else if row > 0 {
      assert (t - 1) / 8 == row - 1 && (t - 1) % 8 == 7;
    }
    PrimeRow(row, n);
    TrialsDecide(n);
  }

  lemma {:induction false} CountSteps(low: nat, high: nat)
    requires low <= high && forall n :: low <= n < high ==> !IsPrime(n)
    ensures CountPrimes(high) == CountPrimes(low)
    decreases high
  {
    if low < high {
      CountSteps(low, high - 1);
    }
  }

  /** From one number of the list to the next the count grows by one. */
  lemma CountNext(t: nat)
    requires 0 < t < 64 && IsPrime(Listed(t - 1)) && Listed(t - 1) < Listed(t)
    ensures CountPrimes(Listed(t)) == CountPrimes(Listed(t - 1)) + 1
  {
    forall n | Listed(t - 1) + 1 <= n < Listed(t)
      ensures !IsPrime(n)
    {
      NextPrime(t, n);
    }
    CountSteps(Listed(t - 1) + 1, Listed(t));
  }

  lemma ListAscends(t: nat)
    requires 0 < t < 64
    ensures Listed(t - 1) < Listed(t)
  {
    var row, column := t / 8, t % 8;
    RowAscends(row);
    if column > 0 {
      assert (t - 1) / 8 == row && (t - 1) % 8 == column - 1;
    } else {
      assert (t - 1) / 8 == row - 1 && (t - 1) % 8 == 7;
    }
  }

  /** The t-th number of the list is the prime that has exactly t primes below it. */
  lemma {:induction false} ListedIsNthPrime(t: nat)
    requires t < 64
    ensures IsPrime(Listed(t)) && CountPrimes(Listed(t)) == t
  {
    if t == 0 {
      NextPrime(0, 2);
      assert !IsPrime(0) && !IsPrime(1);
      assert CountPrimes(1) == 0;
    } else {
      ListAscends(t);
      NextPrime(t, Listed(t));
      ListedIsNthPrime(t - 1);
      CountNext(t);
    }
  }

  // The constants are the roots.

  /** The word holds the first 32 bits of the fractional part of a cube root. */
  predicate IsCubeRootFraction(prime: nat, whole: nat, word: Word) {
    var root := whole * TWO32 + word;
    root * root * root <= prime * TWO32 * TWO32 * TWO32 < (root + 1) * (root + 1) * (root + 1)
  }

  /** The word holds the first 32 bits of the fractional part of a square root. */
  predicate IsSquareRootFraction(prime: nat, whole: nat, word: Word) {
    var root := whole * TWO32 + word;
    root * root <= prime * TWO32 * TWO32 < (root + 1) * (root + 1)
  }

  /** The greatest number whose cube is at most a prime of the list. */
  function CubeRoot(prime: nat): nat {
    if prime < 8 then 1 else if prime < 27 then 2 else if prime < 64 then 3 else if prime < 125 then 4
    else if prime < 216 then 5 else 6
  }

  function SquareRoot(prime: nat): nat {
    if prime < 4 then 1 else if prime < 9 then 2 else if prime < 16 then 3 else 4
  }

  /** The words of a row, from a column on, are cube root fractions. */
  predicate RowRoots(row: nat, column: nat)
    requires row < 8
    decreases 8 - column
  {
    column >= 8
    || (IsCubeRootFraction(PRIMES[row][column], CubeRoot(PRIMES[row][column]), CONSTANTS[row][column])
        && RowRoots(row, column + 1))
  }

  lemma CubeRow(row: nat)
    requires row < 8
    ensures RowRoots(row, 0)
  {
    match row
    case 0 => CubeRow0();
    case 1 => CubeRow1();
    case 2 => CubeRow2();
    case 3 => CubeRow3();
    case 4 => CubeRow4();
    case 5 => CubeRow5();
    case 6 => CubeRow6();
    case 7 => CubeRow7();
  }

  lemma CubeRow0()
    ensures RowRoots(0, 0)
  {
  }

  lemma CubeRow1()
    ensures RowRoots(1, 0)
  {
  }

  lemma CubeRow2()
    ensures RowRoots(2, 0)
  {
  }

  lemma CubeRow3()
    ensures RowRoots(3, 0)
  {
  }

  lemma CubeRow4()
    ensures RowRoots(4, 0)
  {
  }

  lemma CubeRow5()
    ensures RowRoots(5, 0)
  {
  }

  lemma CubeRow6()
    ensures RowRoots(6, 0)
  {
  }

  lemma CubeRow7()
    ensures RowRoots(7, 0)
  {
  }

  lemma {:induction false} RootsInRow(row: nat, from: nat, column: nat)
    requires row < 8 && from <= column < 8 && RowRoots(row, from)
    ensures IsCubeRootFraction(PRIMES[row][column], CubeRoot(PRIMES[row][column]), CONSTANTS[row][column])
    decreases column - from
  {
    if from < column {
      RootsInRow(row, from + 1, column);
    }
  }

  /** Round constant t is the cube root fraction of the prime that has t primes below it. */
  lemma ConstantsAreCubeRoots(t: nat)
    requires t < 64
    ensures IsPrime(Listed(t)) && CountPrimes(Listed(t)) == t
    ensures IsCubeRootFraction(Listed(t), CubeRoot(Listed(t)), K(t))
  {
    ListedIsNthPrime(t);
    CubeRow(t / 8);
    RootsInRow(t / 8, 0, t % 8);
  }

  /** Word t of the initial hash value is the square root fraction of the prime that has t primes below it. */
  lemma InitialIsSquareRoots(t: nat)
    requires t < 8
    ensures IsPrime(Listed(t)) && CountPrimes(Listed(t)) == t
    ensures IsSquareRootFraction(Listed(t), SquareRoot(Listed(t)), InitialWord(t))
  {
    ListedIsNthPrime(t);
    SquareRow(t);
  }

  lemma SquareRow(t: nat)
    requires t < 8
    ensures IsSquareRootFraction(PRIMES[0][t], SquareRoot(PRIMES[0][t]), InitialWord(t))
  {
  }

  function InitialWord(t: nat): Word
    requires t < 8
  {
    [INITIAL.a, INITIAL.b, INITIAL.c, INITIAL.d, INITIAL.e, INITIAL.f, INITIAL.g, INITIAL.h][t]
  }
}
