/** The mainnet denominations: the greedy split uses the fewest notes of any split.
    About MAINNET_CANDIDATE_FIXED_DENOMINATION_POLICY and splitIntoFixedDenominations of
    packages/core/src/denominations.ts. */
module MainnetDenominations {
  import opened Wrappers
  import opened Collections
  import opened Powers
  import opened Denominations

  /** 0.005 ETH in wei. */
  const UNIT: int := 5_000_000_000_000_000

  const MAINNET: seq<int> := [
    5_000_000_000_000_000, 10_000_000_000_000_000, 20_000_000_000_000_000, 30_000_000_000_000_000,
    50_000_000_000_000_000, 100_000_000_000_000_000, 200_000_000_000_000_000, 300_000_000_000_000_000,
    500_000_000_000_000_000, 1_000_000_000_000_000_000]

  /** The denominations from the largest: 1 ETH, the decades of 0.1 ETH and 0.01 ETH, and the unit. */
  function Coins(): seq<int> {
    Ladder(1_000_000_000_000_000_000, 100_000_000_000_000_000, 10_000_000_000_000_000, 5_000_000_000_000_000)
  }

  /** Five, three, two and one times an amount. */
  function Decade(k: int): (d: seq<int>)
    ensures |d| == 4
  {
    [5 * k, 3 * k, 2 * k, k]
  }

  predicate Ascending(s: seq<int>) {
    forall i :: 0 <= i < |s| - 1 ==> s[i] < s[i + 1]
  }

  function Reverse(s: seq<int>): (r: seq<int>)
    ensures |r| == |s| && forall i :: 0 <= i < |s| ==> r[i] == s[|s| - 1 - i]
  {
    if s == [] then [] else Reverse(s[1..]) + [s[0]]
  }

  predicate AllAbove(s: seq<int>, x: int) {
    forall i :: 0 <= i < |s| ==> s[i] > x
  }

  lemma {:induction false} InsertLast(x: int, s: seq<int>)
    requires AllAbove(s, x)
    ensures InsertDescending(x, s) == s + [x]
  {
    if s == [] {
    } else {
      InsertLast(x, s[1..]);
      ConcatAssociates([s[0]], s[1..], [x]);
      assert s == [s[0]] + s[1..];
    }
  }

  /** Normalizing an ascending list reverses it. */
  lemma {:induction false} NormalizedOfAscending(s: seq<int>, x: int)
    requires Ascending(s) && (s != [] ==> x < s[0])
    ensures Normalized(s) == Reverse(s) && AllAbove(Reverse(s), x)
  {
    if s == [] {
    } else {
      NormalizedOfAscending(s[1..], s[0]);
      InsertLast(s[0], Reverse(s[1..]));
    }
  }

  lemma ReverseFive(a: int, b: int, c: int, d: int, e: int)
    ensures Reverse([a, b, c, d, e]) == [e, d, c, b, a]
  {
  }

  lemma {:induction false} ReverseConcat(s: seq<int>, t: seq<int>)
    ensures Reverse(s + t) == Reverse(t) + Reverse(s)
  {
  }

  lemma CoinsAreReversed(s: seq<int>)
    requires s == MAINNET
    ensures Reverse(s) == Coins()
  {
    var low: seq<int> := [
      5_000_000_000_000_000, 10_000_000_000_000_000, 20_000_000_000_000_000, 30_000_000_000_000_000,
      50_000_000_000_000_000];
    var high: seq<int> := [
      100_000_000_000_000_000, 200_000_000_000_000_000, 300_000_000_000_000_000, 500_000_000_000_000_000,
      1_000_000_000_000_000_000];
    assert s == low + high;
    ReverseConcat(low, high);
    ReverseFive(low[0], low[1], low[2], low[3], low[4]);
    ReverseFive(high[0], high[1], high[2], high[3], high[4]);
    CoinsFromLargest();
  }

  lemma CoinsFromLargest()
    ensures Coins() == [1_000_000_000_000_000_000, 500_000_000_000_000_000, 300_000_000_000_000_000,
                        200_000_000_000_000_000, 100_000_000_000_000_000]
                     + [50_000_000_000_000_000, 30_000_000_000_000_000, 20_000_000_000_000_000,
                        10_000_000_000_000_000, 5_000_000_000_000_000]
  {
  }

  lemma MainnetAscends(s: seq<int>)
    requires s == MAINNET
    ensures Ascending(s) && AllPositive(s) && s != [] && s[0] > 0
  {
  }

  lemma MainnetIsNormalized(s: seq<int>)
    requires s == MAINNET
    ensures NormalizeOutcome(s) == Success(Coins())
  {
    MainnetAscends(s);
    NormalizedOfAscending(s, 0);
    CoinsAreReversed(s);
  }

  // How many notes the greedy split uses.

  /** The notes of a decade that make up a digit. */
  function DigitCount(b: int): nat
    requires 0 <= b < 10
  {
    if b == 0 then 0 else if b <= 3 || b == 5 then 1 else if b <= 8 then 2 else 3
  }

  /** A number of units by its notes' digits: 200 a + 20 b + 2 c + e. */
  datatype Digits = Digits(a: nat, b: nat, c: nat, e: nat)

  predicate Proper(d: Digits) {
    d.b < 10 && d.c < 10 && d.e < 2
  }

  function Value(d: Digits): nat {
    200 * d.a + 20 * d.b + 2 * d.c + d.e
  }

  /** The wei the digits stand for. */
  function Worth(d: Digits): nat {
    5_000_000_000_000_000 * Value(d)
  }

  /** The notes the greedy split uses for the digits. */
  function NoteCount(d: Digits): nat
    requires Proper(d)
  {
    d.a + DigitCount(d.b) + DigitCount(d.c) + d.e
  }

  function DigitsOf(n: nat): Digits {
    var m := n / 2;
    var q := m / 10;
    Digits(q / 10, q % 10, m % 10, n % 2)
  }

  lemma ValueOfDigits(n: nat)
    ensures Proper(DigitsOf(n)) && Value(DigitsOf(n)) == n
  {
  }

  lemma GreedyTake(amount: nat, d: int, q: nat, r: nat, rest: seq<int>)
    requires d > 0 && AllPositive(rest) && amount == q * d + r && r < d
    ensures AllPositive([d] + rest)
    ensures Greedy(amount, [d] + rest) == Repeated(q, d) + Greedy(r, rest)
    ensures Dust(amount, [d] + rest) == Dust(r, rest)
  {
    QuotientIs(amount, d, q, r);
    assert ([d] + rest)[1..] == rest;
  }

  lemma SplitMultiple(k: int, b: int, c: int)
    requires c > 0
    ensures k * b == (b / c) * (c * k) + k * (b % c)
  {
    calc {
      k * b;
      k * ((b / c) * c + b % c);
      k * ((b / c) * c) + k * (b % c);
      (b / c) * (c * k) + k * (b % c);
    }
  }

  lemma BelowMultiple(k: int, b: int, c: int, r: nat)
    requires k > 0 && 0 <= b < c && r < k
    ensures 0 <= k * b + r < c * k
  {
    AtLeast(c - b, k);
    assert (c - b) * k == c * k - k * b;
    assert k * b >= 0;
  }

  /** One denomination takes a quotient of a small number of units. */
  lemma TakeMultiple(k: int, b: nat, c: int, r: nat, rest: seq<int>)
    requires k > 0 && c > 0 && c * k > 0 && r < k && AllPositive(rest)
    ensures AllPositive([c * k] + rest) && k * b + r >= 0 && k * (b % c) + r >= 0
    ensures |Greedy(k * b + r, [c * k] + rest)| == b / c + |Greedy(k * (b % c) + r, rest)|
    ensures Dust(k * b + r, [c * k] + rest) == Dust(k * (b % c) + r, rest)
  {
    SplitMultiple(k, b, c);
    BelowMultiple(k, b % c, c, r);
    QuotientBounds(b, c);
    assert k * b >= 0;
    GreedyTake(k * b + r, c * k, b / c, k * (b % c) + r, rest);
  }

  lemma DigitSum(b: nat)
    requires b < 10
    ensures DigitCount(b) == b / 5 + b % 5 / 3 + b % 5 % 3 / 2 + b % 5 % 3 % 2
  {
  }

  /** One decade of coins takes off one decimal digit. */
  lemma GreedyDecade(k: int, b: nat, r: nat, rest: seq<int>)
    requires k > 0 && AllPositive(rest) && b < 10 && r < k
    ensures AllPositive(Decade(k) + rest) && k * b + r >= 0
    ensures |Greedy(k * b + r, Decade(k) + rest)| == DigitCount(b) + |Greedy(r, rest)|
    ensures Dust(k * b + r, Decade(k) + rest) == Dust(r, rest)
  {
    DecadeParts(k, rest);
    var c1 := [k] + rest;
    var c2 := [2 * k] + c1;
    var c3 := [3 * k] + c2;
    TakeMultiple(k, b, 5, r, c3);
    TakeMultiple(k, b % 5, 3, r, c2);
    TakeMultiple(k, b % 5 % 3, 2, r, c1);
    TakeLast(k, b % 5 % 3 % 2, r, rest);
    DigitSum(b);
  }

  lemma DecadeParts(k: int, rest: seq<int>)
    ensures Decade(k) + rest == [5 * k] + ([3 * k] + ([2 * k] + ([k] + rest)))
    ensures k > 0 && AllPositive(rest) ==> AllPositive([k] + rest) && AllPositive([2 * k] + ([k] + rest))
    ensures k > 0 && AllPositive(rest) ==> AllPositive([3 * k] + ([2 * k] + ([k] + rest)))
  {
  }

  lemma TakeLast(k: int, b: nat, r: nat, rest: seq<int>)
    requires k > 0 && r < k && AllPositive(rest)
    ensures AllPositive([k] + rest) && k * b + r >= 0
    ensures |Greedy(k * b + r, [k] + rest)| == b + |Greedy(r, rest)|
    ensures Dust(k * b + r, [k] + rest) == Dust(r, rest)
  {
    assert k * b >= 0;
    GreedyTake(k * b + r, k, b, r, rest);
  }

  /** A list of denominations from the largest, with two decades and a unit. */
  function Ladder(z: int, y: int, x: int, u: int): seq<int> {
    [z] + (Decade(y) + (Decade(x) + [u]))
  }

  /** The greedy split, decade by decade. */
  lemma GreedyLadder(d: Digits, z: int, y: int, x: int, u: int, r: nat, r2: nat, r1: nat, r0: nat, amount: nat)
    requires Proper(d) && r < u && r2 < x && r1 < y && r0 < z
    requires r2 == u * d.e + r && r1 == x * d.c + r2 && r0 == y * d.b + r1 && amount == d.a * z + r0
    ensures AllPositive(Ladder(z, y, x, u))
    ensures |Greedy(amount, Ladder(z, y, x, u))| == NoteCount(d) && Dust(amount, Ladder(z, y, x, u)) == r
  {
    var tail: seq<int> := Decade(x) + [u];
    TakeLast(u, d.e, r, []);
    assert [u] + [] == [u];
    GreedyDecade(x, d.c, r2, [u]);
    GreedyDecade(y, d.b, r1, tail);
    GreedyTake(amount, z, d.a, r0, Decade(y) + tail);
  }

  /** The greedy split of any amount: its notes are counted by the digits, its dust is below the unit. */
  lemma GreedyMainnet(d: Digits, r: nat, amount: nat)
    requires Proper(d) && r < UNIT && amount == Worth(d) + r
    ensures AllPositive(Coins())
    ensures |Greedy(amount, Coins())| == NoteCount(d) && Dust(amount, Coins()) == r
  {
    var r2: nat := 5_000_000_000_000_000 * d.e + r;
    var r1: nat := 10_000_000_000_000_000 * d.c + r2;
    var r0: nat := 100_000_000_000_000_000 * d.b + r1;
    GreedyLadder(d, 1_000_000_000_000_000_000, 100_000_000_000_000_000, 10_000_000_000_000_000, 5_000_000_000_000_000,
      r, r2, r1, r0, amount);
  }

  // Adding one coin adds at most one note.

  lemma DigitStep(d: nat, c: nat)
    requires d < 10 && (c == 1 || c == 2 || c == 3 || c == 5)
    ensures d + c < 10 ==> DigitCount(d + c) <= DigitCount(d) + 1
    ensures d + c >= 10 ==> DigitCount(d + c - 10) <= DigitCount(d)
  {
  }

  predicate DigitCoin(c: int) {
    c == 1 || c == 2 || c == 3 || c == 5
  }

  /** Adds a coin of twenty units times c. */
  lemma AddTwenties(d: Digits, c: nat) returns (sum: Digits)
    requires Proper(d) && DigitCoin(c)
    ensures Proper(sum) && Value(sum) == Value(d) + 20 * c && NoteCount(sum) <= NoteCount(d) + 1
  {
    DigitStep(d.b, c);
    sum := if d.b + c < 10 then d.(b := d.b + c) else d.(a := d.a + 1, b := d.b + c - 10);
  }

  /** Adds a coin of two units times c. */
  lemma AddTwos(d: Digits, c: nat) returns (sum: Digits)
    requires Proper(d) && DigitCoin(c)
    ensures Proper(sum) && Value(sum) == Value(d) + 2 * c && NoteCount(sum) <= NoteCount(d) + 1
  {
    DigitStep(d.c, c);
    if d.c + c < 10 {
      sum := d.(c := d.c + c);
    } else {
      sum := AddTwenties(d.(c := d.c + c - 10), 1);
    }
  }

  lemma AddOne(d: Digits) returns (sum: Digits)
    requires Proper(d)
    ensures Proper(sum) && Value(sum) == Value(d) + 1 && NoteCount(sum) <= NoteCount(d) + 1
  {
    if d.e == 0 {
      sum := d.(e := 1);
    } else {
      sum := AddTwos(d.(e := 0), 1);
    }
  }

  /** The denominations in units. */
  datatype Coin = One | Twos(digit: nat) | Twenties(digit: nat) | TwoHundred

  predicate ProperCoin(c: Coin) {
    (c.Twos? || c.Twenties?) ==> DigitCoin(c.digit)
  }

  function CoinValue(c: Coin): nat {
    match c
    case One => 1
    case Twos(digit) => 2 * digit
    case Twenties(digit) => 20 * digit
    case TwoHundred => 200
  }

  /** One more coin never saves more than itself. */
  lemma AddCoin(d: Digits, c: Coin) returns (sum: Digits)
    requires Proper(d) && ProperCoin(c)
    ensures Proper(sum) && Value(sum) == Value(d) + CoinValue(c) && NoteCount(sum) <= NoteCount(d) + 1
  {
    match c
    case One => sum := AddOne(d);
    case Twos(digit) => sum := AddTwos(d, digit);
    case Twenties(digit) => sum := AddTwenties(d, digit);
    case TwoHundred => sum := d.(a := d.a + 1);
  }

  predicate IsMainnet(note: int) {
    || note == 5_000_000_000_000_000 || note == 10_000_000_000_000_000 || note == 20_000_000_000_000_000
    || note == 30_000_000_000_000_000 || note == 50_000_000_000_000_000 || note == 100_000_000_000_000_000
    || note == 200_000_000_000_000_000 || note == 300_000_000_000_000_000 || note == 500_000_000_000_000_000
    || note == 1_000_000_000_000_000_000
  }

  lemma MainnetMembers(note: int)
    ensures IsMainnet(note) <==> note in MAINNET
  {
  }

  predicate AllMainnet(notes: seq<int>) {
    forall i :: 0 <= i < |notes| ==> IsMainnet(notes[i])
  }

  function CoinOf(note: int): Coin {
    if note == 5_000_000_000_000_000 then One
    else if note <= 50_000_000_000_000_000 then Twos(if note > 0 then note / 10_000_000_000_000_000 else 1)
    else if note <= 500_000_000_000_000_000 then Twenties(note / 100_000_000_000_000_000)
    else TwoHundred
  }

  lemma MainnetNote(note: int)
    requires IsMainnet(note)
    ensures ProperCoin(CoinOf(note)) && note == UNIT * CoinValue(CoinOf(note)) && note > 0
  {
  }

  lemma AddNote(d: Digits, note: int) returns (sum: Digits)
    requires Proper(d) && IsMainnet(note)
    ensures Proper(sum) && Worth(sum) == Worth(d) + note && NoteCount(sum) <= NoteCount(d) + 1
  {
    MainnetNote(note);
    sum := AddCoin(d, CoinOf(note));
  }

  /** The digits stand for the notes, which are at least as many as the greedy split would use. */
  predicate StandsFor(d: Digits, notes: seq<int>) {
    Proper(d) && Sum(notes) == Worth(d) && NoteCount(d) <= |notes|
  }

  lemma OneMoreNote(d: Digits, note: int, notes: seq<int>) returns (sum: Digits)
    requires IsMainnet(note) && StandsFor(d, notes)
    ensures StandsFor(sum, [note] + notes)
  {
    sum := AddNote(d, note);
    assert ([note] + notes)[1..] == notes;
  }

  lemma {:induction false} DigitsOfNotes(notes: seq<int>) returns (d: Digits)
    requires AllMainnet(notes)
    ensures StandsFor(d, notes)
  {
    if notes == [] {
      d := Digits(0, 0, 0, 0);
    } else {
      var rest := DigitsOfNotes(notes[1..]);
      d := OneMoreNote(rest, notes[0], notes[1..]);
      assert notes == [notes[0]] + notes[1..];
    }
  }

  /** A way to pay an amount in mainnet notes. */
  predicate Pays(notes: seq<int>, amount: int) {
    AllMainnet(notes) && Sum(notes) == amount
  }

  /** No split of an amount uses fewer notes than the greedy one. */
  lemma GreedyUsesFewestNotes(amount: nat, notes: seq<int>)
    requires Pays(notes, amount)
    ensures AllPositive(Coins()) && |Greedy(amount, Coins())| <= |notes| && Dust(amount, Coins()) == 0
  {
    var d := DigitsOfNotes(notes);
    GreedyMainnet(d, 0, amount);
  }

  lemma {:induction false} GreedyNotesAreDenominations(amount: nat, denominations: seq<int>)
    requires AllPositive(denominations)
    ensures forall i :: 0 <= i < |Greedy(amount, denominations)| ==> Greedy(amount, denominations)[i] in denominations
    decreases |denominations|
  {
    if denominations != [] {
      var d, rest := denominations[0], denominations[1..];
      QuotientBounds(amount, d);
      GreedyNotesAreDenominations(amount % d, rest);
      RepeatedNotes(amount / d, d);
      assert forall x :: x in rest ==> x in denominations;
      assert d in denominations;
    }
  }

  lemma {:induction false} RepeatedNotes(count: nat, note: int)
    ensures forall i :: 0 <= i < count ==> Repeated(count, note)[i] == note
  {
    if count > 0 {
      RepeatedNotes(count - 1, note);
    }
  }

  /** The greedy notes pay the amount when nothing is left over. */
  lemma GreedyPays(amount: nat, s: seq<int>)
    requires s == MAINNET && AllPositive(Coins()) && Dust(amount, Coins()) == 0
    ensures Pays(Greedy(amount, Coins()), amount)
  {
    MainnetIsNormalized(s);
    GreedyConserves(amount, Coins());
    GreedyNotesAreDenominations(amount, Coins());
    var g := Greedy(amount, Coins());
    forall i | 0 <= i < |g|
      ensures IsMainnet(g[i])
    {
      var x := g[i];
      assert x in Coins();
      assert x in Normalized(s);
      MainnetMembers(x);
    }
  }

  predicate PaysWithin(notes: seq<int>, amount: int, most: int) {
    Pays(notes, amount) && 0 < |notes| <= most
  }

  predicate MainnetPolicy(policy: Policy) {
    policy.denominations == MAINNET && policy.maxNoteCount == Some(32)
  }

  lemma CoinsPositive()
    ensures AllPositive(Coins())
  {
  }

  /** The mainnet split in terms of the greedy notes and their dust. */
  lemma MainnetOutcome(amount: int, policy: Policy)
    requires MainnetPolicy(policy) && amount > 0
    ensures AllPositive(Coins())
    ensures var g := Greedy(amount, Coins());
      if |g| > 32 then SplitOutcome(amount, policy) == Failure(TooManyNotes)
      else if Dust(amount, Coins()) != 0 then SplitOutcome(amount, policy).Failure?
      else SplitOutcome(amount, policy) == Success(g)
  {
    MainnetIsNormalized(policy.denominations);
    CoinsPositive();
  }

  /** A successful split pays the amount within the limit, with the fewest notes. */
  lemma SuccessfulSplitPays(amount: int, policy: Policy)
    requires MainnetPolicy(policy)
    ensures SplitOutcome(amount, policy).Success? ==>
      && PaysWithin(SplitOutcome(amount, policy).value, amount, 32)
      && forall notes :: Pays(notes, amount) ==> |SplitOutcome(amount, policy).value| <= |notes|
  {
    if SplitOutcome(amount, policy).Success? {
      MainnetOutcome(amount, policy);
      GreedyPays(amount, policy.denominations);
      forall notes | Pays(notes, amount)
        ensures |SplitOutcome(amount, policy).value| <= |notes|
      {
        GreedyUsesFewestNotes(amount, notes);
      }
    }
  }

  lemma PayableSplits(amount: int, policy: Policy, notes: seq<int>)
    requires MainnetPolicy(policy) && PaysWithin(notes, amount, 32)
    ensures SplitOutcome(amount, policy).Success?
  {
    SumOfNotesPositive(notes);
    GreedyUsesFewestNotes(amount, notes);
    MainnetOutcome(amount, policy);
  }

  /** The mainnet split succeeds exactly when some split into at most 32 notes exists. */
  lemma SplitSucceedsIffPayable(amount: int, policy: Policy)
    requires MainnetPolicy(policy)
    ensures SplitOutcome(amount, policy).Success? <==> exists notes :: PaysWithin(notes, amount, 32)
  {
    SuccessfulSplitPays(amount, policy);
    if notes :| PaysWithin(notes, amount, 32) {
      PayableSplits(amount, policy, notes);
    }
  }

  lemma {:induction false} SumOfNotesPositive(notes: seq<int>)
    requires AllMainnet(notes)
    ensures Sum(notes) >= 0 && (notes != [] ==> Sum(notes) > 0)
  {
    if notes != [] {
      SumOfNotesPositive(notes[1..]);
      MainnetNote(notes[0]);
    }
  }

  /** The least number of notes that pay an amount. */
  ghost predicate IsLeastCount(amount: int, count: nat) {
    && (exists notes :: Pays(notes, amount) && |notes| == count)
    && (forall notes :: Pays(notes, amount) ==> count <= |notes|)
  }

  lemma DigitsCountLeastNotes(amount: int)
    requires amount > 0 && amount % UNIT == 0
    ensures Proper(DigitsOf(amount / UNIT)) && IsLeastCount(amount, NoteCount(DigitsOf(amount / UNIT)))
  {
    var n := amount / UNIT;
    ValueOfDigits(n);
    GreedyMainnet(DigitsOf(n), 0, amount);
    GreedyPays(amount, MAINNET);
    forall notes | Pays(notes, amount)
      ensures NoteCount(DigitsOf(n)) <= |notes|
    {
      GreedyUsesFewestNotes(amount, notes);
    }
  }

  /** The same in numbers: a positive multiple of 0.005 ETH whose least number of notes, which is read off its
      decimal digits, is at most 32. */
  lemma SplitSucceedsIffMultiple(amount: int, policy: Policy)
    requires MainnetPolicy(policy)
    ensures amount > 0 ==> Proper(DigitsOf(amount / UNIT))
    ensures SplitOutcome(amount, policy).Success? <==>
      amount > 0 && amount % UNIT == 0 && NoteCount(DigitsOf(amount / UNIT)) <= 32
    ensures amount > 0 && amount % UNIT == 0 ==> IsLeastCount(amount, NoteCount(DigitsOf(amount / UNIT)))
  {
    if amount > 0 {
      var n, r := amount / UNIT, amount % UNIT;
      MainnetOutcome(amount, policy);
      ValueOfDigits(n);
      GreedyMainnet(DigitsOf(n), r, amount);
      if r == 0 {
        DigitsCountLeastNotes(amount);
      }
    }
  }
}
