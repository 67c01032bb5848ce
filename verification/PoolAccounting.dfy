/** Withdrawal fees, notes and the pool's accounts: value is conserved in every run.
    Models calculateWithdrawalFee and canSweepFees of packages/core/src/fees.ts, and derivePrivateBalance,
    markSpent and assertPoolSolvent of packages/core/src/notes.ts. */
module PoolAccounting {
  import opened Wrappers
  import opened Powers
  import Denominations
  import opened MainnetDenominations

  const BPS_DENOMINATOR: int := 10_000
  const MIN_WITHDRAWAL: int := 1
  const MAX_SAFE_INTEGER: int := 9_007_199_254_740_991

  // Fees.

  datatype Bounds = Bounds(maxFeeBps: Option<int>, maxFee: Option<int>, minNet: Option<int>)

  datatype FeeResult = FeeResult(gross: int, fee: int, net: int)

  datatype FeeError = BelowMinimum | BadBps | BpsAboveMaximum | FeeAboveMaximum | NetBelowMinimum

  predicate IsBps(bps: int) {
    0 <= bps <= MAX_SAFE_INTEGER
  }

  function FeeOf(gross: int, bps: int): int {
    gross * bps / BPS_DENOMINATOR
  }

  function CalculateWithdrawalFee(gross: int, bps: int, bounds: Bounds): Result<FeeResult, FeeError> {
    var fee, net := FeeOf(gross, bps), gross - FeeOf(gross, bps);
    :- Need(gross >= MIN_WITHDRAWAL, BelowMinimum);
    :- Need(IsBps(bps), BadBps);
    :- Need(bounds.maxFeeBps.None? || IsBps(bounds.maxFeeBps.value), BadBps);
    :- Need(bounds.maxFeeBps.None? || bps <= bounds.maxFeeBps.value, BpsAboveMaximum);
    :- Need(bounds.maxFee.None? || fee <= bounds.maxFee.value, FeeAboveMaximum);
    :- Need(bounds.minNet.None? || net >= bounds.minNet.value, NetBelowMinimum);
    Success(FeeResult(gross, fee, net))
  }

  /** A charged fee splits the exit, is the floor of its share, and keeps the user's bounds. */
  lemma FeeSplitsExit(gross: int, bps: int, bounds: Bounds)
    requires CalculateWithdrawalFee(gross, bps, bounds).Success?
    ensures var r := CalculateWithdrawalFee(gross, bps, bounds).value;
      && r.net + r.fee == gross && r.fee >= 0
      && BPS_DENOMINATOR * r.fee <= gross * bps < BPS_DENOMINATOR * (r.fee + 1)
      && (bps <= BPS_DENOMINATOR ==> r.net >= 0)
      && (bounds.maxFee.Some? ==> r.fee <= bounds.maxFee.value)
      && (bounds.minNet.Some? ==> r.net >= bounds.minNet.value)
  {
    assert gross * bps >= 0;
    if bps <= BPS_DENOMINATOR {
      assert gross * (BPS_DENOMINATOR - bps) >= 0;
    }
  }

  function SumFees(amounts: seq<int>, bps: int): int {
    if amounts == [] then 0 else FeeOf(amounts[0], bps) + SumFees(amounts[1..], bps)
  }

  /** Charging a whole number of ten-thousandths leaves no fraction. */
  lemma WholeFee(k: int, rest: int, bps: int)
    ensures FeeOf(BPS_DENOMINATOR * k, bps) == k * bps
    ensures FeeOf(BPS_DENOMINATOR * k + rest, bps) == k * bps + FeeOf(rest, bps)
  {
    assert BPS_DENOMINATOR * k * bps == (k * bps) * BPS_DENOMINATOR;
    assert (BPS_DENOMINATOR * k + rest) * bps == (k * bps) * BPS_DENOMINATOR + rest * bps;
    var q, r := rest * bps / BPS_DENOMINATOR, rest * bps % BPS_DENOMINATOR;
    QuotientIs((BPS_DENOMINATOR * k) * bps, BPS_DENOMINATOR, k * bps, 0);
    QuotientIs((BPS_DENOMINATOR * k + rest) * bps, BPS_DENOMINATOR, k * bps + q, r);
  }

  /** Splitting an exit into supported denominations does not change the total fee. */
  lemma {:induction false} SplittingKeepsFee(amounts: seq<int>, bps: int)
    requires AllMainnet(amounts)
    ensures SumFees(amounts, bps) == FeeOf(Denominations.Sum(amounts), bps)
  {
    if amounts == [] {
      assert 0 * bps == 0;
    } else {
      SplittingKeepsFee(amounts[1..], bps);
      var k := amounts[0] / BPS_DENOMINATOR;
      MainnetIsWhole(amounts[0]);
      WholeFee(k, Denominations.Sum(amounts[1..]), bps);
    }
  }

  lemma MainnetIsWhole(note: int)
    requires IsMainnet(note)
    ensures note == BPS_DENOMINATOR * (note / BPS_DENOMINATOR)
  {
  }

  // Notes.

  datatype Note = Note(nullifier: int, owner: int, amount: nat, spent: bool)

  function DerivePrivateBalance(notes: seq<Note>, owner: int): nat {
    if notes == [] then 0
    else DerivePrivateBalance(notes[1..], owner)
         + if notes[0].owner != owner || notes[0].spent then 0 else notes[0].amount
  }

  function MarkSpent(notes: seq<Note>, nullifier: int): (r: seq<Note>)
    ensures |r| == |notes|
  {
    seq(|notes|, i requires 0 <= i < |notes| =>
      if notes[i].nullifier == nullifier then notes[i].(spent := true) else notes[i])
  }

  /** The value of all unspent notes. */
  function Unspent(notes: seq<Note>): nat {
    if notes == [] then 0 else Unspent(notes[1..]) + if notes[0].spent then 0 else notes[0].amount
  }

  function SumBalances(notes: seq<Note>, owners: seq<int>): nat {
    if owners == [] then 0 else DerivePrivateBalance(notes, owners[0]) + SumBalances(notes, owners[1..])
  }

  predicate DistinctOwners(owners: seq<int>) {
    forall i, j :: 0 <= i < j < |owners| ==> owners[i] != owners[j]
  }

  function ShareOf(note: Note, owner: int): nat {
    if note.owner != owner || note.spent then 0 else note.amount
  }

  lemma {:induction false} OneNoteShares(note: Note, rest: seq<Note>, owners: seq<int>)
    requires DistinctOwners(owners)
    ensures SumBalances([note] + rest, owners)
         == SumBalances(rest, owners) + if note.owner in owners && !note.spent then note.amount else 0
  {
    if owners == [] {
    } else {
      OneNoteShares(note, rest, owners[1..]);
      assert ([note] + rest)[1..] == rest;
      assert DerivePrivateBalance([note] + rest, owners[0])
          == DerivePrivateBalance(rest, owners[0]) + ShareOf(note, owners[0]);
      assert owners == [owners[0]] + owners[1..];
      if note.owner == owners[0] {
        assert note.owner !in owners[1..];
      }
    }
  }

  /** The owners' balances add up to the unspent value: nothing is counted twice or left out. */
  lemma {:induction false} BalancesAddUp(notes: seq<Note>, owners: seq<int>)
    requires DistinctOwners(owners) && forall i :: 0 <= i < |notes| ==> notes[i].owner in owners
    ensures SumBalances(notes, owners) == Unspent(notes)
  {
    if notes == [] {
      NoNotesNoBalance(owners);
    } else {
      BalancesAddUp(notes[1..], owners);
      assert notes == [notes[0]] + notes[1..];
      OneNoteShares(notes[0], notes[1..], owners);
    }
  }

  lemma {:induction false} NoNotesNoBalance(owners: seq<int>)
    ensures SumBalances([], owners) == 0
  {
    if owners != [] {
      NoNotesNoBalance(owners[1..]);
    }
  }

  predicate DistinctNullifiers(notes: seq<Note>) {
    forall i, j :: 0 <= i < j < |notes| ==> notes[i].nullifier != notes[j].nullifier
  }

  predicate FreshNullifier(notes: seq<Note>, nullifier: int) {
    forall i :: 0 <= i < |notes| ==> notes[i].nullifier != nullifier
  }

  lemma {:induction false} UnspentAppend(notes: seq<Note>, note: Note)
    ensures Unspent(notes + [note]) == Unspent(notes) + if note.spent then 0 else note.amount
  {
    if notes == [] {
      assert notes + [note] == [note];
    } else {
      UnspentAppend(notes[1..], note);
      assert (notes + [note])[1..] == notes[1..] + [note];
    }
  }

  lemma {:induction false} MarkNothing(notes: seq<Note>, nullifier: int)
    requires FreshNullifier(notes, nullifier)
    ensures MarkSpent(notes, nullifier) == notes
  {
  }

  /** Spending a note takes exactly its amount off the unspent value. */
  lemma {:induction false} SpendTakesAmount(notes: seq<Note>, i: nat)
    requires DistinctNullifiers(notes) && i < |notes| && !notes[i].spent
    ensures Unspent(MarkSpent(notes, notes[i].nullifier)) == Unspent(notes) - notes[i].amount
  {
    var marked, rest := MarkSpent(notes, notes[i].nullifier), notes[1..];
    assert marked[1..] == MarkSpent(rest, notes[i].nullifier);
    if i == 0 {
      MarkNothing(rest, notes[0].nullifier);
    } else {
      assert rest[i - 1] == notes[i];
      SpendTakesAmount(rest, i - 1);
    }
  }

  // The pool.

  datatype Accounting = Accounting(deposited: int, withdrawnNet: int, accruedFees: int, sweptFees: int)

  predicate CanSweepFees(accrued: int, swept: int, requested: int) {
    accrued >= 0 && swept >= 0 && requested >= 0 && swept <= accrued && requested <= accrued - swept
  }

  predicate AssertPoolSolvent(a: Accounting, unspent: int) {
    a.sweptFees <= a.accruedFees && a.deposited >= a.withdrawnNet + unspent + (a.accruedFees - a.sweptFees)
  }

  datatype Pool = Pool(notes: seq<Note>, accounting: Accounting)

  const EMPTY_POOL: Pool := Pool([], Accounting(0, 0, 0, 0))

  datatype Event =
    | Deposit(note: Note)
    | FullExit(index: nat, bps: int, bounds: Bounds)
    | PartialExit(index: nat, gross: int, bps: int, bounds: Bounds, change: Note)
    | Sweep(amount: int)

  /** An event that may happen: new notes are unspent and have new nullifiers, exits spend an unspent note and
      pay a fee that is charged, and sweeps are admitted. */
  predicate Admitted(p: Pool, e: Event) {
    match e
    case Deposit(note) => !note.spent && FreshNullifier(p.notes, note.nullifier)
    case FullExit(i, bps, bounds) =>
      i < |p.notes| && !p.notes[i].spent && CalculateWithdrawalFee(p.notes[i].amount, bps, bounds).Success?
    case PartialExit(i, gross, bps, bounds, change) =>
      && i < |p.notes| && !p.notes[i].spent && gross < p.notes[i].amount
      && CalculateWithdrawalFee(gross, bps, bounds).Success?
      && !change.spent && FreshNullifier(p.notes, change.nullifier) && change.amount == p.notes[i].amount - gross
    case Sweep(amount) => CanSweepFees(p.accounting.accruedFees, p.accounting.sweptFees, amount)
  }

  function PayOut(a: Accounting, r: FeeResult): Accounting {
    a.(withdrawnNet := a.withdrawnNet + r.net, accruedFees := a.accruedFees + r.fee)
  }

  function After(p: Pool, e: Event): Pool
    requires Admitted(p, e)
  {
    match e
    case Deposit(note) => Pool(p.notes + [note], p.accounting.(deposited := p.accounting.deposited + note.amount))
    case FullExit(i, bps, bounds) =>
      Pool(MarkSpent(p.notes, p.notes[i].nullifier),
           PayOut(p.accounting, CalculateWithdrawalFee(p.notes[i].amount, bps, bounds).value))
    case PartialExit(i, gross, bps, bounds, change) =>
      Pool(MarkSpent(p.notes, p.notes[i].nullifier) + [change],
           PayOut(p.accounting, CalculateWithdrawalFee(gross, bps, bounds).value))
    case Sweep(amount) => p.(accounting := p.accounting.(sweptFees := p.accounting.sweptFees + amount))
  }

  /** A run of events, each admitted when it happens. */
  predicate IsRun(p: Pool, events: seq<Event>)
    decreases |events|
  {
    events == [] || (Admitted(p, events[0]) && IsRun(After(p, events[0]), events[1..]))
  }

  function AfterRun(p: Pool, events: seq<Event>): Pool
    requires IsRun(p, events)
    decreases |events|
  {
    if events == [] then p else AfterRun(After(p, events[0]), events[1..])
  }

  /** Every wei deposited was paid out, swept, is in an unspent note, or is an unswept fee. */
  predicate Conserved(p: Pool) {
    var a := p.accounting;
    && DistinctNullifiers(p.notes) && 0 <= a.sweptFees <= a.accruedFees
    && a.deposited - a.withdrawnNet - a.sweptFees == Unspent(p.notes) + (a.accruedFees - a.sweptFees)
  }

  lemma DepositConserves(p: Pool, note: Note)
    requires Conserved(p) && Admitted(p, Deposit(note))
    ensures Conserved(After(p, Deposit(note)))
  {
    UnspentAppend(p.notes, note);
  }

  lemma MarkKeepsNullifiers(notes: seq<Note>, nullifier: int)
    requires DistinctNullifiers(notes)
    ensures DistinctNullifiers(MarkSpent(notes, nullifier))
    ensures forall n :: FreshNullifier(notes, n) ==> FreshNullifier(MarkSpent(notes, nullifier), n)
  {
  }

  lemma FullExitConserves(p: Pool, i: nat, bps: int, bounds: Bounds)
    requires Conserved(p) && Admitted(p, FullExit(i, bps, bounds))
    ensures Conserved(After(p, FullExit(i, bps, bounds)))
  {
    SpendTakesAmount(p.notes, i);
    MarkKeepsNullifiers(p.notes, p.notes[i].nullifier);
    FeeSplitsExit(p.notes[i].amount, bps, bounds);
  }

  lemma PartialExitConserves(p: Pool, i: nat, gross: int, bps: int, bounds: Bounds, change: Note)
    requires Conserved(p) && Admitted(p, PartialExit(i, gross, bps, bounds, change))
    ensures Conserved(After(p, PartialExit(i, gross, bps, bounds, change)))
  {
    SpendTakesAmount(p.notes, i);
    MarkKeepsNullifiers(p.notes, p.notes[i].nullifier);
    UnspentAppend(MarkSpent(p.notes, p.notes[i].nullifier), change);
    FeeSplitsExit(gross, bps, bounds);
  }

  lemma EventConserves(p: Pool, e: Event)
    requires Conserved(p) && Admitted(p, e)
    ensures Conserved(After(p, e))
  {
    match e
    case Deposit(note) => DepositConserves(p, note);
    case FullExit(i, bps, bounds) => FullExitConserves(p, i, bps, bounds);
    case PartialExit(i, gross, bps, bounds, change) => PartialExitConserves(p, i, gross, bps, bounds, change);
    case Sweep(_) =>
  }

  /** Every run conserves value, so the pool always passes the solvency check. */
  lemma {:induction false} RunsConserve(p: Pool, events: seq<Event>)
    requires Conserved(p) && IsRun(p, events)
    ensures Conserved(AfterRun(p, events))
    ensures AssertPoolSolvent(AfterRun(p, events).accounting, Unspent(AfterRun(p, events).notes))
    decreases |events|
  {
    if events != [] {
      EventConserves(p, events[0]);
      RunsConserve(After(p, events[0]), events[1..]);
    }
  }

  lemma EveryRunIsSolvent(events: seq<Event>)
    requires IsRun(EMPTY_POOL, events)
    ensures var p := AfterRun(EMPTY_POOL, events); AssertPoolSolvent(p.accounting, Unspent(p.notes))
  {
    RunsConserve(EMPTY_POOL, events);
  }

  /** Sweeping an amount leaves a conserving pool solvent exactly when the sweep check admits it. */
  lemma SweepKeepsSolvencyIffAdmitted(p: Pool, amount: nat)
    requires Conserved(p)
    ensures CanSweepFees(p.accounting.accruedFees, p.accounting.sweptFees, amount)
       <==> AssertPoolSolvent(p.accounting.(sweptFees := p.accounting.sweptFees + amount), Unspent(p.notes))
  {
  }

  /** When a fee is charged. */
  lemma ChargesIff(gross: int, bps: int, bounds: Bounds)
    ensures CalculateWithdrawalFee(gross, bps, bounds).Success? <==>
      && gross >= 1 && 0 <= bps <= 9_007_199_254_740_991
      && (bounds.maxFeeBps.Some? ==>
            0 <= bounds.maxFeeBps.value <= 9_007_199_254_740_991 && bps <= bounds.maxFeeBps.value)
      && (bounds.maxFee.Some? ==> gross * bps / 10_000 <= bounds.maxFee.value)
      && (bounds.minNet.Some? ==> gross - gross * bps / 10_000 >= bounds.minNet.value)
  {
  }
}
