/** The public exits a fixed-denomination note allows.
    Models spendablePublicExitAmountsForNote, assertFixedDenominationPublicExit and the membership test of
    isSupportedFixedDenomination, of packages/core/src/denominations.ts. */
module PublicExits {
  import opened Wrappers
  import opened Denominations

  datatype ExitError =
    | PolicyError(error: SplitError)
    | NoteNotSupported
    | AmountNotSupported
    | AmountExceedsNote
    | ChangeNotSupported

  /** Why an exit of a gross amount from a note is refused, if it is. */
  function ExitOutcome(note: int, gross: int, policy: Policy): Outcome<ExitError> {
    match NormalizeOutcome(policy.denominations)
    case Failure(e) => Thrown(PolicyError(e))
    case Success(d) =>
      if note !in d then Thrown(NoteNotSupported)
      else if gross !in d then Thrown(AmountNotSupported)
      else if gross > note then Thrown(AmountExceedsNote)
      else if note - gross != 0 && note - gross !in d then Thrown(ChangeNotSupported)
      else Done
  }

  /** The exits offered for a note. */
  predicate Offered(note: int, gross: int, policy: Policy, allowFullExit: bool) {
    ExitOutcome(note, gross, policy) == Done && (gross != note || allowFullExit)
  }

  /** What adding an amount to the set of exits gives. */
  function AddExit(exits: seq<int>, x: int): (r: seq<int>)
    ensures forall y :: y in r <==> y in exits || y == x
  {
    if x in exits then exits else exits + [x]
  }

  predicate NoRepeats(s: seq<int>) {
    forall i, j :: 0 <= i < j < |s| ==> s[i] != s[j]
  }

  lemma AddKeepsNoRepeats(exits: seq<int>, x: int)
    requires NoRepeats(exits)
    ensures NoRepeats(AddExit(exits, x))
  {
  }

  /** The exit that leaves a given change, if the loop offers it. */
  predicate LeavesChange(note: int, gross: int, change: int, d: seq<int>) {
    change < note && gross == note - change && gross in d
  }

  /** Offers exactly the exits that the assertion accepts, largest first. */
  method SpendablePublicExitAmounts(note: int, policy: Policy, allowFullExit: bool)
    returns (r: Result<seq<int>, SplitError>)
    ensures r.Failure? <==> NormalizeOutcome(policy.denominations).Failure?
    ensures r.Success? ==> Descending(r.value)
    ensures r.Success? ==> forall x :: x in r.value <==> Offered(note, x, policy, allowFullExit)
  {
    var normal := NormalizeDenominations(policy.denominations);
    if normal.Failure? {
      return Failure(normal.error);
    }
    var d := normal.value;
    if note !in d {
      return Success([]);
    }
    var exits: seq<int> := [];
    if allowFullExit {
      exits := [note];
    }
    for i := 0 to |d|
      invariant NoRepeats(exits)
      invariant forall x :: x in exits <==>
        (allowFullExit && x == note) || exists k :: 0 <= k < i && LeavesChange(note, x, d[k], d)
    {
      var change := d[i];
      if change < note && note - change in d {
        AddKeepsNoRepeats(exits, note - change);
        exits := AddExit(exits, note - change);
        assert LeavesChange(note, note - change, d[i], d);
      }
    }
    SortOfDistinct(exits);
    NormalizedIsDescending(exits);
    forall x
      ensures x in exits <==> Offered(note, x, policy, allowFullExit)
    {
      OfferedIffLeavesChange(note, x, policy, allowFullExit, d);
    }
    return Success(SortDescending(exits));
  }

  lemma OfferedIffLeavesChange(note: int, x: int, policy: Policy, allowFullExit: bool, d: seq<int>)
    requires NormalizeOutcome(policy.denominations) == Success(d) && note in d
    ensures Offered(note, x, policy, allowFullExit) <==>
      (allowFullExit && x == note) || exists k :: 0 <= k < |d| && LeavesChange(note, x, d[k], d)
  {
    NormalizedArePositive(policy.denominations);
    if Offered(note, x, policy, allowFullExit) && x != note {
      var change := note - x;
      assert change in d;
      var k :| 0 <= k < |d| && d[k] == change;
      var j :| 0 <= j < |d| && d[j] == x;
      assert LeavesChange(note, x, d[k], d);
    }
    if exists k :: 0 <= k < |d| && LeavesChange(note, x, d[k], d) {
      var k :| 0 <= k < |d| && LeavesChange(note, x, d[k], d);
      assert d[k] > 0 && note - x == d[k];
      assert d[k] in d;
    }
  }

  /** An exit is accepted exactly from a supported note, of a supported amount that the note covers, leaving nothing or
      a supported change; it is offered exactly when it is accepted, and the whole note only on request. */
  lemma OfferedIff(note: int, gross: int, policy: Policy, allowFullExit: bool)
    ensures var d := policy.denominations;
      var valid := d != [] && forall i :: 0 <= i < |d| ==> d[i] > 0;
      && (ExitOutcome(note, gross, policy) == Done <==>
          && valid && note in d && gross in d && gross <= note && (gross == note || note - gross in d))
      && (Offered(note, gross, policy, allowFullExit) <==>
          && valid && note in d && gross in d && gross <= note && (gross == note || note - gross in d)
          && (gross == note ==> allowFullExit))
  {
  }

  /** Why an exit is refused. */
  lemma ExitRefusals(note: int, gross: int, policy: Policy)
    requires NormalizeOutcome(policy.denominations).Success?
    ensures var r, d := ExitOutcome(note, gross, policy), policy.denominations;
      && (r == Thrown(NoteNotSupported) <==> note !in d)
      && (r == Thrown(AmountNotSupported) <==> note in d && gross !in d)
      && (r == Thrown(AmountExceedsNote) <==> note in d && gross in d && gross > note)
      && (r == Thrown(ChangeNotSupported) <==> note in d && gross in d && gross < note && note - gross !in d)
  {
  }
}
