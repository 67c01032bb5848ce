/** Which writes have landed before a handler goes on, over every run: a broadcast waits for both pending writes, and
    an answer with a hash for both submitted writes too.
    About recordRelayPending and recordRelaySubmitted in handleRelayRequest of services/relayer-worker/src/index.ts. */
module RelayerWrites {
  import opened Wrappers
  import opened RelayIdempotency
  import opened RelayerQueue

  /** The writes that have landed. */
  function LandedIn(steps: seq<Step>): (landed: set<Write>)
    ensures forall w :: w in landed <==> Land(w) in steps
  {
    if steps == [] then {}
    else
      assert steps == [steps[0]] + steps[1..];
      LandedIn(steps[1..]) + if steps[0].Land? then {steps[0].write} else {}
  }

  /** Both writes of a record have landed. */
  predicate BothLanded(i: nat, record: RelayRecord, landed: set<Write>) {
    && Write(i, NullifierKey(record.request.chainId, record.request.pool, record.request.nullifier), record) in landed
    && Write(i, CalldataKey(record.request.chainId, record.request.pool, record.request.calldataHash), record) in landed
  }

  /** What the stage of a run says of its writes. */
  predicate RunIsTold(i: nat, run: Run, landed: set<Write>) {
    var pending := PendingRecord(run.request);
    match run.stage
    case WritingPending(_, landedN, landedC) =>
      && (landedN.Some? ==> Write(i, NullifierKeyOf(run.request), pending) in landed)
      && (landedC.Some? ==> Write(i, CalldataKeyOf(run.request), pending) in landed)
    case Sending(_, _) => BothLanded(i, pending, landed)
    case WritingSubmitted(txHash, gotN, gotC) =>
      && BothLanded(i, pending, landed)
      && (gotN ==> Write(i, NullifierKeyOf(run.request), SubmittedRecord(run.request, txHash)) in landed)
      && (gotC ==> Write(i, CalldataKeyOf(run.request), SubmittedRecord(run.request, txHash)) in landed)
    case Settled(Sent(txHash)) =>
      BothLanded(i, pending, landed) && BothLanded(i, SubmittedRecord(run.request, txHash), landed)
    case _ => true
  }

  /** A write under way is of the pending record of its run, or of the submitted one that the run waits for. */
  predicate Fits(run: Run, w: Write) {
    && (w.key == NullifierKeyOf(run.request) || w.key == CalldataKeyOf(run.request))
    && match w.record.status
      case Pending => w.record == PendingRecord(run.request)
      case Submitted =>
        && w.record.txHash.Some? && w.record == SubmittedRecord(run.request, w.record.txHash.value)
        && (run.stage.Settled? || (run.stage.WritingSubmitted? && run.stage.txHash == w.record.txHash.value))
  }

  ghost predicate Told(s: State, landed: set<Write>) {
    && (forall i :: 0 <= i < |s.runs| ==> RunIsTold(i, s.runs[i], landed))
    && (forall w :: w in s.inFlight ==> w.run < |s.runs| && Fits(s.runs[w.run], w))
  }

  /** When one run moves on, it is enough that it is told, and that its writes fit. */
  lemma MovedIsTold(s: State, s': State, landed: set<Write>, more: set<Write>, i: nat)
    requires Told(s, landed) && landed <= more && i < |s.runs| == |s'.runs| && RunIsTold(i, s'.runs[i], more)
    requires forall k :: 0 <= k < |s.runs| && k != i ==> s'.runs[k] == s.runs[k]
    requires forall w :: w in s'.inFlight && (w.run == i || w !in s.inFlight) ==> w.run == i && Fits(s'.runs[i], w)
    ensures Told(s', more)
  {
    forall k | 0 <= k < |s'.runs|
      ensures RunIsTold(k, s'.runs[k], more)
    {
      assert k != i ==> RunIsTold(k, s.runs[k], landed);
    }
  }

  lemma LandTells(s: State, landed: set<Write>, w: Write)
    requires Told(s, landed) && Enabled(s, Land(w))
    ensures Told(Next(s, Land(w)), landed + {w})
  {
    var s' := Next(s, Land(w));
    assert RunIsTold(w.run, s.runs[w.run], landed) && Fits(s.runs[w.run], w);
    assert NullifierKeyOf(s.runs[w.run].request) != CalldataKeyOf(s.runs[w.run].request);
    assert RunIsTold(w.run, s'.runs[w.run], landed + {w});
    MovedIsTold(s, s', landed, landed + {w}, w.run);
  }

  lemma IssueTells(s: State, landed: set<Write>, i: nat)
    requires Told(s, landed) && Enabled(s, IssuePending(i))
    ensures Told(Next(s, IssuePending(i)), landed)
  {
    assert RunIsTold(i, s.runs[i], landed);
    MovedIsTold(s, Next(s, IssuePending(i)), landed, landed, i);
  }

  lemma BroadcastTells(s: State, landed: set<Write>, i: nat, txHash: Hex, reported: bool)
    requires Told(s, landed) && Enabled(s, Broadcast(i, txHash, reported))
    ensures Told(Next(s, Broadcast(i, txHash, reported)), landed)
  {
    assert RunIsTold(i, s.runs[i], landed);
    MovedIsTold(s, Next(s, Broadcast(i, txHash, reported)), landed, landed, i);
  }

  lemma NextTells(s: State, landed: set<Write>, step: Step)
    requires Told(s, landed) && Enabled(s, step)
    ensures Told(Next(s, step), landed + LandedIn([step]))
  {
    var s', more := Next(s, step), landed + LandedIn([step]);
    match step
    case Land(w) => LandTells(s, landed, w); assert more == landed + {w};
    case Tick(_) => assert more == landed;
    case Lose(_) => assert more == landed;
    case Arrive(_) => assert more == landed;
    case IssuePending(i) => IssueTells(s, landed, i); assert more == landed;
    case Broadcast(i, txHash, reported) => BroadcastTells(s, landed, i, txHash, reported); assert more == landed;
    case _ =>
      assert more == landed && RunIsTold(step.i, s.runs[step.i], landed);
      MovedIsTold(s, s', landed, landed, step.i);
  }

  lemma {:induction false} RunTells(s: State, landed: set<Write>, steps: seq<Step>)
    requires Told(s, landed) && IsRun(s, steps)
    ensures Told(Final(s, steps), landed + LandedIn(steps))
    decreases |steps|
  {
    if steps == [] {
      assert landed + LandedIn(steps) == landed;
    } else {
      NextTells(s, landed, steps[0]);
      RunTells(Next(s, steps[0]), landed + LandedIn([steps[0]]), steps[1..]);
      assert landed + LandedIn([steps[0]]) + LandedIn(steps[1..]) == landed + LandedIn(steps);
    }
  }

  /** In every run a transaction is broadcast only when both writes of the run's pending record have landed. */
  lemma BroadcastsAfterBothWrites(now: int, steps: seq<Step>, i: nat, txHash: Hex, reported: bool)
    requires IsRun(Initial(now), steps) && Enabled(Final(Initial(now), steps), Broadcast(i, txHash, reported))
    ensures var r := Final(Initial(now), steps).runs[i].request;
      && Land(Write(i, NullifierKey(r.chainId, r.pool, r.nullifier), RelayRecord(Pending, r, None))) in steps
      && Land(Write(i, CalldataKey(r.chainId, r.pool, r.calldataHash), RelayRecord(Pending, r, None))) in steps
  {
    RunTells(Initial(now), {}, steps);
    assert RunIsTold(i, Final(Initial(now), steps).runs[i], {} + LandedIn(steps));
  }

  /** In every run a request is answered with a hash only when both writes of its pending record and both of its
      submitted record with that hash have landed. */
  lemma SentAfterAllWrites(now: int, steps: seq<Step>, i: nat, txHash: Hex)
    requires IsRun(Initial(now), steps) && i < |Final(Initial(now), steps).runs|
    requires Final(Initial(now), steps).runs[i].stage == Settled(Sent(txHash))
    ensures var r := Final(Initial(now), steps).runs[i].request;
      && Land(Write(i, NullifierKey(r.chainId, r.pool, r.nullifier), RelayRecord(Pending, r, None))) in steps
      && Land(Write(i, CalldataKey(r.chainId, r.pool, r.calldataHash), RelayRecord(Pending, r, None))) in steps
      && Land(Write(i, NullifierKey(r.chainId, r.pool, r.nullifier), RelayRecord(Submitted, r, Some(txHash)))) in steps
      && Land(Write(i, CalldataKey(r.chainId, r.pool, r.calldataHash), RelayRecord(Submitted, r, Some(txHash)))) in steps
  {
    RunTells(Initial(now), {}, steps);
    assert RunIsTold(i, Final(Initial(now), steps).runs[i], {} + LandedIn(steps));
  }
}
