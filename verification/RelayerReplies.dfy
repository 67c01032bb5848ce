/** What the handlers answer, over every run: the answer that stands in the stage of a settled run.
    About relayIdempotencyResponse and handleRelayRequest of services/relayer-worker/src/index.ts. */
module RelayerReplies {
  import opened Wrappers
  import opened RelayIdempotency
  import opened RelayerQueue
  import opened RelayerAnswers
  import opened RelayerRecords

  /** A run that has read both keys is about to decide. */
  predicate HasRead(s: State, i: nat) {
    && i < |s.runs| && s.runs[i].stage.Reading?
    && s.runs[i].stage.nullifierRead.Some? && s.runs[i].stage.calldataRead.Some?
  }

  // What the stages of a run know of the sends.

  /** A run that reports a hash has broadcast it. */
  ghost predicate WasBroadcast(s: State, request: Request, txHash: Hex) {
    exists b :: 0 <= b < |s.sends| && s.sends[b].request == request && s.sends[b].txHash == txHash
  }

  ghost predicate ReadIsKnown(s: State, read: Option<Option<RelayRecord>>) {
    read.Some? && read.value.Some? ==> IsKnown(s, read.value.value)
  }

  ghost predicate ReplyIsKnown(s: State, run: Run) {
    match run.stage
    case Reading(nullifierRead, calldataRead, _) => ReadIsKnown(s, nullifierRead) && ReadIsKnown(s, calldataRead)
    case WritingSubmitted(txHash, _, _) => WasBroadcast(s, run.request, txHash)
    case Settled(Sent(txHash)) => WasBroadcast(s, run.request, txHash)
    case Settled(Replayed(record)) => exists b :: 0 <= b < |s.sends| && IsRecordOf(s.sends[b], record)
    case _ => true
  }

  ghost predicate RepliesKnown(s: State) {
    RecordsKnown(s) && forall i :: 0 <= i < |s.runs| ==> ReplyIsKnown(s, s.runs[i])
  }

  lemma ReplyStaysKnown(s: State, s': State, run: Run)
    requires ReplyIsKnown(s, run) && s.sends <= s'.sends
    ensures ReplyIsKnown(s', run)
  {
  }

  /** What moves on is known, and everything else stays known. */
  lemma MovedIsKnown(s: State, s': State, i: nat)
    requires RepliesKnown(s) && RecordsKnown(s') && s.sends <= s'.sends
    requires i < |s.runs| <= |s'.runs| && ReplyIsKnown(s', s'.runs[i])
    requires forall k :: 0 <= k < |s'.runs| && k != i ==>
      if k < |s.runs| then s'.runs[k] == s.runs[k] else s'.runs[k].stage.Queued?
    ensures RepliesKnown(s')
  {
    forall k | 0 <= k < |s'.runs|
      ensures ReplyIsKnown(s', s'.runs[k])
    {
      if k < |s.runs| && k != i {
        ReplyStaysKnown(s, s', s.runs[k]);
      }
    }
  }

  lemma DecideKeepsReplies(s: State, i: nat)
    requires RepliesKnown(s) && Enabled(s, DecideRun(i))
    ensures ReplyIsKnown(Next(s, DecideRun(i)), Next(s, DecideRun(i)).runs[i])
  {
    assert ReplyIsKnown(s, s.runs[i]);
  }

  lemma BroadcastKeepsReplies(s: State, i: nat, txHash: Hex, reported: bool)
    requires RepliesKnown(s) && Enabled(s, Broadcast(i, txHash, reported))
    ensures var s' := Next(s, Broadcast(i, txHash, reported)); ReplyIsKnown(s', s'.runs[i])
  {
    var s' := Next(s, Broadcast(i, txHash, reported));
    assert s'.sends[|s.sends|].request == s.runs[i].request && s'.sends[|s.sends|].txHash == txHash;
  }

  lemma NextKeepsReplies(s: State, step: Step)
    requires RepliesKnown(s) && Enabled(s, step)
    ensures RepliesKnown(Next(s, step))
  {
    var s' := Next(s, step);
    NextKeepsRecords(s, step);
    assert s.sends <= s'.sends;
    match step
    case Tick(_) =>
    case Arrive(_) =>
    case Lose(_) =>
    case Land(w) =>
      assert ReplyIsKnown(s, s.runs[w.run]);
      MovedIsKnown(s, s', w.run);
    case Broadcast(i, txHash, reported) =>
      BroadcastKeepsReplies(s, i, txHash, reported);
      MovedIsKnown(s, s', i);
    case DecideRun(i) =>
      DecideKeepsReplies(s, i);
      MovedIsKnown(s, s', i);
    case _ =>
      assert ReplyIsKnown(s, s.runs[step.i]);
      MovedIsKnown(s, s', step.i);
  }

  lemma {:induction false} RunKeepsReplies(s: State, steps: seq<Step>)
    requires RepliesKnown(s) && IsRun(s, steps)
    ensures RepliesKnown(Final(s, steps))
    decreases |steps|
  {
    if steps != [] {
      NextKeepsReplies(s, steps[0]);
      RunKeepsReplies(Next(s, steps[0]), steps[1..]);
    }
  }

  /** In every run a replayed answer is the submitted record of a broadcast send, and a sent answer carries the
      hash of a broadcast of its own request. */
  lemma RepliesWereBroadcast(now: int, steps: seq<Step>, i: nat)
    requires IsRun(Initial(now), steps) && i < |Final(Initial(now), steps).runs|
    ensures var s := Final(Initial(now), steps);
      && (forall record :: s.runs[i].stage == Settled(Replayed(record)) ==>
            exists b :: 0 <= b < |s.sends| && record == SubmittedRecord(s.sends[b].request, s.sends[b].txHash))
      && (forall txHash :: s.runs[i].stage == Settled(Sent(txHash)) ==>
            exists b :: 0 <= b < |s.sends| && s.sends[b].request == s.runs[i].request && s.sends[b].txHash == txHash)
  {
    RunKeepsReplies(Initial(now), steps);
    var s := Final(Initial(now), steps);
    assert ReplyIsKnown(s, s.runs[i]);
    forall record | s.runs[i].stage == Settled(Replayed(record))
      ensures exists b :: 0 <= b < |s.sends| && record == SubmittedRecord(s.sends[b].request, s.sends[b].txHash)
    {
      var b :| 0 <= b < |s.sends| && IsRecordOf(s.sends[b], record);
    }
  }

  /** An answer is final. */
  lemma AnswersAreFinal(s: State, step: Step, i: nat)
    requires Enabled(s, step) && i < |s.runs| && s.runs[i].stage.Settled?
    ensures i < |Next(s, step).runs| && Next(s, step).runs[i] == s.runs[i]
  {
  }

  /** What a step answers: a failed run failed in that step or was sent unreported, a sent answer acknowledges the
      submitted record of its hash, and every other answer is a decision. */
  lemma StepSettlesIff(s: State, step: Step, i: nat)
    requires Enabled(s, step) && i < |s.runs| && !s.runs[i].stage.Settled?
    ensures var stage := Next(s, step).runs[i].stage;
      && (stage == Settled(Failed) <==> step == Fail(i) || (step.Broadcast? && step.i == i && !step.reported))
      && (forall txHash :: stage == Settled(Sent(txHash)) <==>
            step == AckSubmitted(i) && s.runs[i].stage.txHash == txHash)
      && (stage.Settled? && stage.answer != Failed && !stage.answer.Sent? ==> step == DecideRun(i))
  {
  }

  // What a run reads and decides.

  /** A read under a key finds the entry that stands there, while its time to live runs. */
  lemma ReadsFindLiveEntries(s: State, i: nat)
    requires i < |s.runs| && s.runs[i].stage.Reading?
    ensures var r := s.runs[i].request;
      var n, c := NullifierKey(r.chainId, r.pool, r.nullifier), CalldataKey(r.chainId, r.pool, r.calldataHash);
      && (Enabled(s, ReadNullifier(i)) ==>
            var stage := Next(s, ReadNullifier(i)).runs[i].stage;
            stage.Reading? && stage.readAt == s.now && stage.calldataRead == s.runs[i].stage.calldataRead
            && stage.nullifierRead
            == Some(if n in s.entries && s.now < s.entries[n].expiresAt then Some(s.entries[n].record) else None))
      && (Enabled(s, ReadCalldata(i)) ==>
            var stage := Next(s, ReadCalldata(i)).runs[i].stage;
            stage.Reading? && stage.readAt == s.runs[i].stage.readAt
            && stage.nullifierRead == s.runs[i].stage.nullifierRead
            && stage.calldataRead
            == Some(if c in s.entries && s.now < s.entries[c].expiresAt then Some(s.entries[c].record) else None))
  {
  }

  /** In every run the decision of a handler settles its run, or clears it to send, exactly as the records it has
      read say: a replay for a submitted record that answers, pending for a pending one, conflict for a nullifier's
      record of other calldata when no record stands under the own calldata key, and clearance when it read
      nothing. */
  lemma DecisionSettlesIff(now: int, steps: seq<Step>, i: nat)
    requires IsRun(Initial(now), steps) && HasRead(Final(Initial(now), steps), i)
    ensures var s := Final(Initial(now), steps);
      var request, held, own := s.runs[i].request, s.runs[i].stage.nullifierRead.value, s.runs[i].stage.calldataRead.value;
      && Enabled(s, DecideRun(i))
      && var stage := Next(s, DecideRun(i)).runs[i].stage;
        && (forall record :: stage == Settled(Replayed(record)) <==>
              record.status == Submitted
              && (own == Some(record)
                  || (own == None && held == Some(record) && record.request.calldataHash == request.calldataHash)))
        && (stage == Settled(RefusedPending) <==>
              || (own.Some? && own.value.status == Pending)
              || (own.None? && held.Some? && held.value.request.calldataHash == request.calldataHash
                  && held.value.status == Pending))
        && (stage == Settled(RefusedConflict) <==>
              own.None? && held.Some? && held.value.request.calldataHash != request.calldataHash)
        && (stage.Cleared? <==> own.None? && held.None?)
  {
    RunKeepsReplies(Initial(now), steps);
    var s := Final(Initial(now), steps);
    assert ReplyIsKnown(s, s.runs[i]);
  }

  // Orderly runs.

  /** What an orderly run has read is what stands in the store: nothing lands while it reads. */
  ghost predicate ReadsMatch(s: State, run: Run) {
    run.stage.Reading? ==>
      var n, stage := NullifierKeyOf(run.request), run.stage;
      && stage.readAt <= s.now
      && (stage.nullifierRead.Some? ==> stage.nullifierRead.value == Read(s.entries, stage.readAt, n))
      && (stage.calldataRead.Some? && stage.calldataRead.value.Some? ==>
            var record := stage.calldataRead.value.value;
            record.request == run.request && n in s.entries && s.entries[n].record == record)
  }

  ghost predicate AllReadsMatch(s: State) {
    forall i :: 0 <= i < |s.runs| ==> ReadsMatch(s, s.runs[i])
  }

  /** In an orderly state the calldata key reads the record of the nullifier key, or nothing. */
  lemma CalldataReadsPaired(of: NullifierOf, s: State, request: Request)
    requires OrderlyInv(of, s) && Determined(of, request)
    ensures var own, n := Read(s.entries, s.now, CalldataKeyOf(request)), NullifierKeyOf(request);
      own.Some? ==> own.value.request == request && n in s.entries && s.entries[n].record == own.value
  {
    var c, n := CalldataKeyOf(request), NullifierKeyOf(request);
    if c in s.entries && s.now < s.entries[c].expiresAt {
      assert Determined(of, s.entries[c].record.request) && HeldOrExpired(s, s.entries[c]);
      assert s.entries[c].record.request == request;
      assert s.entries[n].record.request == request;
    }
  }

  lemma PlainKeepsReads(of: NullifierOf, s: State, step: Step)
    requires OrderlyInv(of, s) && AllReadsMatch(s) && OrderlyEnabled(s, Plain(step))
    ensures AllReadsMatch(Next(s, step))
  {
    var s' := Next(s, step);
    forall k | 0 <= k < |s'.runs|
      ensures ReadsMatch(s', s'.runs[k])
    {
      if k < |s.runs| {
        assert ReadsMatch(s, s.runs[k]);
        CalldataReadsPaired(of, s, s.runs[k].request);
      }
    }
  }

  /** While one run's writes land, no other run is reading. */
  lemma LandBothKeepsReads(s: State, i: nat)
    requires Inv(s) && OrderlyEnabled(s, LandBoth(i))
    ensures AllReadsMatch(LandTwice(s, i))
  {
    LandTwiceIsPairWritten(s, i);
    OnlyOneActive(s, i);
    var s' := LandTwice(s, i);
    forall k | 0 <= k < |s'.runs|
      ensures !s'.runs[k].stage.Reading?
    {
    }
  }

  lemma {:induction false} OrderlyRunKeepsReads(of: NullifierOf, s: State, steps: seq<OrderlyStep>)
    requires OrderlyInv(of, s) && AllReadsMatch(s) && IsOrderly(s, steps) && WellFormed(of, steps)
    ensures AllReadsMatch(OrderlyFinal(s, steps))
    decreases |steps|
  {
    if steps != [] {
      match steps[0] {
        case Plain(step) =>
          PlainKeepsReads(of, s, step);
          PlainKeeps(of, s, step);
        case LandBoth(i) =>
          LandBothKeepsReads(s, i);
          LandBothKeeps(of, s, i);
      }
      assert forall k :: 0 <= k < |steps[1..]| ==> steps[1..][k] == steps[k + 1];
      OrderlyRunKeepsReads(of, OrderlyNext(s, steps[0]), steps[1..]);
    }
  }

  /** In every orderly run, for the time to live of a send's pending record, the handler of a request for its
      nullifier settles: with conflict for other calldata, and for the same calldata with pending or a replay of
      that send's transaction hash. */
  lemma OrderlyReplies(of: NullifierOf, now: int, steps: seq<OrderlyStep>, a: nat, i: nat)
    requires IsOrderly(Initial(now), steps) && WellFormed(of, steps)
    requires var s := OrderlyFinal(Initial(now), steps);
      && a < |s.sends| && HasRead(s, i) && s.now < s.sends[a].landedAt + TTL_SECONDS
      && NullifierKeyOf(s.sends[a].request) == NullifierKeyOf(s.runs[i].request)
    ensures var s := OrderlyFinal(Initial(now), steps);
      var send, stage := s.sends[a], Next(s, DecideRun(i)).runs[i].stage;
      if s.runs[i].request.calldataHash != send.request.calldataHash then stage == Settled(RefusedConflict)
      else
        || stage == Settled(RefusedPending)
        || stage == Settled(Replayed(SubmittedRecord(s.runs[i].request, send.txHash)))
  {
    OrderlyRunKeeps(of, Initial(now), steps);
    OrderlyRunKeepsReads(of, Initial(now), steps);
    var s := OrderlyFinal(Initial(now), steps);
    var n := NullifierKeyOf(s.runs[i].request);
    assert KeptUntil(s, n, s.sends[a].landedAt + TTL_SECONDS);
    assert s.entries[n].record.request == s.sends[a].request;
    assert ReadsMatch(s, s.runs[i]);
    assert s.runs[i].stage.nullifierRead == Some(Some(s.entries[n].record));
  }
}
