/** The relayer's queue as a state machine over an expiring store and a clock.

    Each request becomes a run chained behind the previous one, as the promise queue chains them.
    A run reads both records, writes its pending record under both keys, sends, and writes its
    submitted record. Any step may fail. The two writes of a record travel separately: each may
    land at any time, also after its run has failed, or never.
    Models RelayerNonceQueue and handleRelayRequest of services/relayer-worker/src/index.ts. */
module RelayerQueue {
  import opened Wrappers
  import opened RelayIdempotency

  datatype Answer =
    | Sent(txHash: Hex)
    | Replayed(record: RelayRecord)
    | RefusedPending
    | RefusedConflict
    | Failed

  /** How far a run has come. `readAt` is when it read the nullifier key; `landedN` and `landedC`
      are when its pending writes landed. */
  datatype Stage =
    | Queued
    | Checking
    | Reading(nullifierRead: Option<Option<RelayRecord>>, calldataRead: Option<Option<RelayRecord>>, readAt: int)
    | Cleared(readAt: int)
    | WritingPending(readAt: int, landedN: Option<int>, landedC: Option<int>)
    | Sending(readAt: int, landedAt: int)
    | WritingSubmitted(txHash: Hex, gotN: bool, gotC: bool)
    | Settled(answer: Answer)

  datatype Run = Run(request: Request, stage: Stage)

  datatype Write = Write(run: nat, key: Key, record: RelayRecord)

  /** A broadcast transaction, with when its run read the nullifier key absent and when its pending
      record landed there. */
  datatype Send = Send(request: Request, txHash: Hex, readAt: int, landedAt: int)

  datatype State = State(now: int, entries: map<Key, Entry>, runs: seq<Run>, inFlight: set<Write>, sends: seq<Send>)

  datatype Step =
    | Tick(time: int)
    | Arrive(request: Request)
    | Start(i: nat)
    | PassChecks(i: nat)
    | ReadNullifier(i: nat)
    | ReadCalldata(i: nat)
    | DecideRun(i: nat)
    | IssuePending(i: nat)
    | AckPending(i: nat)
    | Broadcast(i: nat, txHash: Hex, reported: bool)
    | AckSubmitted(i: nat)
    | Fail(i: nat)
    | Land(write: Write)
    | Lose(write: Write)

  function Initial(now: int): State {
    State(now, map[], [], {}, [])
  }

  predicate IsActive(stage: Stage) {
    !stage.Queued? && !stage.Settled?
  }

  predicate Enabled(s: State, step: Step) {
    match step
    case Tick(time) => s.now <= time
    case Arrive(_) => true
    case Land(write) => write in s.inFlight && write.run < |s.runs|
    case Lose(write) => write in s.inFlight
    case Start(i) => i < |s.runs| && s.runs[i].stage.Queued? && (i > 0 ==> s.runs[i - 1].stage.Settled?)
    case PassChecks(i) => i < |s.runs| && s.runs[i].stage.Checking?
    case ReadNullifier(i) => i < |s.runs| && s.runs[i].stage.Reading? && s.runs[i].stage.nullifierRead.None?
    case ReadCalldata(i) => i < |s.runs| && s.runs[i].stage.Reading? && s.runs[i].stage.calldataRead.None?
    case DecideRun(i) =>
      && i < |s.runs| && s.runs[i].stage.Reading?
      && s.runs[i].stage.nullifierRead.Some? && s.runs[i].stage.calldataRead.Some?
    case IssuePending(i) => i < |s.runs| && s.runs[i].stage.Cleared?
    case AckPending(i) =>
      && i < |s.runs| && s.runs[i].stage.WritingPending?
      && s.runs[i].stage.landedN.Some? && s.runs[i].stage.landedC.Some?
    case Broadcast(i, _, _) => i < |s.runs| && s.runs[i].stage.Sending?
    case AckSubmitted(i) =>
      i < |s.runs| && s.runs[i].stage.WritingSubmitted? && s.runs[i].stage.gotN && s.runs[i].stage.gotC
    case Fail(i) => i < |s.runs| && IsActive(s.runs[i].stage)
  }

  function At(s: State, i: nat, stage: Stage): State
    requires i < |s.runs|
  {
    s.(runs := s.runs[i := s.runs[i].(stage := stage)])
  }

  /** The answer, or the way on, that a decision gives. */
  function AfterDecision(decision: Decision, readAt: int): Stage {
    match decision
    case Ready => Cleared(readAt)
    case AlreadyPending(_) => Settled(RefusedPending)
    case AlreadySubmitted(record) => Settled(Replayed(record))
    case Conflict => Settled(RefusedConflict)
  }

  function BothWrites(i: nat, record: RelayRecord): set<Write> {
    {Write(i, NullifierKeyOf(record.request), record), Write(i, CalldataKeyOf(record.request), record)}
  }

  /** The stage of a run that is told one of its writes has landed. */
  function Acknowledged(stage: Stage, write: Write, now: int): Stage {
    if stage.WritingPending? && write.record.status.Pending? then
      if write.key.NullifierKey? then stage.(landedN := Some(now)) else stage.(landedC := Some(now))
    else if stage.WritingSubmitted? && write.record.status.Submitted? then
      if write.key.NullifierKey? then stage.(gotN := true) else stage.(gotC := true)
    else stage
  }

  function Next(s: State, step: Step): State
    requires Enabled(s, step)
  {
    match step
    case Tick(time) => s.(now := time)
    case Arrive(request) => s.(runs := s.runs + [Run(request, Queued)])
    case Start(i) => At(s, i, Checking)
    case PassChecks(i) => At(s, i, Reading(None, None, s.now))
    case ReadNullifier(i) =>
      var read := Read(s.entries, s.now, NullifierKeyOf(s.runs[i].request));
      At(s, i, s.runs[i].stage.(nullifierRead := Some(read), readAt := s.now))
    case ReadCalldata(i) =>
      At(s, i, s.runs[i].stage.(calldataRead := Some(Read(s.entries, s.now, CalldataKeyOf(s.runs[i].request)))))
    case DecideRun(i) =>
      var stage := s.runs[i].stage;
      At(s, i, AfterDecision(Decide(s.runs[i].request, stage.nullifierRead.value, stage.calldataRead.value), stage.readAt))
    case IssuePending(i) =>
      At(s, i, WritingPending(s.runs[i].stage.readAt, None, None))
        .(inFlight := s.inFlight + BothWrites(i, PendingRecord(s.runs[i].request)))
    case AckPending(i) => At(s, i, Sending(s.runs[i].stage.readAt, s.runs[i].stage.landedN.value))
    case Broadcast(i, txHash, reported) =>
      var request, stage := s.runs[i].request, s.runs[i].stage;
      var s' := s.(sends := s.sends + [Send(request, txHash, stage.readAt, stage.landedAt)]);
      if reported then
        At(s', i, WritingSubmitted(txHash, false, false))
          .(inFlight := s.inFlight + BothWrites(i, SubmittedRecord(request, txHash)))
      else At(s', i, Settled(Failed))
    case AckSubmitted(i) => At(s, i, Settled(Sent(s.runs[i].stage.txHash)))
    case Fail(i) => At(s, i, Settled(Failed))
    case Land(write) =>
      At(s, write.run, Acknowledged(s.runs[write.run].stage, write, s.now))
        .(entries := Put(s.entries, s.now, write.key, write.record), inFlight := s.inFlight - {write})
    case Lose(write) => s.(inFlight := s.inFlight - {write})
  }

  ghost predicate IsRun(s: State, steps: seq<Step>)
    decreases |steps|
  {
    steps == [] || (Enabled(s, steps[0]) && IsRun(Next(s, steps[0]), steps[1..]))
  }

  ghost function Final(s: State, steps: seq<Step>): State
    requires IsRun(s, steps)
    decreases |steps|
  {
    if steps == [] then s else Final(Next(s, steps[0]), steps[1..])
  }

  // What every step keeps.

  /** The queue is serial: when a run has started, all runs before it have settled. */
  ghost predicate Serial(s: State) {
    forall i, j :: 0 <= i < j < |s.runs| && !s.runs[j].stage.Queued? ==> s.runs[i].stage.Settled?
  }

  /** No entry outlives a write made now. */
  ghost predicate Bounded(s: State) {
    forall k :: k in s.entries ==> s.entries[k].expiresAt <= s.now + TTL_SECONDS
  }

  /** A key whose record stays at least until a time. */
  ghost predicate KeptUntil(s: State, key: Key, time: int) {
    key in s.entries && time <= s.entries[key].expiresAt
  }

  /** The nullifier key of every send keeps a record for the time to live after its pending record. */
  ghost predicate SendsKept(s: State) {
    forall a :: 0 <= a < |s.sends| ==>
      KeptUntil(s, NullifierKeyOf(s.sends[a].request), s.sends[a].landedAt + TTL_SECONDS)
  }

  /** Every send for a request's nullifier had expired at a time. */
  ghost predicate SendsExpired(s: State, request: Request, time: int) {
    forall a :: 0 <= a < |s.sends| && NullifierKeyOf(s.sends[a].request) == NullifierKeyOf(request) ==>
      s.sends[a].landedAt + TTL_SECONDS <= time
  }

  /** What a run's stage knows about the store and the sends. */
  ghost predicate StageHolds(s: State, run: Run) {
    match run.stage
    case Reading(nullifierRead, _, readAt) => nullifierRead == Some(None) ==> SendsExpired(s, run.request, readAt)
    case Cleared(readAt) => SendsExpired(s, run.request, readAt)
    case WritingPending(readAt, landedN, _) =>
      && SendsExpired(s, run.request, readAt)
      && (landedN.Some? ==> KeptUntil(s, NullifierKeyOf(run.request), landedN.value + TTL_SECONDS))
    case Sending(readAt, landedAt) =>
      && SendsExpired(s, run.request, readAt)
      && KeptUntil(s, NullifierKeyOf(run.request), landedAt + TTL_SECONDS)
    case _ => true
  }

  ghost predicate StagesHold(s: State) {
    forall i :: 0 <= i < |s.runs| ==> StageHolds(s, s.runs[i])
  }

  /** Two sends for one nullifier: the later run read the key after the earlier record's time. */
  ghost predicate Spaced(s: State) {
    forall a, b :: 0 <= a < b < |s.sends| && NullifierKeyOf(s.sends[a].request) == NullifierKeyOf(s.sends[b].request) ==>
      s.sends[a].landedAt + TTL_SECONDS <= s.sends[b].readAt
  }

  /** A write under way is for the keys of the run that issued it. */
  ghost predicate WritesMatch(s: State) {
    forall w :: w in s.inFlight ==>
      && w.run < |s.runs| && w.record.request == s.runs[w.run].request
      && (w.key == NullifierKeyOf(w.record.request) || w.key == CalldataKeyOf(w.record.request))
  }

  ghost predicate Inv(s: State) {
    Serial(s) && Bounded(s) && SendsKept(s) && StagesHold(s) && Spaced(s) && WritesMatch(s)
  }

  /** Moving one run on keeps everything, when its new stage holds. */
  lemma MoveKeepsInv(s: State, i: nat, stage: Stage)
    requires Inv(s) && i < |s.runs| && !s.runs[i].stage.Settled? && !stage.Queued?
    requires forall j :: 0 <= j < i ==> s.runs[j].stage.Settled?
    requires StageHolds(s, Run(s.runs[i].request, stage))
    ensures Inv(At(s, i, stage))
  {
  }

  /** The runs before an active run have settled, and those after it are still queued. */
  lemma OnlyOneActive(s: State, i: nat)
    requires Serial(s) && i < |s.runs| && IsActive(s.runs[i].stage)
    ensures forall j :: 0 <= j < i ==> s.runs[j].stage.Settled?
    ensures forall j :: i < j < |s.runs| ==> s.runs[j].stage.Queued?
  {
  }

  /** Reading the nullifier key and finding nothing means that every earlier record has expired. */
  lemma ReadNothingMeansExpired(s: State, request: Request)
    requires Inv(s) && Read(s.entries, s.now, NullifierKeyOf(request)).None?
    ensures SendsExpired(s, request, s.now)
  {
  }

  lemma LandKeepsInv(s: State, w: Write)
    requires Inv(s) && Enabled(s, Land(w))
    ensures Inv(Next(s, Land(w)))
  {
  }

  lemma BroadcastKeepsInv(s: State, i: nat, txHash: Hex, reported: bool)
    requires Inv(s) && Enabled(s, Broadcast(i, txHash, reported))
    ensures Inv(Next(s, Broadcast(i, txHash, reported)))
  {
  }

  lemma IssueKeepsInv(s: State, i: nat)
    requires Inv(s) && Enabled(s, IssuePending(i))
    ensures Inv(Next(s, IssuePending(i)))
  {
  }

  /** Arrivals, the clock and lost writes touch no run and shorten no entry. */
  lemma EnvironmentKeepsInv(s: State, step: Step)
    requires Inv(s) && Enabled(s, step) && (step.Tick? || step.Arrive? || step.Lose?)
    ensures Inv(Next(s, step))
  {
  }

  /** The runs before one that may start have all settled. */
  lemma BeforeStart(s: State, i: nat)
    requires Serial(s) && Enabled(s, Start(i))
    ensures forall j :: 0 <= j < i ==> s.runs[j].stage.Settled?
  {
  }

  lemma NextKeepsInv(s: State, step: Step)
    requires Inv(s) && Enabled(s, step)
    ensures Inv(Next(s, step))
  {
    match step
    case Tick(_) => EnvironmentKeepsInv(s, step);
    case Arrive(_) => EnvironmentKeepsInv(s, step);
    case Lose(_) => EnvironmentKeepsInv(s, step);
    case Land(w) => LandKeepsInv(s, w);
    case Broadcast(i, txHash, reported) => BroadcastKeepsInv(s, i, txHash, reported);
    case IssuePending(i) => IssueKeepsInv(s, i);
    case Start(i) =>
      BeforeStart(s, i);
      MoveKeepsInv(s, i, Checking);
    case PassChecks(i) =>
      OnlyOneActive(s, i);
      MoveKeepsInv(s, i, Reading(None, None, s.now));
    case ReadNullifier(i) =>
      OnlyOneActive(s, i);
      var read := Read(s.entries, s.now, NullifierKeyOf(s.runs[i].request));
      if read.None? {
        ReadNothingMeansExpired(s, s.runs[i].request);
      }
      MoveKeepsInv(s, i, s.runs[i].stage.(nullifierRead := Some(read), readAt := s.now));
    case ReadCalldata(i) =>
      OnlyOneActive(s, i);
      assert StageHolds(s, s.runs[i]);
      var read := Read(s.entries, s.now, CalldataKeyOf(s.runs[i].request));
      MoveKeepsInv(s, i, s.runs[i].stage.(calldataRead := Some(read)));
    case DecideRun(i) =>
      OnlyOneActive(s, i);
      assert StageHolds(s, s.runs[i]);
      var stage := s.runs[i].stage;
      var decision := Decide(s.runs[i].request, stage.nullifierRead.value, stage.calldataRead.value);
      MoveKeepsInv(s, i, AfterDecision(decision, stage.readAt));
    case AckPending(i) =>
      OnlyOneActive(s, i);
      assert StageHolds(s, s.runs[i]);
      MoveKeepsInv(s, i, Sending(s.runs[i].stage.readAt, s.runs[i].stage.landedN.value));
    case AckSubmitted(i) =>
      OnlyOneActive(s, i);
      MoveKeepsInv(s, i, Settled(Sent(s.runs[i].stage.txHash)));
    case Fail(i) =>
      OnlyOneActive(s, i);
      MoveKeepsInv(s, i, Settled(Failed));
  }

  lemma {:induction false} RunKeepsInv(s: State, steps: seq<Step>)
    requires Inv(s) && IsRun(s, steps)
    ensures Inv(Final(s, steps))
    decreases |steps|
  {
    if steps != [] {
      NextKeepsInv(s, steps[0]);
      RunKeepsInv(Next(s, steps[0]), steps[1..]);
    }
  }

  /** Runs extend step by step. */
  lemma {:induction false} ExtendRun(s: State, steps: seq<Step>, step: Step)
    requires IsRun(s, steps) && Enabled(Final(s, steps), step)
    ensures IsRun(s, steps + [step]) && Final(s, steps + [step]) == Next(Final(s, steps), step)
    decreases |steps|
  {
    if steps == [] {
      assert (steps + [step])[1..] == [];
    } else {
      ExtendRun(Next(s, steps[0]), steps[1..], step);
      assert (steps + [step])[1..] == steps[1..] + [step];
    }
  }

  ghost predicate NoOverlap(s: State) {
    forall i, j :: 0 <= i < j < |s.runs| ==> !(IsActive(s.runs[i].stage) && IsActive(s.runs[j].stage))
  }

  /** Safety over every run, with any step failing and any write lost or late: handlers never
      overlap, and a second send for the same chain, pool and nullifier comes only from a handler
      that read the nullifier key after the first send's pending record had run out. */
  lemma SecondSendOnlyAfterExpiry(now: int, steps: seq<Step>)
    requires IsRun(Initial(now), steps)
    ensures Spaced(Final(Initial(now), steps))
    ensures NoOverlap(Final(Initial(now), steps))
  {
    RunKeepsInv(Initial(now), steps);
  }

  function DecideIn(s: State, request: Request): Decision {
    DecideAt(s.entries, s.now, request)
  }
}
