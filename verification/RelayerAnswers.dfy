/** What a second request is told while a send's record lives, in orderly runs.

    When the two writes of a record land together and before their run is given up, other calldata
    always gets conflict, and the same calldata gets pending or the stored transaction hash.
    RelayerRecords says what holds in every run, and RelayerRuns shows how both can fail. */
module RelayerAnswers {
  import opened Wrappers
  import opened RelayIdempotency
  import opened RelayerQueue

  /** A step of an orderly run: no write lands alone, late or is lost. */
  datatype OrderlyStep = Plain(step: Step) | LandBoth(i: nat)

  /** The record a waiting run has under way. */
  function AwaitedRecord(run: Run): RelayRecord {
    if run.stage.WritingSubmitted? then SubmittedRecord(run.request, run.stage.txHash) else PendingRecord(run.request)
  }

  predicate OrderlyEnabled(s: State, o: OrderlyStep) {
    match o
    case Plain(step) => !step.Land? && !step.Lose? && Enabled(s, step)
    case LandBoth(i) =>
      && i < |s.runs| && (s.runs[i].stage.WritingPending? || s.runs[i].stage.WritingSubmitted?)
      && BothWrites(i, AwaitedRecord(s.runs[i])) <= s.inFlight
  }

  /** Both landings, one right after the other. */
  function LandTwice(s: State, i: nat): State
    requires OrderlyEnabled(s, LandBoth(i))
  {
    var record := AwaitedRecord(s.runs[i]);
    var first, second := Write(i, NullifierKeyOf(record.request), record), Write(i, CalldataKeyOf(record.request), record);
    assert first in BothWrites(i, record) && second in BothWrites(i, record);
    Next(Next(s, Land(first)), Land(second))
  }

  function OrderlyNext(s: State, o: OrderlyStep): State
    requires OrderlyEnabled(s, o)
  {
    match o
    case Plain(step) => Next(s, step)
    case LandBoth(i) => LandTwice(s, i)
  }

  ghost predicate IsOrderly(s: State, steps: seq<OrderlyStep>)
    decreases |steps|
  {
    steps == [] || (OrderlyEnabled(s, steps[0]) && IsOrderly(OrderlyNext(s, steps[0]), steps[1..]))
  }

  ghost function OrderlyFinal(s: State, steps: seq<OrderlyStep>): State
    requires IsOrderly(s, steps)
    decreases |steps|
  {
    if steps == [] then s else OrderlyFinal(OrderlyNext(s, steps[0]), steps[1..])
  }

  /** Calldata carries its nullifier: the hash determines it. */
  type NullifierOf = (nat, Hex, Hex) -> Hex

  predicate Determined(of: NullifierOf, r: Request) {
    r.nullifier == of(r.chainId, r.pool, r.calldataHash)
  }

  /** Every request that arrives in a run carries the nullifier of its calldata. */
  ghost predicate WellFormed(of: NullifierOf, steps: seq<OrderlyStep>) {
    forall k :: 0 <= k < |steps| && steps[k].Plain? && steps[k].step.Arrive? ==> Determined(of, steps[k].step.request)
  }

  ghost predicate RequestsDetermined(of: NullifierOf, s: State) {
    && (forall i :: 0 <= i < |s.runs| ==> Determined(of, s.runs[i].request))
    && (forall k :: k in s.entries ==> Determined(of, s.entries[k].record.request))
  }

  /** Entries come in pairs: a nullifier key's entry also stands under its calldata key; another
      calldata key of the same nullifier has expired. */
  ghost predicate Paired(s: State) {
    && (forall k :: k in s.entries && k.NullifierKey? ==>
          var e := s.entries[k];
          k == NullifierKeyOf(e.record.request)
          && CalldataKeyOf(e.record.request) in s.entries && s.entries[CalldataKeyOf(e.record.request)] == e)
    && (forall k :: k in s.entries && k.CalldataKey? ==>
          k == CalldataKeyOf(s.entries[k].record.request) && HeldOrExpired(s, s.entries[k]))
  }

  ghost predicate HeldOrExpired(s: State, e: Entry) {
    var k := NullifierKeyOf(e.record.request);
    k in s.entries && (s.entries[k].record.request == e.record.request || e.expiresAt <= s.now)
  }

  /** The nullifier key of a request holds nothing live. */
  ghost predicate Vacant(s: State, request: Request) {
    var k := NullifierKeyOf(request);
    k in s.entries ==> s.entries[k].expiresAt <= s.now
  }

  /** The nullifier key of a request holds one of the given records. */
  ghost predicate Holds(s: State, request: Request, records: set<RelayRecord>) {
    NullifierKeyOf(request) in s.entries && s.entries[NullifierKeyOf(request)].record in records
  }

  /** What a stage knows about its nullifier key in an orderly run. */
  ghost predicate StageKnows(s: State, run: Run) {
    match run.stage
    case Reading(nullifierRead, _, readAt) => nullifierRead == Some(None) ==> readAt <= s.now && Vacant(s, run.request)
    case Cleared(readAt) => readAt <= s.now && Vacant(s, run.request)
    case WritingPending(readAt, landedN, _) =>
      && readAt <= s.now
      && if landedN.None? then Vacant(s, run.request) else Holds(s, run.request, {PendingRecord(run.request)})
    case Sending(readAt, _) => readAt <= s.now && Holds(s, run.request, {PendingRecord(run.request)})
    case WritingSubmitted(txHash, _, _) =>
      && Holds(s, run.request, {PendingRecord(run.request), SubmittedRecord(run.request, txHash)})
      && LatestSend(s, run.request, txHash)
    case _ => true
  }

  /** The last send is this one, and every earlier send for the nullifier has expired. */
  ghost predicate LatestSend(s: State, request: Request, txHash: Hex) {
    && s.sends != [] && s.sends[|s.sends| - 1].request == request && s.sends[|s.sends| - 1].txHash == txHash
    && forall a :: 0 <= a < |s.sends| - 1 && NullifierKeyOf(s.sends[a].request) == NullifierKeyOf(request) ==>
      s.sends[a].landedAt + TTL_SECONDS <= s.now
  }

  /** While a send's record lives, its nullifier key holds that send's pending or submitted record. */
  ghost predicate SendsHeld(s: State) {
    forall a :: 0 <= a < |s.sends| && s.now < s.sends[a].landedAt + TTL_SECONDS ==>
      var r := s.sends[a].request;
      Holds(s, r, {PendingRecord(r), SubmittedRecord(r, s.sends[a].txHash)})
  }

  ghost predicate StagesKnow(s: State) {
    forall i :: 0 <= i < |s.runs| ==> StageKnows(s, s.runs[i])
  }

  ghost predicate OrderlyInv(of: NullifierOf, s: State) {
    Inv(s) && RequestsDetermined(of, s) && Paired(s) && StagesKnow(s) && SendsHeld(s)
  }

  /** Moving the only active run on, with nothing else changed. */
  lemma MoveKeeps(of: NullifierOf, s: State, i: nat, stage: Stage)
    requires OrderlyInv(of, s) && i < |s.runs| && Inv(At(s, i, stage))
    requires StageKnows(s, Run(s.runs[i].request, stage))
    ensures OrderlyInv(of, At(s, i, stage))
  {
  }

  lemma SameView(s: State, s': State, run: Run)
    requires StageKnows(s, run) && s'.entries == s.entries && s'.sends == s.sends && s.now <= s'.now
    ensures StageKnows(s', run)
  {
  }

  /** The clock and arrivals. */
  lemma EnvironmentKeeps(of: NullifierOf, s: State, step: Step)
    requires OrderlyInv(of, s) && Enabled(s, step) && Inv(Next(s, step))
    requires step.Tick? || (step.Arrive? && Determined(of, step.request))
    ensures OrderlyInv(of, Next(s, step))
  {
    var s' := Next(s, step);
    forall k | 0 <= k < |s'.runs|
      ensures StageKnows(s', s'.runs[k])
    {
      if k < |s.runs| {
        assert StageKnows(s, s.runs[k]);
        SameView(s, s', s.runs[k]);
      }
    }
    assert Paired(s');
  }

  lemma IssueKeeps(of: NullifierOf, s: State, i: nat)
    requires OrderlyInv(of, s) && Enabled(s, IssuePending(i)) && Inv(Next(s, IssuePending(i)))
    ensures OrderlyInv(of, Next(s, IssuePending(i)))
  {
    var s' := Next(s, IssuePending(i));
    assert StageKnows(s, s.runs[i]);
    forall k | 0 <= k < |s'.runs|
      ensures StageKnows(s', s'.runs[k])
    {
      if k != i {
        assert StageKnows(s, s.runs[k]);
        SameView(s, s', s.runs[k]);
      }
    }
  }

  lemma BroadcastKeeps(of: NullifierOf, s: State, i: nat, txHash: Hex, reported: bool)
    requires OrderlyInv(of, s) && Enabled(s, Broadcast(i, txHash, reported))
    requires Inv(Next(s, Broadcast(i, txHash, reported)))
    ensures OrderlyInv(of, Next(s, Broadcast(i, txHash, reported)))
  {
    var s' := Next(s, Broadcast(i, txHash, reported));
    var run := s.runs[i];
    OnlyOneActive(s, i);
    assert StageKnows(s, run) && StageHolds(s, run);
    assert forall a :: 0 <= a < |s.sends| ==> s'.sends[a] == s.sends[a];
    assert LatestSend(s', run.request, txHash);
    forall k | 0 <= k < |s'.runs|
      ensures StageKnows(s', s'.runs[k])
    {
    }
    forall a | 0 <= a < |s'.sends| && s'.now < s'.sends[a].landedAt + TTL_SECONDS
      ensures var r := s'.sends[a].request; Holds(s', r, {PendingRecord(r), SubmittedRecord(r, s'.sends[a].txHash)})
    {
    }
  }

  /** What landing twice does to the state. */
  lemma LandTwiceIsPairWritten(s: State, i: nat)
    requires Inv(s) && OrderlyEnabled(s, LandBoth(i))
    ensures Inv(LandTwice(s, i))
    ensures var run, s' := s.runs[i], LandTwice(s, i);
      && PairWritten(s, s', run.request, AwaitedRecord(run))
      && |s'.runs| == |s.runs| && (forall k :: 0 <= k < |s.runs| && k != i ==> s'.runs[k] == s.runs[k])
      && s'.runs[i].request == run.request
      && s'.runs[i].stage == if run.stage.WritingPending?
                             then WritingPending(run.stage.readAt, Some(s.now), Some(s.now))
                             else WritingSubmitted(run.stage.txHash, true, true)
  {
    var run, record := s.runs[i], AwaitedRecord(s.runs[i]);
    var first, second := Write(i, NullifierKeyOf(run.request), record), Write(i, CalldataKeyOf(run.request), record);
    assert first in BothWrites(i, record) && second in BothWrites(i, record);
    LandKeepsInv(s, first);
    LandKeepsInv(Next(s, Land(first)), second);
  }

  /** Landing both writes of the active run's record. */
  lemma LandBothKeeps(of: NullifierOf, s: State, i: nat)
    requires OrderlyInv(of, s) && OrderlyEnabled(s, LandBoth(i))
    ensures OrderlyInv(of, LandTwice(s, i))
  {
    var run, s' := s.runs[i], LandTwice(s, i);
    LandTwiceIsPairWritten(s, i);
    OnlyOneActive(s, i);
    assert StageKnows(s, run) && StageHolds(s, run);
    PairKeepsPaired(of, s, s', run.request, AwaitedRecord(run));
    PairKeepsSends(s, s', run, AwaitedRecord(run));
    LandedStageKnows(s, s', i);
    OnlyActiveKnows(s', i);
  }

  lemma LandedStageKnows(s: State, s': State, i: nat)
    requires i < |s.runs| && |s'.runs| == |s.runs| && s'.runs[i].request == s.runs[i].request
    requires StageKnows(s, s.runs[i]) && PairWritten(s, s', s.runs[i].request, AwaitedRecord(s.runs[i]))
    requires var was := s.runs[i].stage;
      || (was.WritingPending? && s'.runs[i].stage == WritingPending(was.readAt, Some(s.now), Some(s.now)))
      || (was.WritingSubmitted? && s'.runs[i].stage == WritingSubmitted(was.txHash, true, true))
    ensures StageKnows(s', s'.runs[i])
  {
  }

  lemma OnlyActiveKnows(s: State, i: nat)
    requires Serial(s) && i < |s.runs| && IsActive(s.runs[i].stage) && StageKnows(s, s.runs[i])
    ensures StagesKnow(s)
  {
  }

  /** The store after a pair of writes. */
  ghost predicate PairWritten(s: State, s': State, request: Request, record: RelayRecord) {
    && s'.now == s.now && s'.sends == s.sends && record.request == request
    && s'.entries == Written(s.entries, s.now, record)
  }

  lemma PairKeepsPaired(of: NullifierOf, s: State, s': State, request: Request, record: RelayRecord)
    requires RequestsDetermined(of, s) && Paired(s) && Determined(of, request)
    requires PairWritten(s, s', request, record)
    requires Vacant(s, request) || s.entries[NullifierKeyOf(request)].record.request == request
    ensures Paired(s')
    ensures forall k :: k in s'.entries ==> Determined(of, s'.entries[k].record.request)
  {
    PairKeepsNullifierEntries(of, s, s', request, record);
    PairKeepsCalldataEntries(s, s', request, record);
  }

  lemma PairKeepsNullifierEntries(of: NullifierOf, s: State, s': State, request: Request, record: RelayRecord)
    requires RequestsDetermined(of, s) && Paired(s) && Determined(of, request)
    requires PairWritten(s, s', request, record)
    ensures forall k :: k in s'.entries && k.NullifierKey? ==>
      var e := s'.entries[k];
      k == NullifierKeyOf(e.record.request)
      && CalldataKeyOf(e.record.request) in s'.entries && s'.entries[CalldataKeyOf(e.record.request)] == e
  {
    forall k | k in s'.entries && k.NullifierKey? && k != NullifierKeyOf(request)
      ensures CalldataKeyOf(s.entries[k].record.request) != CalldataKeyOf(request)
    {
      assert Determined(of, s.entries[k].record.request);
    }
  }

  lemma PairKeepsCalldataEntries(s: State, s': State, request: Request, record: RelayRecord)
    requires Paired(s) && PairWritten(s, s', request, record)
    requires Vacant(s, request) || s.entries[NullifierKeyOf(request)].record.request == request
    ensures forall k :: k in s'.entries && k.CalldataKey? ==>
      k == CalldataKeyOf(s'.entries[k].record.request) && HeldOrExpired(s', s'.entries[k])
  {
    var n, c := NullifierKeyOf(request), CalldataKeyOf(request);
    forall k | k in s'.entries && k.CalldataKey? && k != c
      ensures k == CalldataKeyOf(s'.entries[k].record.request) && HeldOrExpired(s', s'.entries[k])
    {
      var e := s.entries[k];
      assert HeldOrExpired(s, e) && k == CalldataKeyOf(e.record.request);
      if NullifierKeyOf(e.record.request) == n && s.entries[n].record.request == e.record.request {
        assert s.entries[k] == s.entries[n];
      }
    }
  }

  lemma PairKeepsSends(s: State, s': State, run: Run, record: RelayRecord)
    requires SendsHeld(s) && PairWritten(s, s', run.request, record)
    requires StageKnows(s, run) && StageHolds(s, run) && record == AwaitedRecord(run)
    requires run.stage.WritingPending? || run.stage.WritingSubmitted?
    ensures SendsHeld(s')
  {
  }

  lemma PlainKeeps(of: NullifierOf, s: State, step: Step)
    requires OrderlyInv(of, s) && OrderlyEnabled(s, Plain(step))
    requires step.Arrive? ==> Determined(of, step.request)
    ensures OrderlyInv(of, Next(s, step))
  {
    NextKeepsInv(s, step);
    match step
    case Tick(_) => EnvironmentKeeps(of, s, step);
    case Arrive(_) => EnvironmentKeeps(of, s, step);
    case Broadcast(i, txHash, reported) => BroadcastKeeps(of, s, i, txHash, reported);
    case IssuePending(i) => IssueKeeps(of, s, i);
    case Start(i) => MoveKeeps(of, s, i, Checking);
    case PassChecks(i) => MoveKeeps(of, s, i, Reading(None, None, s.now));
    case Fail(i) => MoveKeeps(of, s, i, Settled(Failed));
    case AckSubmitted(i) => MoveKeeps(of, s, i, Settled(Sent(s.runs[i].stage.txHash)));
    case ReadNullifier(i) =>
      var read := Read(s.entries, s.now, NullifierKeyOf(s.runs[i].request));
      MoveKeeps(of, s, i, s.runs[i].stage.(nullifierRead := Some(read), readAt := s.now));
    case ReadCalldata(i) =>
      assert StageKnows(s, s.runs[i]);
      var read := Read(s.entries, s.now, CalldataKeyOf(s.runs[i].request));
      MoveKeeps(of, s, i, s.runs[i].stage.(calldataRead := Some(read)));
    case DecideRun(i) =>
      assert StageKnows(s, s.runs[i]);
      var stage := s.runs[i].stage;
      var decision := Decide(s.runs[i].request, stage.nullifierRead.value, stage.calldataRead.value);
      MoveKeeps(of, s, i, AfterDecision(decision, stage.readAt));
    case AckPending(i) =>
      assert StageKnows(s, s.runs[i]);
      MoveKeeps(of, s, i, Sending(s.runs[i].stage.readAt, s.runs[i].stage.landedN.value));
  }

  lemma {:induction false} OrderlyRunKeeps(of: NullifierOf, s: State, steps: seq<OrderlyStep>)
    requires OrderlyInv(of, s) && IsOrderly(s, steps) && WellFormed(of, steps)
    ensures OrderlyInv(of, OrderlyFinal(s, steps))
    decreases |steps|
  {
    if steps != [] {
      match steps[0] {
        case Plain(step) => PlainKeeps(of, s, step);
        case LandBoth(i) => LandBothKeeps(of, s, i);
      }
      assert forall k :: 0 <= k < |steps[1..]| ==> steps[1..][k] == steps[k + 1];
      OrderlyRunKeeps(of, OrderlyNext(s, steps[0]), steps[1..]);
    }
  }

  /** In every orderly run, while a send's record lives: a request with other calldata for its
      nullifier gets conflict, and the same calldata gets pending or this send's stored hash. */
  lemma AnswersWhileRecorded(of: NullifierOf, now: int, steps: seq<OrderlyStep>, a: nat, request: Request)
    requires IsOrderly(Initial(now), steps) && WellFormed(of, steps) && Determined(of, request)
    requires a < |OrderlyFinal(Initial(now), steps).sends|
    requires var s := OrderlyFinal(Initial(now), steps);
      NullifierKeyOf(s.sends[a].request) == NullifierKeyOf(request) && s.now < s.sends[a].landedAt + TTL_SECONDS
    ensures var s := OrderlyFinal(Initial(now), steps);
      request.calldataHash != s.sends[a].request.calldataHash ==> DecideIn(s, request) == Conflict
    ensures var s := OrderlyFinal(Initial(now), steps);
      request.calldataHash == s.sends[a].request.calldataHash ==>
        || DecideIn(s, request) == AlreadyPending(PendingRecord(request))
        || DecideIn(s, request) == AlreadySubmitted(SubmittedRecord(request, s.sends[a].txHash))
  {
    OrderlyRunKeeps(of, Initial(now), steps);
    var s := OrderlyFinal(Initial(now), steps);
    var n, c := NullifierKeyOf(request), CalldataKeyOf(request);
    assert KeptUntil(s, n, s.sends[a].landedAt + TTL_SECONDS);
    assert s.entries[n].record.request == s.sends[a].request;
    if request.calldataHash == s.sends[a].request.calldataHash {
      assert request == s.sends[a].request && s.entries[c] == s.entries[n];
    } else if c in s.entries {
      assert Determined(of, s.entries[c].record.request);
      assert HeldOrExpired(s, s.entries[c]);
    }
  }
}
