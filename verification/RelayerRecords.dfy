/** What the stored records are in every run, and what a request is then told: the exact conditions for
    conflict and for the promised answer to the same calldata.
    About prepareRelayIdempotency of services/relay/src/idempotency.ts under the queue of
    services/relayer-worker/src/index.ts. */
module RelayerRecords {
  import opened Wrappers
  import opened RelayIdempotency
  import opened RelayerQueue

  /** The record is pending, or submitted with the hash of a broadcast send of its request. */
  ghost predicate IsKnown(s: State, record: RelayRecord) {
    record == PendingRecord(record.request) || exists b :: 0 <= b < |s.sends| && IsRecordOf(s.sends[b], record)
  }

  predicate IsRecordOf(send: Send, record: RelayRecord) {
    record == SubmittedRecord(send.request, send.txHash)
  }

  predicate IsUnderOwnKey(key: Key, record: RelayRecord) {
    key == NullifierKeyOf(record.request) || key == CalldataKeyOf(record.request)
  }

  /** Every record that is stored or under way is known, and stands under one of its own keys. */
  ghost predicate RecordsKnown(s: State) {
    && (forall k :: k in s.entries ==> IsKnown(s, s.entries[k].record) && IsUnderOwnKey(k, s.entries[k].record))
    && (forall w :: w in s.inFlight ==> IsKnown(s, w.record) && IsUnderOwnKey(w.key, w.record))
  }

  lemma StaysKnown(s: State, s': State, record: RelayRecord)
    requires IsKnown(s, record) && s.sends <= s'.sends
    ensures IsKnown(s', record)
  {
  }

  lemma BroadcastKeepsRecords(s: State, i: nat, txHash: Hex, reported: bool)
    requires RecordsKnown(s) && Enabled(s, Broadcast(i, txHash, reported))
    ensures RecordsKnown(Next(s, Broadcast(i, txHash, reported)))
  {
    var s' := Next(s, Broadcast(i, txHash, reported));
    assert IsRecordOf(s'.sends[|s.sends|], SubmittedRecord(s.runs[i].request, txHash));
    forall record | IsKnown(s, record)
      ensures IsKnown(s', record)
    {
      StaysKnown(s, s', record);
    }
  }

  lemma NextKeepsRecords(s: State, step: Step)
    requires RecordsKnown(s) && Enabled(s, step)
    ensures RecordsKnown(Next(s, step))
  {
    if step.Broadcast? {
      BroadcastKeepsRecords(s, step.i, step.txHash, step.reported);
    } else {
      assert Next(s, step).sends == s.sends;
    }
  }

  /** In every run each stored transaction hash is that of a broadcast send of the record's request. */
  lemma {:induction false} RunKeepsRecords(s: State, steps: seq<Step>)
    requires RecordsKnown(s) && IsRun(s, steps)
    ensures RecordsKnown(Final(s, steps))
    decreases |steps|
  {
    if steps != [] {
      NextKeepsRecords(s, steps[0]);
      RunKeepsRecords(Next(s, steps[0]), steps[1..]);
    }
  }

  /** So whatever hash a request is answered with was broadcast, for the request of the record. */
  lemma ReplayedHashWasSent(now: int, steps: seq<Step>, request: Request)
    requires IsRun(Initial(now), steps) && DecideIn(Final(Initial(now), steps), request).AlreadySubmitted?
    ensures var s := Final(Initial(now), steps);
      exists b :: 0 <= b < |s.sends| && IsRecordOf(s.sends[b], DecideIn(s, request).record)
  {
    RunKeepsRecords(Initial(now), steps);
  }

  /** A record stands under a request's nullifier key. */
  predicate HoldsNullifier(s: State, request: Request) {
    Read(s.entries, s.now, NullifierKeyOf(request)).Some?
  }

  /** While the time to live of a send's pending record runs, its nullifier key holds a record. */
  lemma SendHoldsNullifier(now: int, steps: seq<Step>, a: nat)
    requires IsRun(Initial(now), steps) && a < |Final(Initial(now), steps).sends|
    requires var s := Final(Initial(now), steps); s.now < s.sends[a].landedAt + TTL_SECONDS
    ensures var s := Final(Initial(now), steps); HoldsNullifier(s, s.sends[a].request)
  {
    RunKeepsInv(Initial(now), steps);
    var s := Final(Initial(now), steps);
    assert KeptUntil(s, NullifierKeyOf(s.sends[a].request), s.sends[a].landedAt + TTL_SECONDS);
  }

  /** A send's record lives: its pending record's time to live runs, or its nullifier key holds some record. */
  predicate Lives(s: State, send: Send) {
    s.now < send.landedAt + TTL_SECONDS || HoldsNullifier(s, send.request)
  }

  /** In every run, while a send's record lives, no request for its nullifier is let through by a decision on
      the records as they stand. */
  lemma RecordedNullifierIsNeverReady(now: int, steps: seq<Step>, a: nat, request: Request)
    requires IsRun(Initial(now), steps) && a < |Final(Initial(now), steps).sends|
    requires var s := Final(Initial(now), steps);
      NullifierKeyOf(s.sends[a].request) == NullifierKeyOf(request) && Lives(s, s.sends[a])
    ensures DecideIn(Final(Initial(now), steps), request) != Ready
  {
    if Final(Initial(now), steps).now < Final(Initial(now), steps).sends[a].landedAt + TTL_SECONDS {
      SendHoldsNullifier(now, steps, a);
    }
  }

  /** In every run, with any step failing and any write lost or late: while a send's record lives, the
      nullifier key holds a record of that nullifier, and a request gets conflict exactly when that record is
      of other calldata and no live record stands under the request's calldata key. */
  lemma ConflictIffOnlyOtherCalldata(now: int, steps: seq<Step>, a: nat, request: Request)
    requires IsRun(Initial(now), steps) && a < |Final(Initial(now), steps).sends|
    requires var s := Final(Initial(now), steps);
      NullifierKeyOf(s.sends[a].request) == NullifierKeyOf(request) && Lives(s, s.sends[a])
    ensures var s := Final(Initial(now), steps);
      var held := Read(s.entries, s.now, NullifierKeyOf(request));
      && held.Some? && NullifierKeyOf(held.value.request) == NullifierKeyOf(request)
      && (DecideIn(s, request) == Conflict <==>
          && held.value.request.calldataHash != request.calldataHash
          && Read(s.entries, s.now, CalldataKeyOf(request)).None?)
  {
    var s := Final(Initial(now), steps);
    RunKeepsRecords(Initial(now), steps);
    if s.now < s.sends[a].landedAt + TTL_SECONDS {
      SendHoldsNullifier(now, steps, a);
    }
  }

  /** The record that answers a request: the one under its calldata key, or else its nullifier's. */
  function Answering(s: State, request: Request): Option<RelayRecord> {
    var own := Read(s.entries, s.now, CalldataKeyOf(request));
    if own.Some? then own else Read(s.entries, s.now, NullifierKeyOf(request))
  }

  /** The answer promised to a send's own calldata: pending, or that send's transaction hash. */
  predicate IsPromised(send: Send, decision: Decision) {
    || decision == AlreadyPending(PendingRecord(send.request))
    || decision == AlreadySubmitted(SubmittedRecord(send.request, send.txHash))
  }

  /** In every run, while a send's record lives, its own calldata gets the promised answer exactly when the
      record that answers is of that request, and is pending or carries that send's hash. */
  lemma SameCalldataAnswersIff(now: int, steps: seq<Step>, a: nat)
    requires IsRun(Initial(now), steps) && a < |Final(Initial(now), steps).sends|
    requires var s := Final(Initial(now), steps); Lives(s, s.sends[a])
    ensures var s := Final(Initial(now), steps);
      var send := s.sends[a];
      var answering := Answering(s, send.request);
      && answering.Some?
      && (IsPromised(send, DecideIn(s, send.request)) <==>
          && answering.value.request == send.request
          && (answering.value.status.Pending? || answering.value.txHash == Some(send.txHash)))
  {
    var s := Final(Initial(now), steps);
    RunKeepsRecords(Initial(now), steps);
    if s.now < s.sends[a].landedAt + TTL_SECONDS {
      SendHoldsNullifier(now, steps, a);
    }
  }
}
