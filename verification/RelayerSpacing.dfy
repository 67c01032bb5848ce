/** How far apart the sends for one nullifier are, for every record that lands: pending or submitted, in
    time or late. About RelayerNonceQueue and handleRelayRequest of services/relayer-worker/src/index.ts. */
module RelayerSpacing {
  import opened Wrappers
  import opened RelayIdempotency
  import opened RelayerQueue

  /** A run that has read its nullifier key and found nothing, and may go on to send. */
  predicate HasReadNothing(stage: Stage) {
    || (stage.Reading? && stage.nullifierRead == Some(None))
    || stage.Cleared? || stage.WritingPending? || stage.Sending?
  }

  ghost predicate ReadsArePast(s: State) {
    forall i :: 0 <= i < |s.runs| && HasReadNothing(s.runs[i].stage) ==> s.runs[i].stage.readAt <= s.now
  }

  /** No run is about to send on having read this key. */
  ghost predicate NoReader(s: State, key: Key) {
    forall i :: 0 <= i < |s.runs| && NullifierKeyOf(s.runs[i].request) == key ==> !HasReadNothing(s.runs[i].stage)
  }

  /** A read that came by an earlier time, if there is one, or not before a later time. */
  predicate Apart(readAt: int, early: Option<int>, late: int) {
    late <= readAt || (early.Some? && readAt <= early.value)
  }

  /** The key keeps a record until the later time, and every run that may send and every send from one on
      read it apart from the time between. */
  ghost predicate KeptApart(s: State, key: Key, early: Option<int>, late: int, from: nat) {
    && KeptUntil(s, key, late)
    && (forall i :: 0 <= i < |s.runs| && NullifierKeyOf(s.runs[i].request) == key && HasReadNothing(s.runs[i].stage) ==>
          Apart(s.runs[i].stage.readAt, early, late))
    && (forall b :: from <= b < |s.sends| && NullifierKeyOf(s.sends[b].request) == key ==>
          Apart(s.sends[b].readAt, early, late))
  }

  /** No entry shrinks: a write ends its key's record no earlier than before. */
  lemma NextKeepsEntries(s: State, step: Step, key: Key, time: int)
    requires Bounded(s) && Enabled(s, step) && KeptUntil(s, key, time)
    ensures KeptUntil(Next(s, step), key, time)
  {
  }

  lemma NextKeepsReadersApart(s: State, step: Step, key: Key, early: Option<int>, late: int, from: nat)
    requires Enabled(s, step) && KeptApart(s, key, early, late, from)
    ensures var s' := Next(s, step);
      forall i :: 0 <= i < |s'.runs| && NullifierKeyOf(s'.runs[i].request) == key && HasReadNothing(s'.runs[i].stage) ==>
        Apart(s'.runs[i].stage.readAt, early, late)
  {
  }

  lemma NextKeepsApart(s: State, step: Step, key: Key, early: Option<int>, late: int, from: nat)
    requires Inv(s) && Enabled(s, step) && KeptApart(s, key, early, late, from)
    ensures KeptApart(Next(s, step), key, early, late, from)
  {
    NextKeepsEntries(s, step, key, late);
    NextKeepsReadersApart(s, step, key, early, late, from);
    if !step.Broadcast? {
      assert Next(s, step).sends == s.sends;
    }
  }

  lemma NextKeepsReads(s: State, step: Step)
    requires ReadsArePast(s) && Enabled(s, step)
    ensures ReadsArePast(Next(s, step))
  {
  }

  lemma {:induction false} RunKeepsReads(s: State, steps: seq<Step>)
    requires ReadsArePast(s) && IsRun(s, steps)
    ensures ReadsArePast(Final(s, steps))
    decreases |steps|
  {
    if steps != [] {
      NextKeepsReads(s, steps[0]);
      RunKeepsReads(Next(s, steps[0]), steps[1..]);
    }
  }

  lemma {:induction false} RunKeepsApart(
    s: State, steps: seq<Step>, key: Key, early: Option<int>, late: int, from: nat)
    requires Inv(s) && IsRun(s, steps) && KeptApart(s, key, early, late, from)
    ensures KeptApart(Final(s, steps), key, early, late, from) && Inv(Final(s, steps))
    decreases |steps|
  {
    if steps != [] {
      NextKeepsInv(s, steps[0]);
      NextKeepsApart(s, steps[0], key, early, late, from);
      RunKeepsApart(Next(s, steps[0]), steps[1..], key, early, late, from);
    }
  }

  /** The spacing of sends over every run. Take any reachable state and the record that then stands under a
      nullifier key, pending or submitted: every later send for that key read it when the record had run out,
      or before that state, by a run that was then already on its way to send. */
  lemma LaterSendsReadApart(now: int, steps: seq<Step>, more: seq<Step>, key: Key, b: nat)
    requires IsRun(Initial(now), steps) && IsRun(Final(Initial(now), steps), more)
    requires var s := Final(Initial(now), steps);
      key in s.entries && |s.sends| <= b < |Final(s, more).sends|
      && NullifierKeyOf(Final(s, more).sends[b].request) == key
    ensures var s := Final(Initial(now), steps);
      var readAt := Final(s, more).sends[b].readAt;
      s.entries[key].expiresAt <= readAt || (readAt <= s.now && !NoReader(s, key))
  {
    var s := Final(Initial(now), steps);
    RunKeepsInv(Initial(now), steps);
    RunKeepsReads(Initial(now), steps);
    var early := if NoReader(s, key) then None else Some(s.now);
    RunKeepsApart(s, more, key, early, s.entries[key].expiresAt, |s.sends|);
  }

  /** While a run waits for its submitted record no other run is on its way to send. */
  lemma WaitingRunHasNoReader(s: State, i: nat, key: Key)
    requires Inv(s) && i < |s.runs| && s.runs[i].stage.WritingSubmitted?
    ensures NoReader(s, key)
  {
    OnlyOneActive(s, i);
  }

  /** So when a handler hears that its submitted record has landed, every later send for its nullifier reads
      the key only after that record has run out too. */
  lemma SubmittedRecordSpacesSends(now: int, steps: seq<Step>, w: Write, more: seq<Step>, b: nat)
    requires IsRun(Initial(now), steps) && Enabled(Final(Initial(now), steps), Land(w))
    requires var s := Final(Initial(now), steps);
      && w.key == NullifierKeyOf(w.record.request) && s.runs[w.run].stage.WritingSubmitted?
      && IsRun(Next(s, Land(w)), more) && |s.sends| <= b < |Final(Next(s, Land(w)), more).sends|
      && NullifierKeyOf(Final(Next(s, Land(w)), more).sends[b].request) == w.key
    ensures var s := Final(Initial(now), steps);
      s.now + TTL_SECONDS <= Final(Next(s, Land(w)), more).sends[b].readAt
  {
    var s := Final(Initial(now), steps);
    ExtendRun(Initial(now), steps, Land(w));
    RunKeepsInv(Initial(now), steps + [Land(w)]);
    WaitingRunHasNoReader(Next(s, Land(w)), w.run, w.key);
    LaterSendsReadApart(now, steps + [Land(w)], more, w.key, b);
  }

  /** From any reachable state on, until the record under a nullifier key has run out, no request for that
      nullifier is let through by a decision on the records as they stand. */
  lemma EntryBlocksUntilExpiry(now: int, steps: seq<Step>, more: seq<Step>, request: Request)
    requires IsRun(Initial(now), steps) && IsRun(Final(Initial(now), steps), more)
    requires var s, key := Final(Initial(now), steps), NullifierKeyOf(request);
      key in s.entries && Final(s, more).now < s.entries[key].expiresAt
    ensures DecideIn(Final(Final(Initial(now), steps), more), request) != Ready
  {
    var s, key := Final(Initial(now), steps), NullifierKeyOf(request);
    RunKeepsInv(Initial(now), steps);
    RunKeepsEntries(s, more, key, s.entries[key].expiresAt);
  }

  lemma {:induction false} RunKeepsEntries(s: State, steps: seq<Step>, key: Key, time: int)
    requires Inv(s) && IsRun(s, steps) && KeptUntil(s, key, time)
    ensures KeptUntil(Final(s, steps), key, time)
    decreases |steps|
  {
    if steps != [] {
      NextKeepsInv(s, steps[0]);
      NextKeepsEntries(s, steps[0], key, time);
      RunKeepsEntries(Next(s, steps[0]), steps[1..], key, time);
    }
  }
}
