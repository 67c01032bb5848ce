/** Concrete runs, for any requests, in which what one expects of the relayer's records fails: other
    calldata without a conflict, the same calldata with a conflict or with another send's hash, and a second
    send while a record lives. Each needs a write that lands alone or late. */
module RelayerRuns {
  import opened Wrappers
  import opened RelayIdempotency
  import opened RelayerQueue

  /** The steps that bring a fresh run to its two pending writes. */
  lemma ReachPending(s0: State, steps: seq<Step>, i: nat) returns (longer: seq<Step>)
    requires IsRun(s0, steps)
    requires var s := Final(s0, steps);
      && Enabled(s, Start(i))
      && Read(s.entries, s.now, NullifierKeyOf(s.runs[i].request)).None?
      && Read(s.entries, s.now, CalldataKeyOf(s.runs[i].request)).None?
    ensures IsRun(s0, longer)
    ensures var s := Final(s0, steps);
      Final(s0, longer) == At(s, i, WritingPending(s.now, None, None))
        .(inFlight := s.inFlight + BothWrites(i, PendingRecord(s.runs[i].request)))
  {
    var s := Final(s0, steps);
    var path := [Start(i), PassChecks(i), ReadNullifier(i), ReadCalldata(i), DecideRun(i), IssuePending(i)];
    longer := steps;
    ExtendRun(s0, longer, path[0]);
    longer := longer + [path[0]];
    ExtendRun(s0, longer, path[1]);
    longer := longer + [path[1]];
    ExtendRun(s0, longer, path[2]);
    longer := longer + [path[2]];
    ExtendRun(s0, longer, path[3]);
    longer := longer + [path[3]];
    ExtendRun(s0, longer, path[4]);
    longer := longer + [path[4]];
    ExtendRun(s0, longer, path[5]);
    longer := longer + [path[5]];
  }

  /** The two runs of a counterexample arrive. */
  lemma ArriveTwo(now: int, first: Request, second: Request) returns (steps: seq<Step>)
    ensures IsRun(Initial(now), steps)
    ensures Final(Initial(now), steps) == Initial(now).(runs := [Run(first, Queued), Run(second, Queued)])
  {
    steps := [];
    ExtendRun(Initial(now), steps, Arrive(first));
    steps := steps + [Arrive(first)];
    ExtendRun(Initial(now), steps, Arrive(second));
    steps := steps + [Arrive(second)];
  }

  /** A run reads nothing, and its pending record lands. */
  lemma LandPending(s0: State, steps: seq<Step>, i: nat) returns (longer: seq<Step>)
    requires IsRun(s0, steps) && Enabled(Final(s0, steps), Start(i))
    requires var s := Final(s0, steps);
      && Read(s.entries, s.now, NullifierKeyOf(s.runs[i].request)).None?
      && Read(s.entries, s.now, CalldataKeyOf(s.runs[i].request)).None?
    ensures IsRun(s0, longer)
    ensures var s, s' := Final(s0, steps), Final(s0, longer);
      && s'.now == s.now && s'.sends == s.sends && s'.runs == s.runs[i := Run(s.runs[i].request, Sending(s.now, s.now))]
      && s'.entries == Written(s.entries, s.now, PendingRecord(s.runs[i].request))
      && forall w :: w in s.inFlight && w.run != i ==> w in s'.inFlight
  {
    var record := PendingRecord(Final(s0, steps).runs[i].request);
    var n, c := Write(i, NullifierKeyOf(record.request), record), Write(i, CalldataKeyOf(record.request), record);
    longer := ReachPending(s0, steps, i);
    assert n in BothWrites(i, record) && c in BothWrites(i, record);
    ExtendRun(s0, longer, Land(n));
    longer := longer + [Land(n)];
    ExtendRun(s0, longer, Land(c));
    longer := longer + [Land(c)];
    ExtendRun(s0, longer, AckPending(i));
    longer := longer + [AckPending(i)];
  }

  /** The second of two runs may start, and will find no record. */
  predicate ReadyForSecond(s: State, second: Request) {
    && |s.runs| == 2 && s.runs[0].stage.Settled? && s.runs[1] == Run(second, Queued)
    && Read(s.entries, s.now, NullifierKeyOf(second)).None? && Read(s.entries, s.now, CalldataKeyOf(second)).None?
  }

  /** The second of two runs is sent, and its answer is lost. */
  lemma SendSecond(s0: State, steps: seq<Step>, second: Request, txHash: Hex) returns (longer: seq<Step>)
    requires IsRun(s0, steps) && ReadyForSecond(Final(s0, steps), second)
    ensures IsRun(s0, longer)
    ensures var s, s' := Final(s0, steps), Final(s0, longer);
      && s'.now == s.now && s'.sends == s.sends + [Send(second, txHash, s.now, s.now)] && |s'.runs| == 2
      && s'.entries == Written(s.entries, s.now, PendingRecord(second))
      && forall w :: w in s.inFlight && w.run == 0 ==> w in s'.inFlight
  {
    longer := LandPending(s0, steps, 1);
    ExtendRun(s0, longer, Broadcast(1, txHash, false));
    longer := longer + [Broadcast(1, txHash, false)];
  }

  // Other calldata without a conflict.

  /** Without orderly writes the promise of conflict fails. The first request's calldata write lands
      but its nullifier write does not, and its run fails; the second request, with other calldata for
      the same nullifier, is sent; then the first calldata is told pending, not conflict. */
  lemma HalfLandedWriteHidesConflict(now: int, first: Request, second: Request, txHash: Hex)
    returns (steps: seq<Step>)
    requires NullifierKeyOf(first) == NullifierKeyOf(second) && first.calldataHash != second.calldataHash
    ensures IsRun(Initial(now), steps)
    ensures var s := Final(Initial(now), steps);
      && |s.sends| == 1 && s.sends[0].request == second && s.now < s.sends[0].landedAt + TTL_SECONDS
      && Read(s.entries, s.now, NullifierKeyOf(first)) == Some(PendingRecord(second))
      && DecideIn(s, first) == AlreadyPending(PendingRecord(first))
  {
    var s0 := Initial(now);
    var w := Write(0, CalldataKeyOf(first), PendingRecord(first));
    steps := ArriveTwo(now, first, second);
    steps := ReachPending(s0, steps, 0);
    assert w in BothWrites(0, PendingRecord(first));
    ExtendRun(s0, steps, Land(w));
    steps := steps + [Land(w)];
    ExtendRun(s0, steps, Fail(0));
    steps := steps + [Fail(0)];
    steps := SendSecond(s0, steps, second, txHash);
  }

  /** It also fails with no record under the request's own calldata key. The first request issues its
      writes and fails, and its calldata write is lost; the second is sent; then the first's nullifier
      write lands and takes the place of the send's record, and the first calldata is told pending. */
  lemma LateWriteReplacesRecord(now: int, late: Request, sent: Request, txHash: Hex) returns (steps: seq<Step>)
    requires NullifierKeyOf(late) == NullifierKeyOf(sent) && late.calldataHash != sent.calldataHash
    ensures IsRun(Initial(now), steps)
    ensures var s := Final(Initial(now), steps);
      && |s.sends| == 1 && s.sends[0].request == sent && s.now < s.sends[0].landedAt + TTL_SECONDS
      && Read(s.entries, s.now, CalldataKeyOf(late)).None?
      && DecideIn(s, late) == AlreadyPending(PendingRecord(late))
  {
    var s0 := Initial(now);
    var n, c := Write(0, NullifierKeyOf(late), PendingRecord(late)), Write(0, CalldataKeyOf(late), PendingRecord(late));
    steps := ArriveTwo(now, late, sent);
    steps := ReachPending(s0, steps, 0);
    assert n in BothWrites(0, PendingRecord(late)) && c in BothWrites(0, PendingRecord(late));
    ExtendRun(s0, steps, Fail(0));
    steps := steps + [Fail(0)];
    ExtendRun(s0, steps, Lose(c));
    steps := steps + [Lose(c)];
    steps := SendSecond(s0, steps, sent, txHash);
    ExtendRun(s0, steps, Land(n));
    steps := steps + [Land(n)];
  }

  // The same calldata without its answer.

  /** The send's own calldata can get conflict. One request issues its pending writes and fails; the other is
      sent, its nullifier write landing one second after its calldata write; then the first's nullifier write
      lands and takes the place of the send's record there; and when the calldata record runs out, the send's
      calldata gets conflict in the last second of its record. */
  lemma LateWriteHidesOwnSend(now: int, late: Request, sent: Request, txHash: Hex) returns (steps: seq<Step>)
    requires NullifierKeyOf(late) == NullifierKeyOf(sent) && late.calldataHash != sent.calldataHash
    ensures IsRun(Initial(now), steps)
    ensures var s := Final(Initial(now), steps);
      && |s.sends| == 1 && s.sends[0].request == sent && s.now < s.sends[0].landedAt + TTL_SECONDS
      && DecideIn(s, sent) == Conflict
  {
    var s0 := Initial(now);
    var w, n := Write(0, NullifierKeyOf(late), PendingRecord(late)), Write(1, NullifierKeyOf(sent), PendingRecord(sent));
    steps := ArriveTwo(now, late, sent);
    steps := ReachPending(s0, steps, 0);
    assert w in BothWrites(0, PendingRecord(late));
    ExtendRun(s0, steps, Fail(0));
    steps := steps + [Fail(0)];
    steps := LandCalldataAlone(s0, steps, 1);
    steps := SendAndTick(s0, steps, n, w, txHash);
  }

  /** A run reads nothing, its calldata write lands, and a second passes. */
  lemma LandCalldataAlone(s0: State, steps: seq<Step>, i: nat) returns (longer: seq<Step>)
    requires IsRun(s0, steps) && Enabled(Final(s0, steps), Start(i)) && Final(s0, steps).entries == map[]
    ensures IsRun(s0, longer)
    ensures var s, s' := Final(s0, steps), Final(s0, longer);
      var record := PendingRecord(s.runs[i].request);
      && s'.now == s.now + 1 && s'.sends == s.sends
      && s'.runs == s.runs[i := Run(record.request, WritingPending(s.now, None, Some(s.now)))]
      && s'.entries == map[CalldataKeyOf(record.request) := Entry(record, s.now + TTL_SECONDS)]
      && Write(i, NullifierKeyOf(record.request), record) in s'.inFlight
      && forall w :: w in s.inFlight && w.run != i ==> w in s'.inFlight
  {
    var s := Final(s0, steps);
    var record := PendingRecord(s.runs[i].request);
    var n, c := Write(i, NullifierKeyOf(record.request), record), Write(i, CalldataKeyOf(record.request), record);
    longer := ReachPending(s0, steps, i);
    assert n in BothWrites(i, record) && c in BothWrites(i, record);
    ExtendRun(s0, longer, Land(c));
    longer := longer + [Land(c)];
    ExtendRun(s0, longer, Tick(s.now + 1));
    longer := longer + [Tick(s.now + 1)];
  }

  lemma SendAndTick(s0: State, steps: seq<Step>, n: Write, w: Write, txHash: Hex) returns (longer: seq<Step>)
    requires IsRun(s0, steps)
    requires var s := Final(s0, steps);
      && |s.runs| == 2 && s.runs[1].request == n.record.request
      && s.runs[1].stage == WritingPending(s.now - 1, None, Some(s.now - 1))
      && s.runs[0].stage.Settled? && s.sends == [] && w in s.inFlight && n in s.inFlight && w.run == 0 && n.run == 1
      && n.key == w.key == NullifierKeyOf(n.record.request) && n.record.status.Pending?
      && s.entries == map[CalldataKeyOf(n.record.request) := Entry(n.record, s.now - 1 + TTL_SECONDS)]
      && w.record.request.calldataHash != n.record.request.calldataHash
    ensures IsRun(s0, longer)
    ensures var s := Final(s0, longer);
      && |s.sends| == 1 && s.sends[0].request == n.record.request && s.now < s.sends[0].landedAt + TTL_SECONDS
      && DecideIn(s, n.record.request) == Conflict
  {
    var time := Final(s0, steps).now;
    longer := steps;
    ExtendRun(s0, longer, Land(n));
    longer := longer + [Land(n)];
    ExtendRun(s0, longer, AckPending(1));
    longer := longer + [AckPending(1)];
    ExtendRun(s0, longer, Broadcast(1, txHash, false));
    longer := longer + [Broadcast(1, txHash, false)];
    ExtendRun(s0, longer, Land(w));
    longer := longer + [Land(w)];
    ExtendRun(s0, longer, Tick(time - 1 + TTL_SECONDS));
    longer := longer + [Tick(time - 1 + TTL_SECONDS)];
  }

  /** The first request is sent and reported, its run fails with its submitted writes under way, and its pending
      record runs out. */
  lemma SendFirstAndExpire(now: int, first: Request, second: Request, txHash: Hex) returns (steps: seq<Step>)
    ensures IsRun(Initial(now), steps)
    ensures var s := Final(Initial(now), steps);
      && s.now == now + TTL_SECONDS && s.runs == [Run(first, Settled(Failed)), Run(second, Queued)]
      && s.entries == Written(map[], now, PendingRecord(first))
      && BothWrites(0, SubmittedRecord(first, txHash)) <= s.inFlight && s.sends == [Send(first, txHash, now, now)]
  {
    var s0 := Initial(now);
    steps := ArriveTwo(now, first, second);
    steps := LandPending(s0, steps, 0);
    ExtendRun(s0, steps, Broadcast(0, txHash, true));
    steps := steps + [Broadcast(0, txHash, true)];
    ExtendRun(s0, steps, Fail(0));
    steps := steps + [Fail(0)];
    ExtendRun(s0, steps, Tick(now + TTL_SECONDS));
    steps := steps + [Tick(now + TTL_SECONDS)];
  }

  /** The send's own calldata can get another send's hash. A request is sent, and sent again after its record has
      run out; then the first send's submitted calldata write lands, and the request is told the first hash while
      the second send's record lives. */
  lemma LateWriteReplaysOlderSend(now: int, request: Request, older: Hex, newer: Hex) returns (steps: seq<Step>)
    ensures IsRun(Initial(now), steps)
    ensures var s := Final(Initial(now), steps);
      && s.sends == [Send(request, older, now, now), Send(request, newer, now + TTL_SECONDS, now + TTL_SECONDS)]
      && s.now < s.sends[1].landedAt + TTL_SECONDS
      && DecideIn(s, request) == AlreadySubmitted(SubmittedRecord(request, older))
  {
    var s0 := Initial(now);
    var w := Write(0, CalldataKeyOf(request), SubmittedRecord(request, older));
    steps := SendFirstAndExpire(now, request, request, older);
    assert w in BothWrites(0, SubmittedRecord(request, older));
    steps := SendSecond(s0, steps, request, newer);
    ExtendRun(s0, steps, Land(w));
    steps := steps + [Land(w)];
  }

  // A second send while a record lives.

  /** A second send can go out while the first one's submitted record lives. The first request is sent and its
      pending record runs out before its submitted writes land; a second request for its nullifier reads nothing;
      the first's submitted record lands; and the second is sent. */
  lemma SecondSendWhileRecordLives(now: int, first: Request, second: Request, older: Hex, newer: Hex)
    returns (steps: seq<Step>)
    requires NullifierKeyOf(first) == NullifierKeyOf(second)
    ensures IsRun(Initial(now), steps) && Enabled(Final(Initial(now), steps), Broadcast(1, newer, false))
    ensures var s := Final(Initial(now), steps);
      && s.sends == [Send(first, older, now, now)] && s.runs[1].request == second
      && Read(s.entries, s.now, NullifierKeyOf(second)) == Some(SubmittedRecord(first, older))
  {
    var s0 := Initial(now);
    var w := Write(0, NullifierKeyOf(first), SubmittedRecord(first, older));
    steps := SendFirstAndExpire(now, first, second, older);
    assert w in BothWrites(0, SubmittedRecord(first, older));
    steps := LandPending(s0, steps, 1);
    ExtendRun(s0, steps, Land(w));
    steps := steps + [Land(w)];
  }
}
