/** The indexer's state and its log loop.
    Models services/indexer/src/logIngest.ts, starting from decoded events. */
module LogIngest {
  import opened Wrappers
  import opened Collections
  import opened MerkleTree
  import opened MerklePaths
  import opened Ranges

  datatype NoteEventType = Deposit | PrivateTransfer | WithdrawChange | WithdrawOutput

  datatype PoolEvent =
    | NoteCreated(eventType: NoteEventType, commitment: Digest, spentNullifier: Option<Digest>, leafIndex: nat,
                  encryptedNote: seq<bv8>, encryptionVersion: nat)
    | RootAccepted(root: Digest, previousRoot: Digest, insertedCommitment: Digest)
    | RootExpired(root: Digest)
    | NullifierSpent(nullifier: Digest)
    | Undecodable

  datatype RawPoolLog = RawPoolLog(address: nat, event: PoolEvent, blockNumber: int, transactionHash: Digest, logIndex: nat)

  datatype Source = Source(chainId: nat, pool: nat, sourceRpc: string, observedAtMs: nat)

  /** What is stored for a note, a root or a nullifier: the log it came from, and for a note also
      the observation it was part of. */
  datatype NoteRecord = NoteRecord(source: Source, log: RawPoolLog)

  datatype IngestError =
    | CannotDecode
    | UnsafeLeafIndex
    | MerkleRefused(merkle: MerkleError)
    | BadCheckedRange(range: RangeError)

  const MAX_SAFE_INTEGER: nat := 0x1F_FFFF_FFFF_FFFF

  /** A log that was applied, together with the observation it was part of. */
  datatype AppliedLog = AppliedLog(source: Source, log: RawPoolLog)

  /** The stored collections as values. */
  datatype Snapshot = Snapshot(
    notes: seq<NoteRecord>,
    leaves: map<int, Digest>,
    roots: map<Digest, RawPoolLog>,
    expiredRoots: map<Digest, RawPoolLog>,
    nullifiers: map<Digest, RawPoolLog>)

  /** The effect of one applied log. */
  function Record(s: Snapshot, applied: AppliedLog): Snapshot {
    var log := applied.log;
    match log.event
    case NoteCreated(_, commitment, _, leafIndex, _, _) =>
      s.(notes := s.notes + [NoteRecord(applied.source, log)], leaves := s.leaves[leafIndex := commitment])
    case RootAccepted(root, _, _) => s.(expiredRoots := s.expiredRoots - {root}, roots := s.roots[root := log])
    case RootExpired(root) => s.(roots := s.roots - {root}, expiredRoots := s.expiredRoots[root := log])
    case NullifierSpent(nullifier) => s.(nullifiers := s.nullifiers[nullifier := log])
    case Undecodable => s
  }

  /** The state after a history of applied logs. */
  function Replay(history: seq<AppliedLog>): Snapshot {
    if history == [] then Snapshot([], map[], map[], map[], map[])
    else Record(Replay(history[..|history| - 1]), history[|history| - 1])
  }

  /** Why a log of the pool throws, given the leaves indexed so far (None: no Merkle index). */
  ghost function Refusal(depth: Option<nat>, leaves: map<int, Digest>, event: PoolEvent): Option<IngestError> {
    match event
    case Undecodable => Some(CannotDecode)
    case NoteCreated(_, commitment, _, leafIndex, _, _) =>
      if depth.None? then None
      else if leafIndex > MAX_SAFE_INTEGER then Some(UnsafeLeafIndex)
      else (match InsertRefusal(depth.value, leaves, commitment, leafIndex)
            case Some(error) => Some(MerkleRefused(error))
            case None => None)
    case _ => None
  }

  /** The history after a batch, and the error that ended it, if any: logs of other contracts are
      skipped, and the first refused log ends the batch. */
  ghost function AfterLogs(depth: Option<nat>, history: seq<AppliedLog>, source: Source, logs: seq<RawPoolLog>)
    : (seq<AppliedLog>, Option<IngestError>)
    decreases |logs|
  {
    if logs == [] then (history, None)
    else if logs[0].address != source.pool then AfterLogs(depth, history, source, logs[1..])
    else
      var refusal := Refusal(depth, Replay(history).leaves, logs[0].event);
      if refusal.Some? then (history, refusal)
      else AfterLogs(depth, history + [AppliedLog(source, logs[0])], source, logs[1..])
  }

  // What a batch applies, log by log.

  /** The logs of one contract, in their order. */
  function LogsOf(logs: seq<RawPoolLog>, pool: nat): seq<RawPoolLog> {
    if logs == [] then []
    else (if logs[0].address == pool then [logs[0]] else []) + LogsOf(logs[1..], pool)
  }

  /** They are exactly the logs of that contract. */
  lemma {:induction false} LogsOfMembers(logs: seq<RawPoolLog>, pool: nat)
    ensures forall log :: log in LogsOf(logs, pool) <==> log in logs && log.address == pool
  {
    if logs != [] {
      LogsOfMembers(logs[1..], pool);
      assert logs == [logs[0]] + logs[1..];
    }
  }

  /** The filter keeps order and repetition: it works log by log. */
  lemma {:induction false} LogsOfConcat(a: seq<RawPoolLog>, b: seq<RawPoolLog>, pool: nat)
    ensures LogsOf(a + b, pool) == LogsOf(a, pool) + LogsOf(b, pool)
    ensures |a| == 1 ==> LogsOf(a, pool) == if a[0].address == pool then a else []
  {
    if a == [] {
      assert a + b == b;
    } else {
      var first := if a[0].address == pool then [a[0]] else [];
      LogsOfConcat(a[1..], b, pool);
      assert (a + b)[1..] == a[1..] + b;
      ConcatAssociates(first, LogsOf(a[1..], pool), LogsOf(b, pool));
    }
  }

  /** Logs as parts of an observation. */
  function Observed(source: Source, logs: seq<RawPoolLog>): (applied: seq<AppliedLog>)
    ensures |applied| == |logs| && forall k :: 0 <= k < |logs| ==> applied[k] == AppliedLog(source, logs[k])
  {
    seq(|logs|, k requires 0 <= k < |logs| => AppliedLog(source, logs[k]))
  }

  /** The first n of some logs are applied to a history, and all of them unless the next one is refused. */
  ghost predicate AppliesFirst(
    depth: Option<nat>, history: seq<AppliedLog>, source: Source, own: seq<RawPoolLog>, n: nat,
    after: seq<AppliedLog>, refusal: Option<IngestError>)
  {
    && n <= |own| && after == history + Observed(source, own[..n])
    && (refusal.None? ==> n == |own|)
    && (refusal.Some? ==> n < |own| && Refusal(depth, Replay(after).leaves, own[n].event) == refusal)
  }

  lemma OneMoreObserved(history: seq<AppliedLog>, source: Source, log: RawPoolLog, rest: seq<RawPoolLog>, n: nat)
    requires n <= |rest|
    ensures ([log] + rest)[..n + 1] == [log] + rest[..n]
    ensures history + [AppliedLog(source, log)] + Observed(source, rest[..n])
         == history + Observed(source, ([log] + rest)[..n + 1])
  {
    assert ([log] + rest)[..n + 1] == [log] + rest[..n];
    assert Observed(source, [log] + rest[..n]) == [AppliedLog(source, log)] + Observed(source, rest[..n]);
    ConcatAssociates(history, [AppliedLog(source, log)], Observed(source, rest[..n]));
  }

  lemma OneMoreApplied(
    depth: Option<nat>, history: seq<AppliedLog>, source: Source, log: RawPoolLog, rest: seq<RawPoolLog>, n: nat,
    after: seq<AppliedLog>, refusal: Option<IngestError>)
    requires AppliesFirst(depth, history + [AppliedLog(source, log)], source, rest, n, after, refusal)
    ensures AppliesFirst(depth, history, source, [log] + rest, n + 1, after, refusal)
  {
    OneMoreObserved(history, source, log, rest, n);
  }

  /** A batch applies its pool's logs in their order: all of them when it ends normally, and otherwise those before
      the first that is refused. */
  lemma {:induction false} BatchAppliesItsPoolLogs(
    depth: Option<nat>, history: seq<AppliedLog>, source: Source, logs: seq<RawPoolLog>) returns (n: nat)
    ensures var (after, refusal) := AfterLogs(depth, history, source, logs);
      AppliesFirst(depth, history, source, LogsOf(logs, source.pool), n, after, refusal)
    decreases |logs|
  {
    if logs == [] {
      n := 0;
      assert history + Observed(source, []) == history;
    } else if logs[0].address != source.pool {
      n := BatchAppliesItsPoolLogs(depth, history, source, logs[1..]);
    } else if Refusal(depth, Replay(history).leaves, logs[0].event).Some? {
      n := 0;
      assert LogsOf(logs, source.pool)[0] == logs[0] && LogsOf(logs, source.pool)[..0] == [];
      assert history + Observed(source, []) == history;
    } else {
      var longer, rest := history + [AppliedLog(source, logs[0])], LogsOf(logs[1..], source.pool);
      n := BatchAppliesItsPoolLogs(depth, longer, source, logs[1..]);
      var (after, refusal) := AfterLogs(depth, longer, source, logs[1..]);
      OneMoreApplied(depth, history, source, logs[0], rest, n, after, refusal);
      n := n + 1;
    }
  }

  lemma AppliedAreOfThePool(depth: Option<nat>, history: seq<AppliedLog>, source: Source, logs: seq<RawPoolLog>)
    ensures var (after, refusal) := AfterLogs(depth, history, source, logs);
      && (refusal.None? ==> after == history + Observed(source, LogsOf(logs, source.pool)))
      && |history| <= |after| && after[..|history|] == history
      && forall k :: |history| <= k < |after| ==>
        after[k].source == source && after[k].log in logs && after[k].log.address == source.pool
  {
    var n := BatchAppliesItsPoolLogs(depth, history, source, logs);
    var after, own := AfterLogs(depth, history, source, logs).0, LogsOf(logs, source.pool);
    assert own[..|own|] == own;
    LogsOfMembers(logs, source.pool);
    forall k | |history| <= k < |after|
      ensures after[k].source == source && after[k].log in logs && after[k].log.address == source.pool
    {
      assert after[k] == AppliedLog(source, own[k - |history|]);
      assert own[k - |history|] in own;
    }
  }

  datatype Batch = Batch(source: Source, logs: seq<RawPoolLog>, checkedRange: BlockRange)

  /** The history after a run of batches, any of which may throw. */
  ghost function HistoryOfRun(depth: Option<nat>, batches: seq<Batch>): seq<AppliedLog> {
    if batches == [] then []
    else
      var last := batches[|batches| - 1];
      AfterLogs(depth, HistoryOfRun(depth, batches[..|batches| - 1]), last.source, last.logs).0
  }

  /** Whether the k-th batch of a run ends without throwing. */
  ghost predicate EndsNormally(depth: Option<nat>, batches: seq<Batch>, k: nat)
    requires k < |batches|
  {
    && AfterLogs(depth, HistoryOfRun(depth, batches[..k]), batches[k].source, batches[k].logs).1.None?
    && batches[k].checkedRange.fromBlock <= batches[k].checkedRange.toBlock
  }

  /** Whether a block lies in the checked range of a batch that ends normally. */
  ghost predicate CheckedByRun(depth: Option<nat>, batches: seq<Batch>, x: int) {
    exists k :: 0 <= k < |batches| && EndsNormally(depth, batches, k) && batches[k].checkedRange.Has(x)
  }

  lemma CheckedByLonger(depth: Option<nat>, batches: seq<Batch>, b: Batch, x: int)
    ensures CheckedByRun(depth, batches + [b], x)
       <==> CheckedByRun(depth, batches, x) || (EndsNormally(depth, batches + [b], |batches|) && b.checkedRange.Has(x))
  {
    var longer := batches + [b];
    forall k | 0 <= k < |batches|
      ensures EndsNormally(depth, batches, k) == EndsNormally(depth, longer, k)
    {
      assert longer[..k] == batches[..k];
    }
    if k :| 0 <= k < |batches| && EndsNormally(depth, batches, k) && batches[k].checkedRange.Has(x) {
      assert EndsNormally(depth, longer, k) && longer[k].checkedRange.Has(x);
    }
    if k :| 0 <= k < |longer| && EndsNormally(depth, longer, k) && longer[k].checkedRange.Has(x) {
      assert k < |batches| ==> EndsNormally(depth, batches, k) && batches[k].checkedRange.Has(x);
    }
  }

  /** In every run each applied log is one of its batch, and of that batch's pool. */
  lemma {:induction false} RunAppliesPoolLogs(depth: Option<nat>, batches: seq<Batch>, j: nat)
    requires j < |HistoryOfRun(depth, batches)|
    ensures var applied := HistoryOfRun(depth, batches)[j];
      && applied.log.address == applied.source.pool
      && exists k :: 0 <= k < |batches| && applied.source == batches[k].source && applied.log in batches[k].logs
  {
    if batches != [] {
      var before, last := batches[..|batches| - 1], batches[|batches| - 1];
      var history := HistoryOfRun(depth, before);
      AppliedAreOfThePool(depth, history, last.source, last.logs);
      if j < |history| {
        RunAppliesPoolLogs(depth, before, j);
        assert HistoryOfRun(depth, batches)[j] == HistoryOfRun(depth, batches)[..|history|][j];
        var k :| 0 <= k < |before| && history[j].source == before[k].source && history[j].log in before[k].logs;
        assert history[j].source == batches[k].source && history[j].log in batches[k].logs;
      } else {
        assert HistoryOfRun(depth, batches)[j].source == batches[|batches| - 1].source;
      }
    }
  }

  lemma ReplayAppend(history: seq<AppliedLog>, applied: AppliedLog)
    ensures Replay(history + [applied]) == Record(Replay(history), applied)
  {
  }

  class IndexerState {
    const merklePaths: MerklePathIndex?
    const ranges: RangeTracker
    var notes: seq<NoteRecord>
    var roots: map<Digest, RawPoolLog>
    var expiredRoots: map<Digest, RawPoolLog>
    var nullifiers: map<Digest, RawPoolLog>
    ghost var history: seq<AppliedLog>

    constructor (merklePaths: MerklePathIndex?)
      requires merklePaths != null ==> merklePaths.Valid() && merklePaths.leavesByIndex == map[]
      ensures Valid() && history == [] && ranges.checkedRanges == [] && fresh(ranges)
      ensures this.merklePaths == merklePaths
    {
      var tracker := new RangeTracker();
      this.merklePaths, ranges := merklePaths, tracker;
      notes, roots, expiredRoots, nullifiers, history := [], map[], map[], map[], [];
    }

    ghost function Repr(): set<object>
      reads this
    {
      {this, ranges} + if merklePaths == null then {} else {merklePaths}
    }

    ghost function Depth(): Option<nat>
    {
      if merklePaths == null then None else Some(merklePaths.depth)
    }

    /** The stored collections are exactly what the history of applied logs replays to. */
    ghost predicate Valid()
      reads this, Repr()
    {
      && ranges.Valid()
      && (merklePaths != null ==> merklePaths.Valid() && merklePaths.leavesByIndex == Replay(history).leaves)
      && notes == Replay(history).notes && roots == Replay(history).roots
      && expiredRoots == Replay(history).expiredRoots && nullifiers == Replay(history).nullifiers
      && AllAdmitted(Depth(), history)
    }

    /** Applies a batch. Logs before a throwing one stay applied, but the checked range is marked
        only by a batch that ends normally. */
    method IngestPoolLogs(source: Source, logs: seq<RawPoolLog>, checkedRange: BlockRange)
      returns (r: Outcome<IngestError>)
      requires Valid()
      modifies Repr()
      ensures Valid()
      ensures history == AfterLogs(Depth(), old(history), source, logs).0
      ensures var stopped := AfterLogs(Depth(), old(history), source, logs).1;
        r == if stopped.Some? then Thrown(stopped.value)
             else if checkedRange.toBlock < checkedRange.fromBlock then Thrown(BadCheckedRange(InvalidRange))
             else Done
      ensures r.Done? ==> history == old(history) + Observed(source, LogsOf(logs, source.pool))
      ensures |old(history)| <= |history| && forall k :: |old(history)| <= k < |history| ==>
        history[k].source == source && history[k].log in logs && history[k].log.address == source.pool
      ensures r.Thrown? ==> ranges.checkedRanges == old(ranges.checkedRanges)
      ensures r.Done? ==> forall x :: Covers(ranges.checkedRanges, x)
                                 <==> Covers(old(ranges.checkedRanges), x) || checkedRange.Has(x)
    {
      AppliedAreOfThePool(Depth(), history, source, logs);
      for k := 0 to |logs|
        invariant Valid() && ranges.checkedRanges == old(ranges.checkedRanges)
        invariant AfterLogs(Depth(), history, source, logs[k..]) == AfterLogs(Depth(), old(history), source, logs)
      {
        var log := logs[k];
        if log.address != source.pool {
          continue;
        }
        var refused := ApplyLog(source, log);
        if refused.Thrown? {
          return refused;
        }
      }
      var marked := ranges.MarkCheckedRange(checkedRange);
      r := if marked.Thrown? then Thrown(BadCheckedRange(marked.error)) else Done;
    }

    /** One log of the pool. */
    method ApplyLog(source: Source, log: RawPoolLog) returns (r: Outcome<IngestError>)
      requires Valid()
      modifies Repr() - {ranges}
      ensures Valid()
      ensures var refusal := Refusal(Depth(), old(Replay(history)).leaves, log.event);
        && r == (if refusal.Some? then Thrown(refusal.value) else Done)
        && history == (if refusal.Some? then old(history) else old(history) + [AppliedLog(source, log)])
    {
      ghost var applied := AppliedLog(source, log);
      ReplayAppend(history, applied);
      match log.event {
        case NoteCreated(_, commitment, _, leafIndex, _, _) =>
          var inserted := InsertAcceptedNoteCommitment(commitment, leafIndex);
          if inserted.Thrown? {
            return inserted;
          }
          notes := notes + [NoteRecord(source, log)];
        case RootAccepted(root, _, _) =>
          expiredRoots := expiredRoots - {root};
          roots := roots[root := log];
        case RootExpired(root) =>
          roots := roots - {root};
          expiredRoots := expiredRoots[root := log];
        case NullifierSpent(nullifier) =>
          nullifiers := nullifiers[nullifier := log];
        case Undecodable =>
          return Thrown(CannotDecode);
      }
      AdmitOne(Depth(), history, applied);
      history := history + [applied];
      r := Done;
    }

    /** Inserts a note's commitment into the Merkle index, when there is one. */
    method InsertAcceptedNoteCommitment(commitment: Digest, leafIndex: nat) returns (r: Outcome<IngestError>)
      requires merklePaths != null ==> merklePaths.Valid()
      modifies if merklePaths == null then {} else {merklePaths}
      ensures merklePaths == null ==> r.Done?
      ensures merklePaths != null ==> merklePaths.Valid()
      ensures merklePaths != null ==>
        var refusal := if leafIndex > MAX_SAFE_INTEGER then Some(UnsafeLeafIndex)
                       else match InsertRefusal(merklePaths.depth, old(merklePaths.leavesByIndex), commitment, leafIndex)
                            case Some(error) => Some(MerkleRefused(error))
                            case None => None;
        && r == (if refusal.Some? then Thrown(refusal.value) else Done)
        && merklePaths.leavesByIndex ==
           if refusal.Some? then old(merklePaths.leavesByIndex) else old(merklePaths.leavesByIndex)[leafIndex := commitment]
    {
      if merklePaths == null {
        return Done;
      }
      if leafIndex > MAX_SAFE_INTEGER {
        return Thrown(UnsafeLeafIndex);
      }
      var inserted := merklePaths.InsertIndexedCommitment(commitment, leafIndex);
      r := if inserted.Thrown? then Thrown(MerkleRefused(inserted.error)) else Done;
    }
  }

  /** Any run of batches from an empty state leaves the state its history replays to, with exactly
      the blocks of the batches that ended normally marked as checked. */
  method IngestAll(state: IndexerState, batches: seq<Batch>)
    requires state.Valid() && state.history == [] && state.ranges.checkedRanges == []
    modifies state.Repr()
    ensures state.Valid() && state.history == HistoryOfRun(state.Depth(), batches)
    ensures forall x :: Covers(state.ranges.checkedRanges, x) <==> CheckedByRun(state.Depth(), batches, x)
  {
    for k := 0 to |batches|
      invariant state.Valid() && state.history == HistoryOfRun(state.Depth(), batches[..k])
      invariant forall x :: Covers(state.ranges.checkedRanges, x) <==> CheckedByRun(state.Depth(), batches[..k], x)
    {
      var b := batches[k];
      assert batches[..k + 1] == batches[..k] + [b] && batches[..k + 1][..k] == batches[..k];
      var _ := state.IngestPoolLogs(b.source, b.logs, b.checkedRange);
      forall x {
        CheckedByLonger(state.Depth(), batches[..k], b, x);
      }
    }
    assert batches[..|batches|] == batches;
  }

  /** Every log of a history was admitted by the state it met. */
  ghost predicate AllAdmitted(depth: Option<nat>, history: seq<AppliedLog>) {
    forall k :: 0 <= k < |history| ==> AdmittedAt(depth, history, k)
  }

  ghost predicate AdmittedAt(depth: Option<nat>, history: seq<AppliedLog>, k: nat)
    requires k < |history|
  {
    Refusal(depth, Replay(history[..k]).leaves, history[k].log.event).None?
  }

  lemma AdmitOne(depth: Option<nat>, history: seq<AppliedLog>, applied: AppliedLog)
    requires AllAdmitted(depth, history)
    requires Refusal(depth, Replay(history).leaves, applied.log.event).None?
    ensures AllAdmitted(depth, history + [applied])
  {
    var longer := history + [applied];
    forall k | 0 <= k < |longer|
      ensures AdmittedAt(depth, longer, k)
    {
      if k < |history| {
        assert longer[..k] == history[..k] && AdmittedAt(depth, history, k);
      } else {
        assert longer[..k] == history;
      }
    }
  }

  predicate ConcernsRoot(event: PoolEvent, root: Digest) {
    (event.RootAccepted? || event.RootExpired?) && event.root == root
  }

  /** The last log of a history that accepted or expired a root. */
  function LastRootLog(history: seq<AppliedLog>, root: Digest): Option<RawPoolLog> {
    if history == [] then None
    else
      var last := history[|history| - 1].log;
      if ConcernsRoot(last.event, root) then Some(last) else LastRootLog(history[..|history| - 1], root)
  }

  /** The last log about a root is one of the history. */
  lemma {:induction false} LastRootLogIsApplied(history: seq<AppliedLog>, root: Digest) returns (j: nat)
    requires LastRootLog(history, root).Some?
    ensures j < |history| && history[j].log == LastRootLog(history, root).value
    ensures history[j].log.event.RootAccepted? || history[j].log.event.RootExpired?
    ensures history[j].log.event.root == root
  {
    var n := |history| - 1;
    if ConcernsRoot(history[n].log.event, root) {
      j := n;
    } else {
      j := LastRootLogIsApplied(history[..n], root);
    }
  }

  /** A root is live or expired, never both, as the last event about it says, and is stored with
      that event's log; a root no event mentioned is neither. */
  lemma {:induction false} RootsReflectLastEvent(history: seq<AppliedLog>, root: Digest)
    ensures var s, last := Replay(history), LastRootLog(history, root);
      && (root in s.roots <==> last.Some? && last.value.event.RootAccepted?)
      && (root in s.expiredRoots <==> last.Some? && last.value.event.RootExpired?)
      && (root in s.roots ==> s.roots[root] == last.value)
      && (root in s.expiredRoots ==> s.expiredRoots[root] == last.value)
    ensures !(root in Replay(history).roots && root in Replay(history).expiredRoots)
  {
    if history != [] {
      RootsReflectLastEvent(history[..|history| - 1], root);
    }
  }

  /** The nullifiers stored are exactly those of the spent events, so none is ever removed. */
  lemma {:induction false} NullifiersAreSpentEvents(history: seq<AppliedLog>, nullifier: Digest)
    ensures nullifier in Replay(history).nullifiers
       <==> exists k :: 0 <= k < |history| && history[k].log.event == NullifierSpent(nullifier)
  {
    if history != [] {
      var before, last := history[..|history| - 1], |history| - 1;
      NullifiersAreSpentEvents(before, nullifier);
      if k :| 0 <= k < |before| && before[k].log.event == NullifierSpent(nullifier) {
        assert history[k].log.event == NullifierSpent(nullifier);
      }
      if k :| 0 <= k < |history| && history[k].log.event == NullifierSpent(nullifier) {
        assert k < last ==> before[k].log.event == NullifierSpent(nullifier);
      }
    }
  }

  /** Later logs keep every nullifier. */
  lemma NullifiersOnlyGrow(history: seq<AppliedLog>, more: seq<AppliedLog>)
    ensures Replay(history).nullifiers.Keys <= Replay(history + more).nullifiers.Keys
  {
    forall nullifier | nullifier in Replay(history).nullifiers
      ensures nullifier in Replay(history + more).nullifiers
    {
      NullifiersAreSpentEvents(history, nullifier);
      NullifiersAreSpentEvents(history + more, nullifier);
      var k :| 0 <= k < |history| && history[k].log.event == NullifierSpent(nullifier);
      assert (history + more)[k].log.event == NullifierSpent(nullifier);
    }
  }

  /** Every stored note's commitment sits at its leaf index, and every leaf belongs to a note. */
  ghost predicate NotesMatchLeaves(s: Snapshot) {
    && (forall k :: 0 <= k < |s.notes| ==> NoteAtLeaf(s.notes[k], s.leaves))
    && (forall i :: i in s.leaves ==> exists k :: 0 <= k < |s.notes| && NoteFor(s.notes[k], i))
  }

  /** With a Merkle index, notes and leaves match after every history. */
  lemma {:induction false} NotesSitAtTheirLeaves(depth: nat, history: seq<AppliedLog>)
    requires AllAdmitted(Some(depth), history)
    ensures NotesMatchLeaves(Replay(history))
  {
    if history != [] {
      var before, applied := history[..|history| - 1], history[|history| - 1];
      forall k | 0 <= k < |before|
        ensures AdmittedAt(Some(depth), before, k)
      {
        assert before[..k] == history[..k] && AdmittedAt(Some(depth), history, k);
      }
      NotesSitAtTheirLeaves(depth, before);
      assert AdmittedAt(Some(depth), history, |before|) && history[..|before|] == before;
      RecordKeepsNotes(depth, Replay(before), applied);
    }
  }

  lemma RecordKeepsNotes(depth: nat, s: Snapshot, applied: AppliedLog)
    requires NotesMatchLeaves(s) && Refusal(Some(depth), s.leaves, applied.log.event).None?
    ensures NotesMatchLeaves(Record(s, applied))
  {
    if applied.log.event.NoteCreated? {
      var t, i := Record(s, applied), applied.log.event.leafIndex;
      assert i in s.leaves ==> s.leaves[i] == applied.log.event.commitment;
      assert NoteFor(t.notes[|s.notes|], i);
      forall j | j in t.leaves
        ensures exists k :: 0 <= k < |t.notes| && NoteFor(t.notes[k], j)
      {
        if j != i {
          var k :| 0 <= k < |s.notes| && NoteFor(s.notes[k], j);
          assert NoteFor(t.notes[k], j);
        }
      }
    }
  }

  ghost predicate NoteFor(note: NoteRecord, leafIndex: int) {
    note.log.event.NoteCreated? && note.log.event.leafIndex == leafIndex
  }

  ghost predicate NoteAtLeaf(note: NoteRecord, leaves: map<int, Digest>) {
    && note.log.event.NoteCreated? && note.log.event.leafIndex in leaves
    && leaves[note.log.event.leafIndex] == note.log.event.commitment
  }
}
