/** What the stored collections say of a history of logs, and which logs are refused.
    About ingestPoolLogs of services/indexer/src/logIngest.ts. */
module IngestHistory {
  import opened Wrappers
  import opened Powers
  import opened MerkleTree
  import opened MerklePaths
  import opened LogIngest

  // Refusals.

  /** Among different leaves a log of the pool is refused exactly when it cannot be decoded, or when it creates a note
      for the Merkle index at an unsafe leaf index, outside the tree, over another leaf, or of a commitment that is
      a leaf elsewhere. */
  lemma AdmittedIff(depth: Option<nat>, leaves: map<int, Digest>, event: PoolEvent)
    requires AreDifferent(leaves)
    ensures Refusal(depth, leaves, event).None? <==>
      && event != Undecodable
      && (event.NoteCreated? && depth.Some? ==>
            && event.leafIndex <= 9_007_199_254_740_991 && event.leafIndex < Pow2(depth.value)
            && (event.leafIndex in leaves ==> leaves[event.leafIndex] == event.commitment)
            && (forall i :: i in leaves && leaves[i] == event.commitment ==> i == event.leafIndex))
  {
  }

  /** The leaves are different, inside the tree and at safe indexes, and every created note sits at its leaf. */
  ghost predicate LeavesFit(depth: nat, history: seq<AppliedLog>) {
    var leaves := Replay(history).leaves;
    && AreDifferent(leaves)
    && (forall i :: i in leaves ==> 0 <= i < Pow2(depth) && i <= MAX_SAFE_INTEGER)
    && (forall k :: 0 <= k < |history| && history[k].log.event.NoteCreated? ==>
          var event := history[k].log.event;
          event.leafIndex in leaves && leaves[event.leafIndex] == event.commitment)
  }

  lemma OneMoreFits(depth: nat, history: seq<AppliedLog>, applied: AppliedLog)
    requires LeavesFit(depth, history)
    requires Refusal(Some(depth), Replay(history).leaves, applied.log.event).None?
    ensures LeavesFit(depth, history + [applied])
  {
    ReplayAppend(history, applied);
    var longer := history + [applied];
    forall k | 0 <= k < |longer| && longer[k].log.event.NoteCreated?
      ensures var event := longer[k].log.event;
        event.leafIndex in Replay(longer).leaves && Replay(longer).leaves[event.leafIndex] == event.commitment
    {
      if k < |history| {
        assert history[k].log.event.NoteCreated?;
      }
    }
  }

  lemma {:induction false} AdmittedFits(depth: nat, history: seq<AppliedLog>)
    requires AllAdmitted(Some(depth), history)
    ensures LeavesFit(depth, history)
  {
    if history != [] {
      var before, last := history[..|history| - 1], history[|history| - 1];
      forall k | 0 <= k < |before|
        ensures AdmittedAt(Some(depth), before, k)
      {
        assert before[..k] == history[..k] && AdmittedAt(Some(depth), history, k);
      }
      AdmittedFits(depth, before);
      assert AdmittedAt(Some(depth), history, |before|);
      OneMoreFits(depth, before, last);
      assert history == before + [last];
    }
  }

  /** A log that was applied once is never refused later, and a note log that comes again changes no leaf. */
  lemma AppliedIsAdmittedAgain(depth: nat, history: seq<AppliedLog>, k: nat)
    requires AllAdmitted(Some(depth), history) && k < |history|
    ensures Refusal(Some(depth), Replay(history).leaves, history[k].log.event).None?
    ensures Record(Replay(history), history[k]).leaves == Replay(history).leaves
  {
    AdmittedFits(depth, history);
    assert AdmittedAt(Some(depth), history, k);
  }

  /** The history holds every one of some logs. */
  ghost predicate HoldsLogs(history: seq<AppliedLog>, logs: seq<RawPoolLog>) {
    forall log :: log in logs ==> exists k :: 0 <= k < |history| && history[k].log == log
  }

  lemma HoldsLonger(history: seq<AppliedLog>, applied: AppliedLog, logs: seq<RawPoolLog>)
    requires HoldsLogs(history, logs)
    ensures HoldsLogs(history + [applied], logs)
  {
    forall log | log in logs
      ensures exists k :: 0 <= k < |history + [applied]| && (history + [applied])[k].log == log
    {
      var k :| 0 <= k < |history| && history[k].log == log;
      assert (history + [applied])[k].log == log;
    }
  }

  /** A batch whose pool logs were all applied before ends normally when it is ingested again, and changes no leaf:
      a batch that failed half way can be retried. */
  lemma {:induction false} RetriedLogsAreAdmitted(
    depth: nat, history: seq<AppliedLog>, source: Source, logs: seq<RawPoolLog>)
    requires AllAdmitted(Some(depth), history) && HoldsLogs(history, LogsOf(logs, source.pool))
    ensures AfterLogs(Some(depth), history, source, logs).1.None?
    ensures Replay(AfterLogs(Some(depth), history, source, logs).0).leaves == Replay(history).leaves
    decreases |logs|
  {
    LogsOfMembers(logs, source.pool);
    if logs == [] {
    } else if logs[0].address != source.pool {
      LogsOfMembers(logs[1..], source.pool);
      RetriedLogsAreAdmitted(depth, history, source, logs[1..]);
    } else {
      var applied := AppliedLog(source, logs[0]);
      LogsOfMembers(logs[1..], source.pool);
      assert logs[0] in LogsOf(logs, source.pool);
      var k :| 0 <= k < |history| && history[k].log == logs[0];
      AppliedIsAdmittedAgain(depth, history, k);
      ReplayAppend(history, applied);
      AdmitOne(Some(depth), history, applied);
      HoldsLonger(history, applied, LogsOf(logs[1..], source.pool));
      RetriedLogsAreAdmitted(depth, history + [applied], source, logs[1..]);
    }
  }

  // Collections.

  /** The notes that the logs of a history create, in their order. */
  function NotesOf(history: seq<AppliedLog>): (notes: seq<NoteRecord>)
    ensures forall n :: n in notes <==>
      n.log.event.NoteCreated? && exists k :: 0 <= k < |history| && history[k] == AppliedLog(n.source, n.log)
  {
    if history == [] then []
    else
      var last := history[|history| - 1];
      assert forall k :: 0 <= k < |history| - 1 ==> history[..|history| - 1][k] == history[k];
      NotesOf(history[..|history| - 1]) + if last.log.event.NoteCreated? then [NoteRecord(last.source, last.log)] else []
  }

  /** Every created note is stored once, with its log and observation, in the order of the logs. */
  lemma {:induction false} NotesAreCreatedLogs(history: seq<AppliedLog>)
    ensures Replay(history).notes == NotesOf(history)
  {
    if history != [] {
      NotesAreCreatedLogs(history[..|history| - 1]);
    }
  }

  /** A recorded nullifier keeps the last log that spent it. */
  lemma {:induction false} NullifierKeepsLastLog(history: seq<AppliedLog>, nullifier: Digest)
    requires nullifier in Replay(history).nullifiers
    ensures exists k ::
      && 0 <= k < |history| && history[k].log == Replay(history).nullifiers[nullifier]
      && history[k].log.event == NullifierSpent(nullifier)
      && forall j :: k < j < |history| ==> history[j].log.event != NullifierSpent(nullifier)
  {
    var n := |history| - 1;
    if history[n].log.event != NullifierSpent(nullifier) {
      NullifierKeepsLastLog(history[..n], nullifier);
      var k :|
        && 0 <= k < n && history[..n][k].log == Replay(history[..n]).nullifiers[nullifier]
        && history[..n][k].log.event == NullifierSpent(nullifier)
        && forall j :: k < j < n ==> history[..n][j].log.event != NullifierSpent(nullifier);
      assert history[k].log == Replay(history).nullifiers[nullifier];
      forall j | k < j < |history|
        ensures history[j].log.event != NullifierSpent(nullifier)
      {
        assert j < n ==> history[..n][j] == history[j];
      }
    }
  }
}
