/** The relay's two-key idempotency records over an expiring key-value store.
    Models services/relay/src/idempotency.ts; the store is linearizable and its clock is given. */
module RelayIdempotency {
  import opened Wrappers

  type Hex = nat

  datatype Request = Request(chainId: nat, pool: Hex, nullifier: Hex, calldataHash: Hex)

  datatype Key =
    | NullifierKey(chainId: nat, pool: Hex, nullifier: Hex)
    | CalldataKey(chainId: nat, pool: Hex, calldataHash: Hex)

  datatype Status = Pending | Submitted

  datatype RelayRecord = RelayRecord(status: Status, request: Request, txHash: Option<Hex>)

  datatype Entry = Entry(record: RelayRecord, expiresAt: int)

  datatype Decision =
    | Ready
    | AlreadyPending(record: RelayRecord)
    | AlreadySubmitted(record: RelayRecord)
    | Conflict

  const TTL_SECONDS := 60 * 60

  function NullifierKeyOf(r: Request): Key {
    NullifierKey(r.chainId, r.pool, r.nullifier)
  }

  function CalldataKeyOf(r: Request): Key {
    CalldataKey(r.chainId, r.pool, r.calldataHash)
  }

  /** A record is read until its time to live has passed. */
  function Read(entries: map<Key, Entry>, now: int, key: Key): Option<RelayRecord> {
    if key in entries && now < entries[key].expiresAt then Some(entries[key].record) else None
  }

  function Put(entries: map<Key, Entry>, now: int, key: Key, record: RelayRecord): map<Key, Entry> {
    entries[key := Entry(record, now + TTL_SECONDS)]
  }

  predicate IsSubmitted(record: Option<RelayRecord>) {
    record.Some? && record.value.status.Submitted? && record.value.txHash.Some?
  }

  /** What the two records found say about a request. */
  function Decide(request: Request, nullifierRecord: Option<RelayRecord>, calldataRecord: Option<RelayRecord>): Decision {
    if IsSubmitted(calldataRecord) then AlreadySubmitted(calldataRecord.value)
    else if calldataRecord.Some? && calldataRecord.value.status.Pending? then AlreadyPending(calldataRecord.value)
    else if nullifierRecord.None? then Ready
    else if nullifierRecord.value.request.calldataHash != request.calldataHash then Conflict
    else if IsSubmitted(nullifierRecord) then AlreadySubmitted(nullifierRecord.value)
    else AlreadyPending(nullifierRecord.value)
  }

  function DecideAt(entries: map<Key, Entry>, now: int, request: Request): Decision {
    Decide(request, Read(entries, now, NullifierKeyOf(request)), Read(entries, now, CalldataKeyOf(request)))
  }

  /** One record under both of its keys. */
  function Written(entries: map<Key, Entry>, now: int, record: RelayRecord): map<Key, Entry> {
    Put(Put(entries, now, NullifierKeyOf(record.request), record), now, CalldataKeyOf(record.request), record)
  }

  function PendingRecord(request: Request): RelayRecord {
    RelayRecord(Pending, request, None)
  }

  function SubmittedRecord(request: Request, txHash: Hex): RelayRecord {
    RelayRecord(Submitted, request, Some(txHash))
  }

  class RelayStore {
    var entries: map<Key, Entry>
    var now: int

    constructor (now: int)
      ensures entries == map[] && this.now == now
    {
      entries, this.now := map[], now;
    }

    method PrepareRelayIdempotency(request: Request) returns (decision: Decision)
      ensures decision == DecideAt(entries, now, request)
    {
      var nullifierRecord := Read(entries, now, NullifierKeyOf(request));
      var calldataRecord := Read(entries, now, CalldataKeyOf(request));
      if IsSubmitted(calldataRecord) {
        return AlreadySubmitted(calldataRecord.value);
      }
      if calldataRecord.Some? && calldataRecord.value.status.Pending? {
        return AlreadyPending(calldataRecord.value);
      }
      if nullifierRecord.Some? {
        if nullifierRecord.value.request.calldataHash != request.calldataHash {
          return Conflict;
        }
        if IsSubmitted(nullifierRecord) {
          return AlreadySubmitted(nullifierRecord.value);
        }
        return AlreadyPending(nullifierRecord.value);
      }
      decision := Ready;
    }

    /** Writes one record under both keys. */
    method WriteRecord(record: RelayRecord)
      modifies this`entries
      ensures entries == Written(old(entries), now, record)
    {
      entries := Put(entries, now, NullifierKeyOf(record.request), record);
      entries := Put(entries, now, CalldataKeyOf(record.request), record);
    }

    method RecordRelayPending(request: Request) returns (record: RelayRecord)
      modifies this`entries
      ensures record == PendingRecord(request)
      ensures Read(entries, now, NullifierKeyOf(request)) == Read(entries, now, CalldataKeyOf(request)) == Some(record)
      ensures forall k :: k != NullifierKeyOf(request) && k != CalldataKeyOf(request) ==>
        Read(entries, now, k) == Read(old(entries), now, k)
    {
      record := PendingRecord(request);
      WriteRecord(record);
    }

    method RecordRelaySubmitted(request: Request, txHash: Hex) returns (record: RelayRecord)
      modifies this`entries
      ensures record == SubmittedRecord(request, txHash)
      ensures Read(entries, now, NullifierKeyOf(request)) == Read(entries, now, CalldataKeyOf(request)) == Some(record)
      ensures forall k :: k != NullifierKeyOf(request) && k != CalldataKeyOf(request) ==>
        Read(entries, now, k) == Read(old(entries), now, k)
    {
      record := SubmittedRecord(request, txHash);
      WriteRecord(record);
    }
  }

  // What the decision means.

  predicate IsPendingOrSent(record: RelayRecord) {
    record.status.Pending? || record.txHash.Some?
  }

  /** A request is ready exactly when no live record stands under either key; it is in conflict exactly when
      its nullifier's record is of other calldata and none stands under its own; and what is replayed has a
      transaction hash. */
  lemma DecidesIff(entries: map<Key, Entry>, now: int, request: Request)
    requires forall k :: k in entries ==> IsPendingOrSent(entries[k].record)
    ensures var decision := DecideAt(entries, now, request);
      var held := Read(entries, now, NullifierKey(request.chainId, request.pool, request.nullifier));
      var own := Read(entries, now, CalldataKey(request.chainId, request.pool, request.calldataHash));
      && (decision.Ready? <==> held.None? && own.None?)
      && (decision.Conflict? <==>
          own.None? && held.Some? && held.value.request.calldataHash != request.calldataHash)
      && (decision.AlreadySubmitted? ==> decision.record.txHash.Some?)
  {
  }

  /** Writing and then deciding, while the record lives: its calldata is told pending or its transaction hash,
      other calldata for its nullifier gets conflict unless it has a record of its own, and every other request
      is answered as before. */
  lemma WrittenRecordAnswers(entries: map<Key, Entry>, now: int, later: int, record: RelayRecord, request: Request)
    requires now <= later < now + 3600 && IsPendingOrSent(record)
    ensures var decision := DecideAt(Written(entries, now, record), later, request);
      var past := record.request;
      if request.chainId == past.chainId && request.pool == past.pool && request.calldataHash == past.calldataHash then
        decision == if record.status == Submitted then AlreadySubmitted(record) else AlreadyPending(record)
      else if request.chainId == past.chainId && request.pool == past.pool && request.nullifier == past.nullifier then
        (Read(entries, later, CalldataKeyOf(request)).None? ==> decision == Conflict) && decision != Ready
      else decision == DecideAt(entries, later, request)
  {
  }

  /** After an hour neither key reads the record any more. */
  lemma WrittenRecordExpires(entries: map<Key, Entry>, now: int, later: int, record: RelayRecord)
    requires now + 3600 <= later
    ensures Read(Written(entries, now, record), later, NullifierKeyOf(record.request)).None?
    ensures Read(Written(entries, now, record), later, CalldataKeyOf(record.request)).None?
  {
  }
}
