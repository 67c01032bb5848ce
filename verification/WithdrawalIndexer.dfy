/** The indexer's checks of withdrawal notes.
    Models validateStageCWithdrawChangeNoteIndexerBinding and
    validateV12UnlinkableWithdrawOutputNoteIndexerBinding of services/indexer/src/encryptedNotes.ts. */
module WithdrawalIndexer {
  import opened Wrappers
  import opened WithdrawalCore
  import MainnetDenominations

  const MAX_NOTE_BYTES: nat := 2048

  datatype EventType = DepositEvent | TransferEvent | WithdrawEvent | WithdrawChangeEvent | WithdrawOutputEvent

  datatype EventRecord = EventRecord(
    chainId: int, pool: Address, eventType: EventType, commitment: Bytes32, nullifier: Option<Bytes32>,
    encryptedNote: Bytes)

  datatype ChangeBinding = ChangeBinding(
    chainId: int, pool: Address, selector: Option<int>, shape: Option<Bytes32>, nullifier: Bytes32,
    noteAmount: int, grossAmount: int, fee: int, changeCommitment: Bytes32, changeAmount: int,
    encryptedChangeNote: Bytes, encryptedNoteHash: Bytes32,
    outputCommitments: Option<seq<Bytes32>>, encryptedChangeNotes: Option<seq<Bytes>>,
    changeAmounts: Option<seq<int>>, proofContextHash: Option<Bytes32>, root: Option<Bytes32>,
    destination: Option<Address>, policyHash: Option<Bytes32>, deadline: Option<int>, event: Option<EventRecord>)

  datatype IndexerError =
    | WrongSelector | CommitmentZero | NoteEmpty | NoteTooLong | ChangeNotPositive | NoteUnsupported | GrossUnsupported
    | ChangeUnsupported | FeeExceedsGross | ValueNotConserved | OutputCount | OutputCommitmentDiffers
    | OutputNoteDiffers | OutputAmountDiffers | EventChainDiffers | EventPoolDiffers | EventTypeDiffers
    | EventCommitmentDiffers | EventNoteDiffers | EventNullifierDiffers | NoteHashDiffers | ContextHashDiffers
    | NotReady | InputCount | InputsExposeNote | LegacyAmounts | LegacyNoteHash | LegacyChange | LegacyNotes
    | LegacyOutputs | ChainDiffers | PoolDiffers | NullifierZero | EnvelopeInvalid | EventMissing

  datatype Limitation = ContextIncomplete | ContextMissing

  datatype Bound = Bound(
    noteHash: Bytes32, contextHash: Option<Bytes32>, errors: seq<IndexerError>, limitations: seq<Limitation>)

  // A private change.

  function BindingFacts(x: ChangeBinding): Facts {
    Facts(Default(x.root, 0), x.nullifier, x.changeCommitment, Default(x.destination, 0), x.grossAmount, x.fee,
          x.chainId, x.pool, 0, x.noteAmount)
  }

  function SelectorOf(x: ChangeBinding): int {
    Default(x.selector, WITHDRAW_CHANGE_BOUNDED)
  }

  function ShapeOf(h: Hashes, x: ChangeBinding): Bytes32 {
    Default(x.shape, h.tag(ShapeV11))
  }

  function ChangeNoteHash(h: Hashes, x: ChangeBinding): Result<Bytes32, CoreError> {
    HashNote(h, NoteRecord(h, ShapeOf(h, x), SelectorOf(x), BindingFacts(x), x.changeCommitment, x.changeAmount,
                           x.encryptedChangeNote))
  }

  predicate HasContext(x: ChangeBinding) {
    x.root.Some? && x.destination.Some? && x.policyHash.Some? && x.deadline.Some? && x.proofContextHash.Some?
  }

  predicate HasSomeContext(x: ChangeBinding) {
    x.root.Some? || x.destination.Some? || x.policyHash.Some? || x.deadline.Some? || x.proofContextHash.Some?
  }

  function ChangeContextHash(h: Hashes, x: ChangeBinding): Result<Bytes32, CoreError>
    requires HasContext(x)
  {
    var noteHash :- ChangeNoteHash(h, x);
    HashContext(h, ContextRecord(h, ShapeOf(h, x), SelectorOf(x), BindingFacts(x), noteHash, x.policyHash.value,
                                 x.deadline.value))
  }

  predicate OneOutput(x: ChangeBinding) {
    && Default(x.outputCommitments, [x.changeCommitment]) == [x.changeCommitment]
    && Default(x.encryptedChangeNotes, [x.encryptedChangeNote]) == [x.encryptedChangeNote]
    && Default(x.changeAmounts, [x.changeAmount]) == [x.changeAmount]
  }

  /** An event is the one that the withdrawal emits. */
  predicate EventMatches(e: EventRecord, kind: EventType, chainId: int, pool: Address, commitment: Bytes32,
      nullifier: Bytes32, note: Bytes)
  {
    && e.chainId == chainId && e.pool == pool && e.eventType == kind && e.commitment == commitment
    && e.encryptedNote == note && (e.nullifier.Some? ==> e.nullifier.value == nullifier)
  }

  predicate ChangeEventMatches(x: ChangeBinding) {
    x.event.Some? ==>
      EventMatches(x.event.value, WithdrawChangeEvent, x.chainId, x.pool, x.changeCommitment, x.nullifier,
                   x.encryptedChangeNote)
  }

  /** A change output of supported denominations that conserves value. */
  predicate SoundBinding(x: ChangeBinding) {
    && SelectorOf(x) == WITHDRAW_CHANGE_BOUNDED && x.changeCommitment != 0
    && 0 < |x.encryptedChangeNote| <= MAX_NOTE_BYTES && x.changeAmount > 0
    && MainnetDenominations.IsMainnet(x.noteAmount) && MainnetDenominations.IsMainnet(x.grossAmount)
    && MainnetDenominations.IsMainnet(x.changeAmount)
    && x.fee <= x.grossAmount && x.noteAmount == x.grossAmount + x.changeAmount
    && OneOutput(x) && ChangeEventMatches(x)
  }

  /** What the indexer binds without errors. */
  predicate BindsChange(h: Hashes, x: ChangeBinding) {
    && SoundBinding(x) && ChangeNoteHash(h, x) == Success(x.encryptedNoteHash)
    && (HasContext(x) ==> ChangeContextHash(h, x) == Success(x.proofContextHash.value))
  }

  method CheckOutputs(x: ChangeBinding) returns (errors: seq<IndexerError>)
    ensures errors == [] <==> OneOutput(x)
  {
    errors := [];
    var commitments := Default(x.outputCommitments, [x.changeCommitment]);
    var notes := Default(x.encryptedChangeNotes, [x.encryptedChangeNote]);
    var amounts := Default(x.changeAmounts, [x.changeAmount]);
    if |commitments| != 1 || |notes| != 1 || |amounts| != 1 {
      errors := [OutputCount];
    } else {
      errors := PushIf(errors, commitments[0] != x.changeCommitment, OutputCommitmentDiffers);
      errors := PushIf(errors, notes[0] != x.encryptedChangeNote, OutputNoteDiffers);
      errors := PushIf(errors, amounts[0] != x.changeAmount, OutputAmountDiffers);
    }
  }

  method CheckEvent(e: EventRecord, kind: EventType, chainId: int, pool: Address, commitment: Bytes32,
      nullifier: Bytes32, note: Bytes) returns (errors: seq<IndexerError>)
    ensures errors == [] <==> EventMatches(e, kind, chainId, pool, commitment, nullifier, note)
  {
    errors := PushIf([], e.chainId != chainId, EventChainDiffers);
    errors := PushIf(errors, e.pool != pool, EventPoolDiffers);
    errors := PushIf(errors, e.eventType != kind, EventTypeDiffers);
    errors := PushIf(errors, e.commitment != commitment, EventCommitmentDiffers);
    errors := PushIf(errors, e.encryptedNote != note, EventNoteDiffers);
    errors := PushIf(errors, e.nullifier.Some? && e.nullifier.value != nullifier, EventNullifierDiffers);
  }

  method CheckChange(x: ChangeBinding) returns (errors: seq<IndexerError>)
    ensures errors == [] <==> SoundBinding(x)
  {
    errors := PushIf([], SelectorOf(x) != WITHDRAW_CHANGE_BOUNDED, WrongSelector);
    errors := PushIf(errors, x.changeCommitment == 0, CommitmentZero);
    errors := PushIf(errors, |x.encryptedChangeNote| == 0, NoteEmpty);
    errors := PushIf(errors, |x.encryptedChangeNote| > MAX_NOTE_BYTES, NoteTooLong);
    errors := PushIf(errors, x.changeAmount <= 0, ChangeNotPositive);
    errors := PushIf(errors, !MainnetDenominations.IsMainnet(x.noteAmount), NoteUnsupported);
    errors := PushIf(errors, !MainnetDenominations.IsMainnet(x.grossAmount), GrossUnsupported);
    errors := PushIf(errors, !MainnetDenominations.IsMainnet(x.changeAmount), ChangeUnsupported);
    errors := PushIf(errors, x.fee > x.grossAmount, FeeExceedsGross);
    errors := PushIf(errors, x.noteAmount != x.grossAmount + x.changeAmount, ValueNotConserved);
    var outputErrors := CheckOutputs(x);
    var eventErrors: seq<IndexerError> := [];
    if x.event.Some? {
      eventErrors := CheckEvent(x.event.value, WithdrawChangeEvent, x.chainId, x.pool, x.changeCommitment, x.nullifier,
        x.encryptedChangeNote);
    }
    errors := errors + outputErrors + eventErrors;
  }

  method ValidateChangeBinding(h: Hashes, x: ChangeBinding) returns (o: Result<Bound, CoreError>)
    ensures (o.Success? && o.value.errors == []) <==> BindsChange(h, x)
    ensures o.Success? ==> (o.value.limitations == [] <==> HasContext(x))
    ensures o.Failure? <==> ChangeNoteHash(h, x).Failure? || (HasContext(x) && ChangeContextHash(h, x).Failure?)
  {
    var errors := CheckChange(x);
    var noteHash := ChangeNoteHash(h, x);
    if noteHash.Failure? {
      return Failure(noteHash.error);
    }
    errors := PushIf(errors, noteHash.value != x.encryptedNoteHash, NoteHashDiffers);
    if HasContext(x) {
      var contextHash := ChangeContextHash(h, x);
      if contextHash.Failure? {
        return Failure(contextHash.error);
      }
      errors := PushIf(errors, contextHash.value != x.proofContextHash.value, ContextHashDiffers);
      return Success(Bound(noteHash.value, Some(contextHash.value), errors, []));
    } else if HasSomeContext(x) {
      return Success(Bound(noteHash.value, None, errors, [ContextIncomplete]));
    }
    return Success(Bound(noteHash.value, None, errors, [ContextMissing]));
  }

  // A v1.2 output note.

  datatype RuntimeId = MainnetRuntime | FeeGovernanceRuntime | TestnetRehearsalRuntime | OtherRuntime

  datatype Evidence = Evidence(
    runtimeId: RuntimeId, chainId: int, pool: Address, ready: bool, mainnetBlocked: bool, finalReadiness: bool,
    sha256: Bytes32)

  datatype Readiness = Readiness(runtimeId: RuntimeId, chainId: int, pool: Address, approved: set<Bytes32>)

  const MAINNET_POOL: Address := 0x08bA57aA9Bc13Ccaf0dda0Fb7Cd7A2570b0FE4d8
  const TESTNET_POOL: Address := 0xEc61D863700DeF260E7BABA634FAa24AEC81f29e
  const PUBLIC_RUNTIME_HASH: Bytes32 := 0x66def458e16ea6ed9d1df9c15a79ec83c23d4d4ccdec631d868f614cc0e94ff4
  const TRUSTED_SETUP_HASH: Bytes32 := 0xb87aa47a407f0347a920fcebe76f84d402be8bd5e82f5fe5980ffea557bfa996
  const TESTNET_SETUP_HASH: Bytes32 := 0x7cf2ba6c7d482179a5a246ad4fa0ab7c4bbebb6a48108d0fe0963b8a364c825e

  function ReadinessOf(id: RuntimeId): Option<Readiness> {
    match id
    case MainnetRuntime =>
      Some(Readiness(MainnetRuntime, 4326, MAINNET_POOL, {PUBLIC_RUNTIME_HASH, TRUSTED_SETUP_HASH}))
    case FeeGovernanceRuntime =>
      Some(Readiness(FeeGovernanceRuntime, 4326, MAINNET_POOL, {PUBLIC_RUNTIME_HASH, TRUSTED_SETUP_HASH}))
    case TestnetRehearsalRuntime =>
      Some(Readiness(TestnetRehearsalRuntime, 6343, TESTNET_POOL, {TESTNET_SETUP_HASH}))
    case OtherRuntime => None
  }

  /** The evidence approves the runtime for the chain and the pool. */
  predicate HasReadiness(evidence: Option<Evidence>, chainId: int, pool: Address) {
    && evidence.Some?
    && var e := evidence.value;
      var binding := ReadinessOf(e.runtimeId);
      && binding.Some? && binding.value.chainId == chainId && binding.value.pool == pool
      && e.ready && !e.mainnetBlocked && e.finalReadiness
      && e.chainId == binding.value.chainId && e.pool == binding.value.pool && e.sha256 in binding.value.approved
  }

  /** Fields of earlier versions, which an input must not carry. */
  datatype LegacyField =
    | SpentCommitmentField | NoteAmountField | NoteHashField | ChangeCommitmentField | ChangeAmountField
    | ChangeNoteField | ChangeNotesField | OutputCommitmentsField | ChangeAmountsField

  datatype OutputBinding = OutputBinding(
    chainId: int, pool: Address, selector: Option<int>, publicInputs: seq<Bytes32>, encryptedOutputNote: Bytes,
    policyHash: Option<Bytes32>, deadline: Option<int>, event: Option<EventRecord>, evidence: Option<Evidence>,
    legacy: set<LegacyField>)

  /** `publicInputs[k] ?? ZERO_BYTES32`. */
  function InputAt(x: OutputBinding, k: nat): Bytes32 {
    if k < |x.publicInputs| then x.publicInputs[k] else 0
  }

  /** The last twenty bytes of a word. */
  function LowAddress(w: Bytes32): Address {
    w % TWO160
  }

  function OutputSelector(x: OutputBinding): int {
    Default(x.selector, WITHDRAW_CHANGE_BOUNDED)
  }

  function OutputHash(h: Hashes, x: OutputBinding): Bytes32 {
    h.output(OutputNote(h.tag(OutputNoteTag), 2, x.chainId, x.pool, h.tag(ShapeV12), OutputSelector(x),
                        InputAt(x, 1), InputAt(x, 2), h.ciphertext(x.encryptedOutputNote)))
  }

  predicate HasHints(x: OutputBinding) {
    x.policyHash.Some? && x.deadline.Some?
  }

  function OutputContextHash(h: Hashes, x: OutputBinding): Result<Bytes32, CoreError>
    requires HasHints(x)
  {
    var f := Facts(InputAt(x, 0), InputAt(x, 1), InputAt(x, 2), LowAddress(InputAt(x, 3)), InputAt(x, 4), InputAt(x, 5),
                   x.chainId, x.pool, 0, 0);
    HashContext(h, ContextRecord(h, h.tag(ShapeV12), OutputSelector(x), f, OutputHash(h, x), x.policyHash.value,
                                 x.deadline.value))
  }

  predicate NoLegacyFields(x: OutputBinding) {
    x.legacy == {}
  }

  predicate SoundOutput(h: Hashes, x: OutputBinding) {
    && InputAt(x, 6) == x.chainId && LowAddress(InputAt(x, 7)) == x.pool
    && InputAt(x, 1) != 0 && InputAt(x, 2) != 0 && 0 < |x.encryptedOutputNote| <= MAX_NOTE_BYTES
    && h.sealed(x.encryptedOutputNote, x.chainId, x.pool, InputAt(x, 2))
  }

  predicate OutputEventMatches(x: OutputBinding) {
    && x.event.Some?
    && EventMatches(x.event.value, WithdrawOutputEvent, x.chainId, x.pool, InputAt(x, 2), InputAt(x, 1),
                    x.encryptedOutputNote)
  }

  /** What the indexer binds without errors. */
  predicate BindsOutput(h: Hashes, x: OutputBinding) {
    && OutputSelector(x) == WITHDRAW_CHANGE_BOUNDED && HasReadiness(x.evidence, x.chainId, x.pool)
    && |x.publicInputs| == 10 && NoLegacyFields(x) && SoundOutput(h, x) && OutputEventMatches(x)
    && OutputHash(h, x) == InputAt(x, 9)
    && (HasHints(x) ==> OutputContextHash(h, x) == Success(InputAt(x, 8)))
  }

  method CheckLegacy(x: OutputBinding) returns (errors: seq<IndexerError>)
    ensures errors == [] <==> NoLegacyFields(x)
  {
    errors := PushIf([], SpentCommitmentField in x.legacy || NoteAmountField in x.legacy, LegacyAmounts);
    errors := PushIf(errors, NoteHashField in x.legacy, LegacyNoteHash);
    errors := PushIf(errors, ChangeCommitmentField in x.legacy || ChangeAmountField in x.legacy, LegacyChange);
    errors := PushIf(errors, ChangeNoteField in x.legacy || ChangeNotesField in x.legacy, LegacyNotes);
    errors := PushIf(errors, OutputCommitmentsField in x.legacy || ChangeAmountsField in x.legacy, LegacyOutputs);
    if errors == [] {
      EveryLegacyField(x.legacy);
    }
  }

  lemma EveryLegacyField(legacy: set<LegacyField>)
    requires SpentCommitmentField !in legacy && NoteAmountField !in legacy && NoteHashField !in legacy
    requires ChangeCommitmentField !in legacy && ChangeAmountField !in legacy && ChangeNoteField !in legacy
    requires ChangeNotesField !in legacy && OutputCommitmentsField !in legacy && ChangeAmountsField !in legacy
    ensures legacy == {}
  {
    forall f: LegacyField
      ensures f !in legacy
    {
      match f
      case SpentCommitmentField =>
      case NoteAmountField =>
      case NoteHashField =>
      case ChangeCommitmentField =>
      case ChangeAmountField =>
      case ChangeNoteField =>
      case ChangeNotesField =>
      case OutputCommitmentsField =>
      case ChangeAmountsField =>
    }
  }

  method CheckOutput(h: Hashes, x: OutputBinding) returns (errors: seq<IndexerError>)
    ensures errors == [] <==> SoundOutput(h, x)
  {
    errors := PushIf([], InputAt(x, 6) != x.chainId, ChainDiffers);
    errors := PushIf(errors, LowAddress(InputAt(x, 7)) != x.pool, PoolDiffers);
    errors := PushIf(errors, InputAt(x, 1) == 0, NullifierZero);
    errors := PushIf(errors, InputAt(x, 2) == 0, CommitmentZero);
    errors := PushIf(errors, |x.encryptedOutputNote| == 0, NoteEmpty);
    errors := PushIf(errors, |x.encryptedOutputNote| > MAX_NOTE_BYTES, NoteTooLong);
    errors := PushIf(errors,
      |x.encryptedOutputNote| > 0 && !h.sealed(x.encryptedOutputNote, x.chainId, x.pool, InputAt(x, 2)),
      EnvelopeInvalid);
  }

  method CheckOutputEvent(x: OutputBinding) returns (errors: seq<IndexerError>)
    ensures errors == [] <==> OutputEventMatches(x)
  {
    if x.event.None? {
      return [EventMissing];
    }
    errors := CheckEvent(x.event.value, WithdrawOutputEvent, x.chainId, x.pool, InputAt(x, 2), InputAt(x, 1),
      x.encryptedOutputNote);
  }

  method ValidateOutputBinding(h: Hashes, x: OutputBinding) returns (o: Result<Bound, CoreError>)
    ensures (o.Success? && o.value.errors == []) <==> BindsOutput(h, x)
    ensures o.Success? ==> (o.value.limitations == [] <==> HasHints(x))
    ensures o.Failure? <==> HasHints(x) && OutputContextHash(h, x).Failure?
  {
    var errors := PushIf([], OutputSelector(x) != WITHDRAW_CHANGE_BOUNDED, WrongSelector);
    errors := PushIf(errors, !HasReadiness(x.evidence, x.chainId, x.pool), NotReady);
    errors := PushIf(errors, |x.publicInputs| != 10, InputCount);
    errors := PushIf(errors, |x.publicInputs| != 10 && |x.publicInputs| >= 12, InputsExposeNote);
    var legacyErrors := CheckLegacy(x);
    var outputErrors := CheckOutput(h, x);
    var eventErrors := CheckOutputEvent(x);
    errors := errors + legacyErrors + outputErrors + eventErrors;
    var noteHash := OutputHash(h, x);
    errors := PushIf(errors, noteHash != InputAt(x, 9), NoteHashDiffers);
    if HasHints(x) {
      var contextHash := OutputContextHash(h, x);
      if contextHash.Failure? {
        return Failure(contextHash.error);
      }
      errors := PushIf(errors, contextHash.value != InputAt(x, 8), ContextHashDiffers);
      return Success(Bound(noteHash, Some(contextHash.value), errors, []));
    }
    return Success(Bound(noteHash, None, errors, [ContextMissing]));
  }
}
