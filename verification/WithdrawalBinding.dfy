/** The builder, the relay and the indexer agree on what binds a withdrawal.
    About createWithdrawChangeV1_1 of packages/core/src/proofs.ts, validateWithdrawalRelayCalldata of
    services/relay/src/withdrawalCalldata.ts, and the binding checks of services/indexer/src/encryptedNotes.ts. */
module WithdrawalBinding {
  import opened Wrappers
  import opened WithdrawalCore
  import opened MainnetDenominations
  import opened WithdrawalIdentity
  import Relay = WithdrawalRelay
  import Indexer = WithdrawalIndexer

  // From the builder to the relay.

  /** The relay request that carries a built withdrawal, without a fee policy. */
  predicate CarriesBuilt(r: Relay.Request, input: ChangeInput, built: WithdrawChange) {
    && IsUint256(input.grossAmount) && IsUint256(input.policy.minNetAmount) && IsUint256(input.policy.maxFeeAmount)
    && r.data == Relay.BoundedChange(
        Relay.CallArgs(built.publicInputs, input.nullifier, input.destination, input.grossAmount),
        input.encryptedChangeNote, input.policy.minNetAmount, input.policy.maxFeeAmount)
    && r.chainId == input.chainId && r.pool == input.pool && r.mode == Relay.V11 && r.feePolicy == None
    && (r.expectedPolicyHash.Some? ==> r.expectedPolicyHash.value == built.relayerPolicyHash)
  }

  /** The policy of the input is the one the contract builds. */
  predicate HasZeroPolicy(h: Hashes, p: PolicyInput) {
    && Default(p.domain, h.tag(RelayerPolicyTag)) == h.tag(RelayerPolicyTag) && Default(p.version, 1) == 1
    && p.relayer == 0 && p.deadlineOrZero == 0
  }

  /** Supported denominations, a short note, and bounds the fee keeps. */
  predicate Relayable(input: ChangeInput) {
    && IsMainnet(input.noteAmount) && IsMainnet(input.grossAmount) && IsMainnet(input.changeAmount)
    && |input.encryptedChangeNote| <= 2048
    && input.fee <= input.policy.maxFeeAmount <= input.grossAmount
    && input.policy.minNetAmount <= input.grossAmount - input.fee
  }

  /** The policy record of the builder. */
  function BuilderPolicy(h: Hashes, p: PolicyInput): RelayerPolicy {
    RelayerPolicy(Default(p.domain, h.tag(RelayerPolicyTag)), Default(p.version, 1), p.relayer, p.minNetAmount,
                  p.maxFeeAmount, p.deadlineOrZero)
  }

  function BuilderNote(h: Hashes, input: ChangeInput): EncryptedNote {
    NoteRecord(h, h.tag(ShapeV11), Default(input.selector, WITHDRAW_CHANGE_BOUNDED), FactsOf(input),
               input.newCommitment, input.changeAmount, input.encryptedChangeNote)
  }

  function BuilderContext(h: Hashes, input: ChangeInput, policyHash: Bytes32, deadline: int): ProofContext {
    ContextRecord(h, h.tag(ShapeV11), Default(input.selector, WITHDRAW_CHANGE_BOUNDED), FactsOf(input),
                  h.note(BuilderNote(h, input)), policyHash, deadline)
  }

  /** What the builder hashed, and its public inputs. */
  lemma BuiltHashes(h: Hashes, input: ChangeInput)
    requires CreateWithdrawChange(h, input).Success?
    ensures Buildable(input) && InRange(FactsOf(input))
    ensures var built := CreateWithdrawChange(h, input).value;
      && built.encryptedNoteHash == h.note(BuilderNote(h, input))
      && built.relayerPolicyHash == h.policy(BuilderPolicy(h, input.policy))
      && built.proofContextHash == h.context(
          BuilderContext(h, input, built.relayerPolicyHash, input.policy.deadlineOrZero))
      && built.publicInputs == TwelveInputs(FactsOf(input), built.proofContextHash, built.encryptedNoteHash)
  {
  }

  /** The relay reads back the fields of the built withdrawal. */
  lemma CarriedInputs(h: Hashes, r: Relay.Request, input: ChangeInput)
    requires CreateWithdrawChange(h, input).Success? && CarriesBuilt(r, input, CreateWithdrawChange(h, input).value)
    ensures Relay.DecodeCall(r.data).Success?
    ensures |CallOf(r).publicInputs| == 12 && Relay.InputsRepeatCall(r, CallOf(r))
    ensures Relay.ExpectedFee(r, input.grossAmount) == input.fee
  {
    BuiltHashes(h, input);
  }

  /** The preflight input of a carried withdrawal. */
  function CarriedPreflight(h: Hashes, r: Relay.Request, input: ChangeInput, built: WithdrawChange): Relay.Preflight {
    Relay.Preflight(input.chainId, input.pool, Some(WITHDRAW_CHANGE_BOUNDED), input.root, input.nullifier,
                    input.destination, input.grossAmount, input.fee, input.noteAmount, input.newCommitment,
                    input.changeAmount, input.encryptedChangeNote,
                    Relay.PolicyArgs(0, input.policy.minNetAmount, input.policy.maxFeeAmount, 0),
                    built.encryptedNoteHash, built.proofContextHash, r.expectedPolicyHash, Some(h.tag(ShapeV11)),
                    None, None, None)
  }

  lemma CarriedPreflightIs(h: Hashes, r: Relay.Request, input: ChangeInput)
    requires CreateWithdrawChange(h, input).Success? && CarriesBuilt(r, input, CreateWithdrawChange(h, input).value)
    ensures Relay.DecodeCall(r.data).Success?
    ensures Relay.PreflightOf(h, r, CallOf(r)) == CarriedPreflight(h, r, input, CreateWithdrawChange(h, input).value)
  {
  }

  // The records the relay rebuilds for a carried withdrawal.

  function ZeroPolicy(h: Hashes, p: PolicyInput): RelayerPolicy {
    PolicyRecord(h, 0, p.minNetAmount, p.maxFeeAmount, 0)
  }

  function RebuiltNote(h: Hashes, input: ChangeInput): EncryptedNote {
    NoteRecord(h, h.tag(ShapeV11), WITHDRAW_CHANGE_BOUNDED, FactsOf(input), input.newCommitment, input.changeAmount,
               input.encryptedChangeNote)
  }

  function RebuiltContext(h: Hashes, input: ChangeInput): ProofContext {
    ContextRecord(h, h.tag(ShapeV11), WITHDRAW_CHANGE_BOUNDED, FactsOf(input), h.note(RebuiltNote(h, input)),
                  h.policy(ZeroPolicy(h, input.policy)), 0)
  }

  /** What the relay recomputes for a carried withdrawal. */
  lemma CarriedRecompute(h: Hashes, r: Relay.Request, input: ChangeInput)
    requires CreateWithdrawChange(h, input).Success? && CarriesBuilt(r, input, CreateWithdrawChange(h, input).value)
    ensures Relay.Recompute(h, CarriedPreflight(h, r, input, CreateWithdrawChange(h, input).value),
                            WITHDRAW_CHANGE_BOUNDED)
         == Success(Relay.Recomputed(h.note(RebuiltNote(h, input)), h.policy(ZeroPolicy(h, input.policy)),
                                     h.context(RebuiltContext(h, input))))
  {
  }

  /** The record the builder hashed for the context of its withdrawal. */
  function BuiltContext(h: Hashes, input: ChangeInput): ProofContext {
    BuilderContext(h, input, h.policy(BuilderPolicy(h, input.policy)), input.policy.deadlineOrZero)
  }

  /** A record the builder hashed collides with the one the relay rebuilds in its place. */
  predicate BuiltCollides(h: Hashes, input: ChangeInput) {
    || Collide(h.note, BuilderNote(h, input), RebuiltNote(h, input))
    || Collide(h.policy, BuilderPolicy(h, input.policy), ZeroPolicy(h, input.policy))
    || Collide(h.context, BuiltContext(h, input), RebuiltContext(h, input))
  }

  /** The withdrawal is built for the selector that the relay's calldata has. */
  predicate IsBoundedChange(input: ChangeInput) {
    Default(input.selector, WITHDRAW_CHANGE_BOUNDED) == WITHDRAW_CHANGE_BOUNDED
  }

  /** A built withdrawal of the bounded selector with the contract's policy, supported denominations, a short
      note and kept bounds is accepted by the relay. */
  lemma BuiltIsAccepted(h: Hashes, r: Relay.Request, input: ChangeInput)
    requires CreateWithdrawChange(h, input).Success? && CarriesBuilt(r, input, CreateWithdrawChange(h, input).value)
    requires IsBoundedChange(input) && HasZeroPolicy(h, input.policy) && Relayable(input)
    ensures Relay.RelayAccepts(h, r) && !BuiltCollides(h, input)
  {
    BuiltHashes(h, input);
    CarriedInputs(h, r, input);
    CarriedPreflightIs(h, r, input);
    CarriedRecompute(h, r, input);
    assert BuilderPolicy(h, input.policy) == ZeroPolicy(h, input.policy);
    assert BuilderNote(h, input) == RebuiltNote(h, input);
  }

  /** The conditions are also necessary, unless a record collides. */
  lemma AcceptedBuiltIsRelayable(h: Hashes, r: Relay.Request, input: ChangeInput)
    requires CreateWithdrawChange(h, input).Success? && CarriesBuilt(r, input, CreateWithdrawChange(h, input).value)
    requires Relay.RelayAccepts(h, r) && !BuiltCollides(h, input)
    ensures IsBoundedChange(input) && HasZeroPolicy(h, input.policy) && Relayable(input)
  {
    BuiltHashes(h, input);
    CarriedInputs(h, r, input);
    CarriedPreflightIs(h, r, input);
    CarriedRecompute(h, r, input);
    assert BuilderNote(h, input) == RebuiltNote(h, input);
    assert BuiltContext(h, input) == RebuiltContext(h, input);
  }

  /** The relay accepts a built withdrawal, without a collision, exactly when it is built for the bounded
      selector, relayable, and under the contract's policy. */
  lemma BuiltIsAcceptedIff(h: Hashes, r: Relay.Request, input: ChangeInput)
    requires CreateWithdrawChange(h, input).Success? && CarriesBuilt(r, input, CreateWithdrawChange(h, input).value)
    ensures Relay.RelayAccepts(h, r) && !BuiltCollides(h, input)
       <==> IsBoundedChange(input) && HasZeroPolicy(h, input.policy) && Relayable(input)
  {
    if IsBoundedChange(input) && HasZeroPolicy(h, input.policy) && Relayable(input) {
      BuiltIsAccepted(h, r, input);
    } else if Relay.RelayAccepts(h, r) && !BuiltCollides(h, input) {
      AcceptedBuiltIsRelayable(h, r, input);
    }
  }

  // From the relay to the indexer: private change.

  /** The indexer input that describes a private-change call: the same fields, the rebuilt policy hash, and the
      event of the withdrawal or none. */
  predicate DescribesChange(h: Hashes, x: Indexer.ChangeBinding, r: Relay.Request, call: Relay.RelayCall) {
    var p := Relay.PreflightOf(h, r, call);
    && x.chainId == r.chainId && x.pool == r.pool && Default(x.selector, WITHDRAW_CHANGE_BOUNDED) == call.selector
    && x.nullifier == call.nullifier && x.noteAmount == p.note && x.grossAmount == call.gross && x.fee == p.fee
    && x.changeCommitment == p.changeCommitment && x.changeAmount == p.changeAmount
    && x.encryptedChangeNote == p.encryptedChangeNote && x.encryptedNoteHash == p.encryptedNoteHash
    && Indexer.OneOutput(x) && Indexer.ChangeEventMatches(x)
    && DescribesContext(h, x, p)
  }

  /** All of the proof context is given, with the hash of the policy the contract builds. */
  predicate DescribesContext(h: Hashes, x: Indexer.ChangeBinding, p: Relay.Preflight) {
    && x.root == Some(p.root) && x.destination == Some(p.destination) && x.deadline == Some(p.policy.deadlineOrZero)
    && x.proofContextHash == Some(p.proofContextHash)
    && x.policyHash
    == Some(h.policy(PolicyRecord(h, p.policy.relayer, p.policy.minNetAmount, p.policy.maxFeeAmount,
                                  p.policy.deadlineOrZero)))
  }

  /** An accepted call with a private change output. */
  predicate AcceptedChange(h: Hashes, r: Relay.Request) {
    && r.mode == Relay.V11 && Relay.RelayAccepts(h, r) && CallOf(r).hasChangeNote
    && !Relay.IsUnifiedExit(Relay.PreflightOf(h, r, CallOf(r)))
  }

  /** The note record whose hash the indexer recomputes. */
  function IndexedNote(h: Hashes, x: Indexer.ChangeBinding): EncryptedNote {
    NoteRecord(h, Indexer.ShapeOf(h, x), Indexer.SelectorOf(x), Indexer.BindingFacts(x), x.changeCommitment,
               x.changeAmount, x.encryptedChangeNote)
  }

  /** An accepted private change is bound by the indexer, without a collision of the two note records, exactly
      when the indexer is given the relay's shape. The indexer's default is the shape the relay uses without a
      fee policy. */
  lemma AcceptedChangeIsBoundIff(h: Hashes, r: Relay.Request, x: Indexer.ChangeBinding)
    requires AcceptedChange(h, r) && DescribesChange(h, x, r, CallOf(r))
    ensures Indexer.BindsChange(h, x) && !NotesCollide(h, NoteOf(h, r), Encrypted(IndexedNote(h, x)))
       <==> Indexer.ShapeOf(h, x) == Relay.ShapeOf(r, h)
  {
    AcceptedIsHashed(h, r);
  }

  // A change that is accepted under a fee policy, and not bound by default.

  const FIVE_MILLI: int := 5_000_000_000_000_000

  /** The facts of a withdrawal of half a note of 0.01 ETH at the active fee of 33. */
  function SampleFacts(): Facts {
    Facts(1, 2, 3, 4, FIVE_MILLI, 16_500_000_000_000, 4326, 5, 6, 2 * FIVE_MILLI)
  }

  function SampleNote(h: Hashes): EncryptedNote {
    NoteRecord(h, h.tag(ShapeV12), WITHDRAW_CHANGE_BOUNDED, SampleFacts(), 3, FIVE_MILLI, [1])
  }

  function SampleContext(h: Hashes): ProofContext {
    ContextRecord(h, h.tag(ShapeV12), WITHDRAW_CHANGE_BOUNDED, SampleFacts(), h.note(SampleNote(h)),
                  h.policy(PolicyRecord(h, 0, 0, FIVE_MILLI, 0)), 0)
  }

  function SampleRequest(h: Hashes): Relay.Request {
    var inputs := TwelveInputs(SampleFacts(), h.context(SampleContext(h)), h.note(SampleNote(h)));
    Relay.Request(Relay.BoundedChange(Relay.CallArgs(inputs, 2, 4, FIVE_MILLI), [1], 0, FIVE_MILLI), 4326, 5, Relay.V11,
                  None, None, None, Some(Relay.FeePolicy(33, None, None, None)))
  }

  /** The binding that the indexer's caller makes of it, without a shape and an event. */
  function SampleBinding(h: Hashes): Indexer.ChangeBinding {
    Indexer.ChangeBinding(
      4326, 5, None, None, 2, 2 * FIVE_MILLI, FIVE_MILLI, 16_500_000_000_000, 3, FIVE_MILLI, [1],
      h.note(SampleNote(h)), None, None, None, Some(h.context(SampleContext(h))), Some(1), Some(4),
      Some(h.policy(PolicyRecord(h, 0, 0, FIVE_MILLI, 0))), Some(0), None)
  }

  lemma SampleIsAccepted(h: Hashes)
    ensures AcceptedChange(h, SampleRequest(h))
    ensures DescribesChange(h, SampleBinding(h), SampleRequest(h), CallOf(SampleRequest(h)))
  {
  }

  /** Without the shape the promise fails: whatever the hashes, a change is accepted under a fee policy and,
      unless the two shape tags or the two note records have one hash, not bound. */
  lemma FeePolicyChangeIsNotBound(h: Hashes) returns (r: Relay.Request, x: Indexer.ChangeBinding)
    ensures AcceptedChange(h, r) && DescribesChange(h, x, r, CallOf(r)) && r.feePolicy.Some? && x.shape == None
    ensures Indexer.BindsChange(h, x) ==>
      h.tag(ShapeV11) == h.tag(ShapeV12) || NotesCollide(h, NoteOf(h, r), Encrypted(IndexedNote(h, x)))
  {
    r, x := SampleRequest(h), SampleBinding(h);
    SampleIsAccepted(h);
    AcceptedChangeIsBoundIff(h, r, x);
  }

  /** From the builder through the relay to the indexer, whose default shape is the builder's. */
  lemma BuiltIsBound(h: Hashes, r: Relay.Request, input: ChangeInput, x: Indexer.ChangeBinding)
    requires CreateWithdrawChange(h, input).Success? && CarriesBuilt(r, input, CreateWithdrawChange(h, input).value)
    requires IsBoundedChange(input) && HasZeroPolicy(h, input.policy) && Relayable(input)
    requires Relay.DecodeCall(r.data).Success? && DescribesChange(h, x, r, CallOf(r)) && x.shape == None
    ensures Indexer.BindsChange(h, x)
  {
    BuiltIsAccepted(h, r, input);
    CarriedPreflightIs(h, r, input);
    BuiltHashes(h, input);
    AcceptedChangeIsBoundIff(h, r, x);
  }

  // The relay's preflight and the indexer's check, on any input.

  /** The same change, with any event, and any part of the context of the preflight. */
  predicate SameChange(h: Hashes, p: Relay.Preflight, x: Indexer.ChangeBinding) {
    && x.chainId == p.chainId && x.pool == p.pool && x.selector == p.selector && x.shape == p.shape
    && x.nullifier == p.nullifier && x.noteAmount == p.note && x.grossAmount == p.gross && x.fee == p.fee
    && x.changeCommitment == p.changeCommitment && x.changeAmount == p.changeAmount
    && x.encryptedChangeNote == p.encryptedChangeNote && x.encryptedNoteHash == p.encryptedNoteHash
    && x.outputCommitments == p.outputCommitments && x.encryptedChangeNotes == p.encryptedChangeNotes
    && x.changeAmounts == p.changeAmounts
    && (x.root.Some? ==> x.root.value == p.root) && (x.destination.Some? ==> x.destination.value == p.destination)
    && (x.deadline.Some? ==> x.deadline.value == p.policy.deadlineOrZero)
    && (x.proofContextHash.Some? ==> x.proofContextHash.value == p.proofContextHash)
    && (x.policyHash.Some? ==>
          x.policyHash.value == h.policy(PolicyRecord(h, p.policy.relayer, p.policy.minNetAmount,
                                                      p.policy.maxFeeAmount, p.policy.deadlineOrZero)))
  }

  predicate OnMainnet(p: Relay.Preflight) {
    IsMainnet(p.note) && IsMainnet(p.gross) && IsMainnet(p.changeAmount)
  }

  /** Every change on supported denominations that passes the relay's preflight is bound by the indexer, given
      its event or none. Given all of the context the converse holds too, for a policy that can be hashed and is
      the expected one. */
  lemma PreflightAgreesWithIndexer(h: Hashes, p: Relay.Preflight, x: Indexer.ChangeBinding)
    requires SameChange(h, p, x)
    ensures Relay.PreflightAccepts(h, p) && OnMainnet(p) && Indexer.ChangeEventMatches(x) ==> Indexer.BindsChange(h, x)
    ensures Indexer.HasContext(x) ==>
      (Relay.PreflightAccepts(h, p) && OnMainnet(p) && Indexer.ChangeEventMatches(x) <==>
       && Indexer.BindsChange(h, x) && Relay.PolicyHashOf(h, p.policy).Success?
       && (p.policyHash.Some? ==> p.policyHash == x.policyHash))
  {
  }

  // From the relay to the indexer: v1.2 output notes.

  /** The indexer input that describes a v1.2 call, with its event and approved readiness evidence. */
  predicate DescribesOutput(h: Hashes, x: Indexer.OutputBinding, r: Relay.Request, call: Relay.RelayCall) {
    var policy := Relay.ZeroRelayerPolicy(call);
    && x.chainId == r.chainId && x.pool == r.pool && Default(x.selector, WITHDRAW_CHANGE_BOUNDED) == call.selector
    && x.publicInputs == call.publicInputs && x.encryptedOutputNote == Default(call.encryptedChangeNote, [])
    && Indexer.OutputEventMatches(x) && Indexer.HasReadiness(x.evidence, x.chainId, x.pool) && x.legacy == {}
    && x.deadline == Some(0)
    && x.policyHash == Some(h.policy(PolicyRecord(h, 0, policy.minNetAmount, policy.maxFeeAmount, 0)))
  }

  /** A v1.2 call the relay accepts is bound without errors by the indexer. */
  lemma AcceptedOutputIsBound(h: Hashes, r: Relay.Request, x: Indexer.OutputBinding)
    requires r.mode == Relay.V12Unlinkable && Relay.RelayAccepts(h, r) && DescribesOutput(h, x, r, CallOf(r))
    ensures Indexer.BindsOutput(h, x)
  {
  }

  // What every accepted v1.1 call keeps.

  /** An accepted call splits the note into what the user receives, the fee and the change: the fee is at most
      one hundredth of the exit, the user receives at least the minimum, and the change is a supported note. */
  lemma AcceptedConserves(h: Hashes, r: Relay.Request)
    requires r.mode == Relay.V11 && Relay.RelayAccepts(h, r)
    ensures var call := CallOf(r);
      var fee := Relay.InputAt(call.publicInputs, 5);
      var net := call.gross - fee;
      var change := Relay.InputAt(call.publicInputs, 9) - net - fee;
      && 0 <= 100 * fee <= call.gross && net >= Default(call.minNetAmount, 0)
      && fee <= Default(call.maxFeeAmount, 0) && (change == 0 || IsMainnet(change))
  {
  }
}
