/** The relay's checks of withdrawal calldata.
    Models validateWithdrawalRelayCalldata and the checks it runs, of
    services/relay/src/withdrawalCalldata.ts, from the decoded ABI parameters on. */
module WithdrawalRelay {
  import opened Wrappers
  import opened WithdrawalCore
  import MainnetDenominations

  const MAX_NOTE_BYTES: nat := 2048
  const MAX_FEE_BPS: int := 100
  const MAX_SAFE_INTEGER: int := 9_007_199_254_740_991

  datatype CallArgs = CallArgs(publicInputs: seq<Bytes32>, nullifier: Bytes32, destination: Address, gross: Bytes32)

  datatype PolicyArgs = PolicyArgs(relayer: Address, minNetAmount: int, maxFeeAmount: int, deadlineOrZero: int)

  /** Calldata by its selector, with the parameters its ABI decoding gives. */
  datatype Calldata =
    | NotCalldata
    | Undecodable
    | UnboundedWithdraw
    | UnboundedChange
    | UnknownSelector
    | BoundedWithdraw(args: CallArgs, minNet: Bytes32, maxFee: Bytes32)
    | PolicyWithdraw(args: CallArgs, policy: PolicyArgs)
    | BoundedChange(args: CallArgs, encryptedNote: Bytes, minNet: Bytes32, maxFee: Bytes32)

  datatype RelayCall = RelayCall(
    selector: int, hasChangeNote: bool, hasUserBounds: bool, publicInputs: seq<Bytes32>, nullifier: Bytes32,
    destination: Address, gross: Bytes32, encryptedChangeNote: Option<Bytes>, minNetAmount: Option<int>,
    maxFeeAmount: Option<int>, relayerPolicy: Option<PolicyArgs>, encryptedOutputNote: Option<Bytes>)

  datatype Mode = V11 | V12Unlinkable

  datatype FeePolicy = FeePolicy(
    activeFeeBps: int, pendingFeeBps: Option<int>, pendingActivation: Option<int>, now: Option<int>)

  datatype Request = Request(
    data: Calldata, chainId: int, pool: Address, mode: Mode, deadline: Option<int>,
    expectedRelayer: Option<Address>, expectedPolicyHash: Option<Bytes32>, feePolicy: Option<FeePolicy>)

  datatype RelayError =
    | CalldataNotHex | CalldataNotDecodable | BoundsRequired | UnboundedChangeRefused | SelectorUnsupported
    | InputCount | InputsExposeNote | NullifierDiffers | NullifierZero | DestinationDiffers | GrossDiffers | FeeDiffers
    | ActiveFeeOutOfBounds | PendingFeeOutOfBounds | PendingFeeBeforeDeadline | FeeIsPendingFee
    | ChainDiffers | PoolDiffers | SpentCommitmentZero | DestinationZero | GrossNotPositive | NoteNotPositive
    | NoteUnsupported | GrossUnsupported | GrossExceedsNote | NotFullNote | CreatesCommitment | CarriesNote
    | NoUserBounds | FeeAboveBound | NetBelowBound | FeeBoundAboveGross | NoteTooLong | ChangeUnsupported
    | WrongSelector | ChangeCommitmentZero | NoteEmpty | ChangeNotPositive | FeeExceedsGross | ValueNotConserved
    | OutputCount | OutputCommitmentDiffers | OutputNoteDiffers | OutputAmountDiffers
    | NoteHashDiffers | PolicyHashDiffers | ContextHashDiffers | DeadlineDiffers | RelayerDiffers
    | OutputCommitmentZero | OutputNoteMissing | EnvelopeInvalid

  // Reading the calldata.

  function CallOf(selector: int, args: CallArgs, note: Option<Bytes>, minNet: int, maxFee: int,
      policy: Option<PolicyArgs>): RelayCall
  {
    RelayCall(selector, note.Some?, true, args.publicInputs, args.nullifier, args.destination, args.gross, note,
              Some(minNet), Some(maxFee), policy, None)
  }

  function DecodeCall(data: Calldata): Result<RelayCall, RelayError> {
    match data
    case NotCalldata => Failure(CalldataNotHex)
    case Undecodable => Failure(CalldataNotDecodable)
    case UnboundedWithdraw => Failure(BoundsRequired)
    case UnboundedChange => Failure(UnboundedChangeRefused)
    case UnknownSelector => Failure(SelectorUnsupported)
    case BoundedWithdraw(args, minNet, maxFee) => Success(CallOf(WITHDRAW_BOUNDED, args, None, minNet, maxFee, None))
    case PolicyWithdraw(args, policy) =>
      Success(CallOf(WITHDRAW_RELAYER_POLICY, args, None, policy.minNetAmount, policy.maxFeeAmount, Some(policy)))
    case BoundedChange(args, note, minNet, maxFee) =>
      Success(CallOf(WITHDRAW_CHANGE_BOUNDED, args, Some(note), minNet, maxFee, None))
  }

  /** `publicInputs[k] ?? ZERO_BYTES32`. */
  function InputAt(p: seq<Bytes32>, k: nat): Bytes32 {
    if k < |p| then p[k] else 0
  }

  /** `(publicInputs[k] ?? "") === value`. */
  predicate InputIs(p: seq<Bytes32>, k: nat, value: int) {
    k < |p| && p[k] == value
  }

  // Fees.

  /** Division of bigints, which truncates toward zero. */
  function TruncatedQuotient(x: int, d: int): int
    requires d > 0
  {
    if x >= 0 then x / d else -(-x / d)
  }

  function FeeAt(gross: int, bps: int): int {
    TruncatedQuotient(gross * bps, BPS_DENOMINATOR)
  }

  function ExpectedFee(r: Request, gross: int): int {
    FeeAt(gross, if r.feePolicy.Some? then r.feePolicy.value.activeFeeBps else FEE_BPS)
  }

  predicate WithinFeeBounds(bps: int) {
    0 <= bps <= MAX_FEE_BPS
  }

  predicate PendingBeforeDeadline(p: FeePolicy, deadline: Option<int>) {
    p.pendingFeeBps.Some? && p.pendingActivation.Some? && deadline.Some? && p.pendingActivation.value <= deadline.value
  }

  predicate PendingChargedEarly(p: FeePolicy, gross: int, publicFee: int) {
    && p.pendingFeeBps.Some? && p.pendingActivation.Some? && p.now.Some?
    && p.now.value < p.pendingActivation.value && publicFee == FeeAt(gross, p.pendingFeeBps.value)
  }

  /** The fee policy allows the fee. */
  predicate FeePolicyAllows(r: Request, gross: int, publicFee: int) {
    r.feePolicy.Some? ==>
      var p := r.feePolicy.value;
      && WithinFeeBounds(p.activeFeeBps)
      && (p.pendingFeeBps.Some? ==> WithinFeeBounds(p.pendingFeeBps.value))
      && !PendingBeforeDeadline(p, r.deadline) && !PendingChargedEarly(p, gross, publicFee)
  }

  method ValidateFeePolicy(r: Request, gross: int, publicFee: int) returns (errors: seq<RelayError>)
    requires r.feePolicy.Some?
    ensures errors == [] <==> FeePolicyAllows(r, gross, publicFee)
  {
    var p := r.feePolicy.value;
    errors := PushIf([], p.activeFeeBps < 0 || p.activeFeeBps > MAX_FEE_BPS, ActiveFeeOutOfBounds);
    errors := PushIf(errors, p.pendingFeeBps.Some? && (p.pendingFeeBps.value < 0 || p.pendingFeeBps.value > MAX_FEE_BPS),
      PendingFeeOutOfBounds);
    errors := PushIf(errors, PendingBeforeDeadline(p, r.deadline), PendingFeeBeforeDeadline);
    errors := PushIf(errors, PendingChargedEarly(p, gross, publicFee), FeeIsPendingFee);
  }

  // What the call says, and what the request says.

  function ShapeOf(r: Request, h: Hashes): Bytes32 {
    if r.feePolicy.Some? then h.tag(ShapeV12) else h.tag(ShapeV11)
  }

  /** The facts of a call with twelve public inputs: its own fields, the request's chain and pool, and the
      root, commitments and note amount of the public inputs. */
  function CallFacts(r: Request, call: RelayCall): Facts {
    var p := call.publicInputs;
    Facts(InputAt(p, 0), call.nullifier, InputAt(p, 2), call.destination, call.gross, ExpectedFee(r, call.gross),
          r.chainId, r.pool, InputAt(p, 8), InputAt(p, 9))
  }

  function NoteHashOf(h: Hashes, shape: Bytes32, selector: int, f: Facts, commitment: Bytes32, amount: int,
      ciphertext: Bytes): Result<Bytes32, CoreError>
  {
    HashNote(h, NoteRecord(h, shape, selector, f, commitment, amount, ciphertext))
  }

  function PolicyHashOf(h: Hashes, policy: PolicyArgs): Result<Bytes32, CoreError> {
    HashPolicy(h, PolicyRecord(h, policy.relayer, policy.minNetAmount, policy.maxFeeAmount, policy.deadlineOrZero))
  }

  function ContextHashOf(h: Hashes, shape: Bytes32, selector: int, f: Facts, noteHash: Bytes32, policyHash: Bytes32,
      deadline: int): Result<Bytes32, CoreError>
  {
    HashContext(h, ContextRecord(h, shape, selector, f, noteHash, policyHash, deadline))
  }

  /** The policy the contract builds for bounded calls: no relayer, no deadline. */
  function ZeroRelayerPolicy(call: RelayCall): PolicyArgs {
    PolicyArgs(0, Default(call.minNetAmount, 0), Default(call.maxFeeAmount, 0), 0)
  }

  // The preflight of a private change.

  datatype Preflight = Preflight(
    chainId: int, pool: Address, selector: Option<int>, root: Bytes32, nullifier: Bytes32, destination: Address,
    gross: int, fee: int, note: int, changeCommitment: Bytes32, changeAmount: int, encryptedChangeNote: Bytes,
    policy: PolicyArgs, encryptedNoteHash: Bytes32, proofContextHash: Bytes32, policyHash: Option<Bytes32>,
    shape: Option<Bytes32>, outputCommitments: Option<seq<Bytes32>>, encryptedChangeNotes: Option<seq<Bytes>>,
    changeAmounts: Option<seq<int>>)

  function PreflightFacts(x: Preflight): Facts {
    Facts(x.root, x.nullifier, x.changeCommitment, x.destination, x.gross, x.fee, x.chainId, x.pool, 0, x.note)
  }

  datatype Recomputed = Recomputed(noteHash: Bytes32, policyHash: Bytes32, contextHash: Bytes32)

  function Recompute(h: Hashes, x: Preflight, selector: int): Result<Recomputed, CoreError> {
    var shape := Default(x.shape, h.tag(ShapeV11));
    var f := PreflightFacts(x);
    var noteHash :- NoteHashOf(h, shape, selector, f, x.changeCommitment, x.changeAmount, x.encryptedChangeNote);
    var policyHash :- PolicyHashOf(h, x.policy);
    var contextHash :- ContextHashOf(h, shape, selector, f, noteHash, policyHash, x.policy.deadlineOrZero);
    Success(Recomputed(noteHash, policyHash, contextHash))
  }

  /** The optional lists name the one change output and nothing else. */
  predicate OneOutput(x: Preflight) {
    && Default(x.outputCommitments, [x.changeCommitment]) == [x.changeCommitment]
    && Default(x.encryptedChangeNotes, [x.encryptedChangeNote]) == [x.encryptedChangeNote]
    && Default(x.changeAmounts, [x.changeAmount]) == [x.changeAmount]
  }

  /** A change output that conserves value. */
  predicate SoundChange(x: Preflight) {
    && Default(x.selector, WITHDRAW_CHANGE_BOUNDED) == WITHDRAW_CHANGE_BOUNDED
    && x.changeCommitment != 0 && 0 < |x.encryptedChangeNote| <= MAX_NOTE_BYTES
    && x.changeAmount > 0 && x.fee <= x.gross && x.note == x.gross + x.changeAmount && OneOutput(x)
  }

  predicate HashesMatch(x: Preflight, hashes: Recomputed) {
    && hashes.noteHash == x.encryptedNoteHash && hashes.contextHash == x.proofContextHash
    && (x.policyHash.Some? ==> hashes.policyHash == x.policyHash.value)
  }

  predicate PreflightAccepts(h: Hashes, x: Preflight) {
    && SoundChange(x)
    && Recompute(h, x, WITHDRAW_CHANGE_BOUNDED).Success?
    && HashesMatch(x, Recompute(h, x, WITHDRAW_CHANGE_BOUNDED).value)
  }

  method CheckOutputs(x: Preflight) returns (errors: seq<RelayError>)
    ensures errors == [] <==> OneOutput(x)
  {
    errors := [];
    var commitments := Default(x.outputCommitments, [x.changeCommitment]);
    var notes := Default(x.encryptedChangeNotes, [x.encryptedChangeNote]);
    var amounts := Default(x.changeAmounts, [x.changeAmount]);
    if |commitments| != 1 || |notes| != 1 || |amounts| != 1 {
      errors := [OutputCount];
    } else {
      errors := PushIf(errors, commitments[0] != x.changeCommitment, OutputCommitmentDiffers);
      errors := PushIf(errors, notes[0] != x.encryptedChangeNote, OutputNoteDiffers);
      errors := PushIf(errors, amounts[0] != x.changeAmount, OutputAmountDiffers);
    }
  }

  /** Throws only when nothing else is wrong and a field cannot be hashed. */
  method ValidatePreflight(h: Hashes, x: Preflight) returns (r: Result<seq<RelayError>, CoreError>)
    ensures r == Success([]) <==> PreflightAccepts(h, x)
    ensures r.Failure? <==> SoundChange(x) && Recompute(h, x, WITHDRAW_CHANGE_BOUNDED).Failure?
  {
    var selector := Default(x.selector, WITHDRAW_CHANGE_BOUNDED);
    var errors := PushIf([], selector != WITHDRAW_CHANGE_BOUNDED, WrongSelector);
    errors := PushIf(errors, x.changeCommitment == 0, ChangeCommitmentZero);
    errors := PushIf(errors, x.encryptedChangeNote == [], NoteEmpty);
    errors := PushIf(errors, |x.encryptedChangeNote| > MAX_NOTE_BYTES, NoteTooLong);
    errors := PushIf(errors, x.changeAmount <= 0, ChangeNotPositive);
    errors := PushIf(errors, x.fee > x.gross, FeeExceedsGross);
    errors := PushIf(errors, x.note != x.gross + x.changeAmount, ValueNotConserved);
    var outputErrors := CheckOutputs(x);
    errors := PushAll(errors, outputErrors);
    if |errors| > 0 {
      return Success(errors);
    }
    var recomputed := Recompute(h, x, selector);
    if recomputed.Failure? {
      return Failure(recomputed.error);
    }
    var hashes := recomputed.value;
    errors := PushIf(errors, hashes.noteHash != x.encryptedNoteHash, NoteHashDiffers);
    errors := PushIf(errors, x.policyHash.Some? && hashes.policyHash != x.policyHash.value, PolicyHashDiffers);
    errors := PushIf(errors, hashes.contextHash != x.proofContextHash, ContextHashDiffers);
    return Success(errors);
  }

  // Full exits.

  /** The hashes of a withdrawal that leaves no private output. */
  function RecomputeExit(h: Hashes, shape: Bytes32, selector: int, f: Facts, policy: PolicyArgs)
    : Result<Recomputed, CoreError>
  {
    var noteHash :- NoteHashOf(h, shape, selector, f, 0, f.note, []);
    var policyHash :- PolicyHashOf(h, policy);
    var contextHash :- ContextHashOf(h, shape, selector, f, noteHash, policyHash, policy.deadlineOrZero);
    Success(Recomputed(noteHash, policyHash, contextHash))
  }

  /** The last two public inputs are the recomputed hashes. */
  predicate InputsMatch(p: seq<Bytes32>, hashes: Recomputed) {
    InputIs(p, 10, hashes.contextHash) && InputIs(p, 11, hashes.noteHash)
  }

  predicate BoundedExitAccepts(h: Hashes, r: Request, call: RelayCall) {
    var exit := RecomputeExit(h, ShapeOf(r, h), call.selector, CallFacts(r, call), ZeroRelayerPolicy(call));
    exit.Success? && InputsMatch(call.publicInputs, exit.value)
  }

  method ValidateBoundedExit(h: Hashes, r: Request, call: RelayCall) returns (o: Result<seq<RelayError>, CoreError>)
    ensures o == Success([]) <==> BoundedExitAccepts(h, r, call)
    ensures o.Failure? <==>
      RecomputeExit(h, ShapeOf(r, h), call.selector, CallFacts(r, call), ZeroRelayerPolicy(call)).Failure?
  {
    var exit := RecomputeExit(h, ShapeOf(r, h), call.selector, CallFacts(r, call), ZeroRelayerPolicy(call));
    if exit.Failure? {
      return Failure(exit.error);
    }
    var errors := PushIf([], !InputIs(call.publicInputs, 11, exit.value.noteHash), NoteHashDiffers);
    errors := PushIf(errors, !InputIs(call.publicInputs, 10, exit.value.contextHash), ContextHashDiffers);
    return Success(errors);
  }

  /** The policy of a relayer-policy call agrees with the request and the fee. */
  predicate PolicyAgrees(r: Request, call: RelayCall, policy: PolicyArgs) {
    var fee := ExpectedFee(r, call.gross);
    && call.selector == WITHDRAW_RELAYER_POLICY
    && r.deadline == Some(policy.deadlineOrZero) && IsSafe(policy.deadlineOrZero)
    && (r.expectedRelayer.Some? ==> policy.relayer == r.expectedRelayer.value)
    && fee <= policy.maxFeeAmount && call.gross - fee >= policy.minNetAmount
  }

  predicate IsSafe(x: int) {
    -MAX_SAFE_INTEGER <= x <= MAX_SAFE_INTEGER
  }

  predicate PolicyExitAccepts(h: Hashes, r: Request, call: RelayCall) {
    && call.relayerPolicy.Some?
    && var policy := call.relayerPolicy.value;
      var exit := RecomputeExit(h, ShapeOf(r, h), call.selector, CallFacts(r, call), policy);
      && PolicyAgrees(r, call, policy) && exit.Success? && InputsMatch(call.publicInputs, exit.value)
      && (r.expectedPolicyHash.Some? ==> exit.value.policyHash == r.expectedPolicyHash.value)
  }

  predicate PolicyExitThrows(h: Hashes, r: Request, call: RelayCall) {
    && call.relayerPolicy.Some?
    && RecomputeExit(h, ShapeOf(r, h), call.selector, CallFacts(r, call), call.relayerPolicy.value).Failure?
  }

  method ValidatePolicyExit(h: Hashes, r: Request, call: RelayCall) returns (o: Result<seq<RelayError>, CoreError>)
    requires call.relayerPolicy.Some?
    ensures o == Success([]) <==> PolicyExitAccepts(h, r, call)
    ensures o.Failure? <==> PolicyExitThrows(h, r, call)
  {
    var policy, fee := call.relayerPolicy.value, ExpectedFee(r, call.gross);
    var errors := PushIf([], call.selector != WITHDRAW_RELAYER_POLICY, WrongSelector);
    errors := PushIf(errors,
      r.deadline.None? || !IsSafe(r.deadline.value) || r.deadline.value != policy.deadlineOrZero, DeadlineDiffers);
    errors := PushIf(errors, r.expectedRelayer.Some? && policy.relayer != r.expectedRelayer.value, RelayerDiffers);
    errors := PushIf(errors, fee > policy.maxFeeAmount, FeeAboveBound);
    errors := PushIf(errors, call.gross - fee < policy.minNetAmount, NetBelowBound);
    var exit := RecomputeExit(h, ShapeOf(r, h), call.selector, CallFacts(r, call), policy);
    if exit.Failure? {
      return Failure(exit.error);
    }
    var hashes := exit.value;
    errors := PushIf(errors, r.expectedPolicyHash.Some? && hashes.policyHash != r.expectedPolicyHash.value,
      PolicyHashDiffers);
    errors := PushIf(errors, !InputIs(call.publicInputs, 11, hashes.noteHash), NoteHashDiffers);
    errors := PushIf(errors, !InputIs(call.publicInputs, 10, hashes.contextHash), ContextHashDiffers);
    return Success(errors);
  }

  /** A change call that leaves no change: no commitment, no note, nothing over. */
  predicate IsUnifiedExit(x: Preflight) {
    x.changeAmount == 0 && x.changeCommitment == 0 && x.encryptedChangeNote == []
  }

  function RecomputeUnifiedExit(h: Hashes, x: Preflight): Result<Recomputed, CoreError> {
    RecomputeExit(h, Default(x.shape, h.tag(ShapeV11)), Default(x.selector, WITHDRAW_CHANGE_BOUNDED),
                  PreflightFacts(x), x.policy)
  }

  predicate UnifiedExitAccepts(h: Hashes, x: Preflight) {
    && Default(x.selector, WITHDRAW_CHANGE_BOUNDED) == WITHDRAW_CHANGE_BOUNDED && IsUnifiedExit(x)
    && x.fee <= x.gross && x.note == x.gross
    && RecomputeUnifiedExit(h, x).Success? && HashesMatch(x, RecomputeUnifiedExit(h, x).value)
  }

  method ValidateUnifiedExit(h: Hashes, x: Preflight) returns (o: Result<seq<RelayError>, CoreError>)
    ensures o == Success([]) <==> UnifiedExitAccepts(h, x)
    ensures o.Failure? <==> RecomputeUnifiedExit(h, x).Failure?
  {
    var errors :=
      PushIf([], Default(x.selector, WITHDRAW_CHANGE_BOUNDED) != WITHDRAW_CHANGE_BOUNDED, WrongSelector);
    errors := PushIf(errors, x.changeCommitment != 0, CreatesCommitment);
    errors := PushIf(errors, x.encryptedChangeNote != [], CarriesNote);
    errors := PushIf(errors, x.changeAmount != 0, ChangeUnsupported);
    errors := PushIf(errors, x.fee > x.gross, FeeExceedsGross);
    errors := PushIf(errors, x.note != x.gross, ValueNotConserved);
    var exit := RecomputeUnifiedExit(h, x);
    if exit.Failure? {
      return Failure(exit.error);
    }
    var hashes := exit.value;
    errors := PushIf(errors, hashes.noteHash != x.encryptedNoteHash, NoteHashDiffers);
    errors := PushIf(errors, x.policyHash.Some? && hashes.policyHash != x.policyHash.value, PolicyHashDiffers);
    errors := PushIf(errors, hashes.contextHash != x.proofContextHash, ContextHashDiffers);
    return Success(errors);
  }

  // A v1.1 call.

  /** The preflight input of a private-change call. */
  function PreflightOf(h: Hashes, r: Request, call: RelayCall): Preflight {
    var p := call.publicInputs;
    Preflight(r.chainId, r.pool, Some(call.selector), InputAt(p, 0), call.nullifier, call.destination, call.gross,
              ExpectedFee(r, call.gross), InputAt(p, 9), InputAt(p, 2), InputAt(p, 9) - call.gross,
              Default(call.encryptedChangeNote, []), ZeroRelayerPolicy(call), InputAt(p, 11), InputAt(p, 10),
              r.expectedPolicyHash, Some(ShapeOf(r, h)), None, None, None)
  }

  /** The public inputs repeat what the call and the request say. */
  predicate InputsRepeatCall(r: Request, call: RelayCall) {
    var p := call.publicInputs;
    && InputIs(p, 1, call.nullifier) && InputIs(p, 3, call.destination) && InputAt(p, 4) == call.gross
    && InputAt(p, 5) == ExpectedFee(r, call.gross) && InputAt(p, 6) == r.chainId && InputIs(p, 7, r.pool)
  }

  /** The user's bounds hold for the fee. */
  predicate BoundsHold(call: RelayCall, fee: int) {
    && call.hasUserBounds
    && Default(call.minNetAmount, 0) <= call.gross - fee && fee <= Default(call.maxFeeAmount, 0) <= call.gross
  }

  predicate SoundExit(r: Request, call: RelayCall) {
    var note := InputAt(call.publicInputs, 9);
    && call.nullifier != 0 && call.destination != 0 && InputAt(call.publicInputs, 8) != 0
    && MainnetDenominations.IsMainnet(note) && MainnetDenominations.IsMainnet(call.gross) && call.gross <= note
    && BoundsHold(call, ExpectedFee(r, call.gross))
    && FeePolicyAllows(r, call.gross, InputAt(call.publicInputs, 5))
  }

  /** Without a private output the whole note leaves. */
  predicate LeavesNothing(call: RelayCall) {
    && call.gross == InputAt(call.publicInputs, 9) && InputAt(call.publicInputs, 2) == 0
    && call.encryptedChangeNote.None?
  }

  predicate ChangeAccepts(h: Hashes, x: Preflight) {
    if IsUnifiedExit(x) then UnifiedExitAccepts(h, x)
    else MainnetDenominations.IsMainnet(x.changeAmount) && PreflightAccepts(h, x)
  }

  /** What the relay accepts in v1.1 mode. */
  predicate AcceptsV11(h: Hashes, r: Request, call: RelayCall) {
    && |call.publicInputs| == 12 && InputsRepeatCall(r, call) && SoundExit(r, call)
    && if call.hasChangeNote then
        ChangeAccepts(h, PreflightOf(h, r, call)) && |Default(call.encryptedChangeNote, [])| <= MAX_NOTE_BYTES
      else
        && LeavesNothing(call)
        && (if call.relayerPolicy.Some? then PolicyExitAccepts(h, r, call) else BoundedExitAccepts(h, r, call))
  }

  method CheckV11Inputs(r: Request, call: RelayCall) returns (errors: seq<RelayError>)
    requires DecodeCall(r.data) == Success(call)
    ensures errors == [] <==> |call.publicInputs| == 12 && InputsRepeatCall(r, call)
  {
    var p := call.publicInputs;
    var isChange := call.hasChangeNote;
    var isPolicy := call.relayerPolicy.Some? && !isChange;
    var isBoundedExit := call.selector == WITHDRAW_BOUNDED && !isChange;
    var expectedLength := if isChange then 12 else if isPolicy then 12 else if isBoundedExit then 12 else 10;
    errors := PushIf([], |p| != expectedLength, InputCount);
    errors := PushIf(errors, !InputIs(p, 1, call.nullifier), NullifierDiffers);
    errors := PushIf(errors, !InputIs(p, 3, call.destination), DestinationDiffers);
    errors := PushIf(errors, InputAt(p, 4) != call.gross, GrossDiffers);
    errors := PushIf(errors, InputAt(p, 5) != ExpectedFee(r, call.gross), FeeDiffers);
    errors := PushIf(errors, InputAt(p, 6) != r.chainId, ChainDiffers);
    errors := PushIf(errors, !InputIs(p, 7, r.pool), PoolDiffers);
  }

  method CheckBounds(r: Request, call: RelayCall) returns (errors: seq<RelayError>)
    ensures errors == [] <==> BoundsHold(call, ExpectedFee(r, call.gross))
  {
    errors := PushIf([], !call.hasUserBounds, NoUserBounds);
    if call.hasUserBounds {
      var minNet, maxFee := Default(call.minNetAmount, 0), Default(call.maxFeeAmount, 0);
      var fee := ExpectedFee(r, call.gross);
      errors := PushIf(errors, fee > maxFee, FeeAboveBound);
      errors := PushIf(errors, call.gross - fee < minNet, NetBelowBound);
      errors := PushIf(errors, maxFee > call.gross, FeeBoundAboveGross);
    }
  }

  /** The amounts of an exit, and what an exit without a private output may carry. */
  predicate SoundAmounts(call: RelayCall) {
    var note := InputAt(call.publicInputs, 9);
    && MainnetDenominations.IsMainnet(note) && MainnetDenominations.IsMainnet(call.gross) && call.gross <= note
    && (!call.hasChangeNote ==> LeavesNothing(call))
  }

  method CheckAmounts(call: RelayCall) returns (errors: seq<RelayError>)
    ensures errors == [] <==> SoundAmounts(call)
  {
    var note := InputAt(call.publicInputs, 9);
    errors := PushIf([], call.gross <= 0, GrossNotPositive);
    errors := PushIf(errors, note <= 0, NoteNotPositive);
    errors := PushIf(errors, !MainnetDenominations.IsMainnet(note), NoteUnsupported);
    errors := PushIf(errors, !MainnetDenominations.IsMainnet(call.gross), GrossUnsupported);
    errors := PushIf(errors, call.gross > note, GrossExceedsNote);
    errors := PushIf(errors, !call.hasChangeNote && call.gross != note, NotFullNote);
    errors := PushIf(errors, !call.hasChangeNote && InputAt(call.publicInputs, 2) != 0, CreatesCommitment);
    errors := PushIf(errors, !call.hasChangeNote && call.encryptedChangeNote.Some?, CarriesNote);
  }

  predicate SoundV11(r: Request, call: RelayCall) {
    && SoundExit(r, call) && (!call.hasChangeNote ==> LeavesNothing(call))
    && |Default(call.encryptedChangeNote, [])| <= MAX_NOTE_BYTES
  }

  method CheckV11Exit(r: Request, call: RelayCall) returns (errors: seq<RelayError>)
    requires DecodeCall(r.data) == Success(call)
    ensures errors == [] <==> SoundV11(r, call)
  {
    var p := call.publicInputs;
    errors := PushIf([], call.nullifier == 0, NullifierZero);
    if r.feePolicy.Some? {
      var feeErrors := ValidateFeePolicy(r, call.gross, InputAt(p, 5));
      errors := PushAll(errors, feeErrors);
    }
    errors := PushIf(errors, InputAt(p, 8) == 0, SpentCommitmentZero);
    errors := PushIf(errors, call.destination == 0, DestinationZero);
    var amountErrors := CheckAmounts(call);
    errors := PushAll(errors, amountErrors);
    var boundErrors := CheckBounds(r, call);
    errors := PushAll(errors, boundErrors);
    errors := PushIf(errors, call.encryptedChangeNote.Some? && |call.encryptedChangeNote.value| > MAX_NOTE_BYTES,
      NoteTooLong);
  }

  /** The hashing of a call cannot be carried out. */
  predicate HashingThrows(h: Hashes, r: Request, call: RelayCall) {
    if call.hasChangeNote then
      var x := PreflightOf(h, r, call);
      if IsUnifiedExit(x) then RecomputeUnifiedExit(h, x).Failure?
      else SoundChange(x) && Recompute(h, x, WITHDRAW_CHANGE_BOUNDED).Failure?
    else if call.relayerPolicy.Some? then PolicyExitThrows(h, r, call)
    else
      RecomputeExit(h, ShapeOf(r, h), call.selector, CallFacts(r, call), ZeroRelayerPolicy(call)).Failure?
  }

  method ValidateV11(h: Hashes, r: Request, call: RelayCall) returns (o: Result<seq<RelayError>, CoreError>)
    requires DecodeCall(r.data) == Success(call)
    ensures o == Success([]) <==> AcceptsV11(h, r, call)
    ensures o.Failure? <==> HashingThrows(h, r, call)
  {
    var errors := CheckV11Inputs(r, call);
    var exitErrors := CheckV11Exit(r, call);
    errors := PushAll(errors, exitErrors);
    var more: Result<seq<RelayError>, CoreError>;
    if call.hasChangeNote {
      var x := PreflightOf(h, r, call);
      errors := PushIf(errors, !IsUnifiedExit(x) && !MainnetDenominations.IsMainnet(x.changeAmount), ChangeUnsupported);
      if IsUnifiedExit(x) {
        more := ValidateUnifiedExit(h, x);
      } else {
        more := ValidatePreflight(h, x);
      }
    } else if call.relayerPolicy.Some? {
      more := ValidatePolicyExit(h, r, call);
    } else {
      more := ValidateBoundedExit(h, r, call);
    }
    if more.Failure? {
      return Failure(more.error);
    }
    return Success(PushAll(errors, more.value));
  }

  // A v1.2 call.

  function OutputNoteHash(h: Hashes, chainId: int, pool: Address, selector: int, nullifier: Bytes32,
      commitment: Bytes32, ciphertext: Bytes): Bytes32
  {
    h.output(OutputNote(h.tag(OutputNoteTag), 2, chainId, pool, h.tag(ShapeV12), selector, nullifier, commitment,
                        h.ciphertext(ciphertext)))
  }

  function OutputHashOf(h: Hashes, r: Request, call: RelayCall): Bytes32 {
    OutputNoteHash(h, r.chainId, r.pool, call.selector, call.nullifier, InputAt(call.publicInputs, 2),
                   Default(call.encryptedChangeNote, []))
  }

  function V12ContextHash(h: Hashes, r: Request, call: RelayCall): Result<Bytes32, CoreError> {
    var policy := Default(call.relayerPolicy, ZeroRelayerPolicy(call));
    var policyHash :- PolicyHashOf(h, policy);
    ContextHashOf(h, h.tag(ShapeV12), call.selector, CallFacts(r, call), OutputHashOf(h, r, call), policyHash,
                  policy.deadlineOrZero)
  }

  /** An output note is present, short enough, and sealed for the output commitment. */
  predicate SoundOutputNote(h: Hashes, r: Request, call: RelayCall) {
    var note, commitment := Default(call.encryptedChangeNote, []), InputAt(call.publicInputs, 2);
    && commitment != 0 && call.hasChangeNote && 0 < |note| <= MAX_NOTE_BYTES
    && h.sealed(note, r.chainId, r.pool, commitment)
  }

  predicate SoundV12(r: Request, call: RelayCall) {
    && call.nullifier != 0 && call.destination != 0 && MainnetDenominations.IsMainnet(call.gross)
    && BoundsHold(call, ExpectedFee(r, call.gross))
    && FeePolicyAllows(r, call.gross, InputAt(call.publicInputs, 5))
  }

  /** What the relay accepts in v1.2 mode. */
  predicate AcceptsV12(h: Hashes, r: Request, call: RelayCall) {
    && |call.publicInputs| == 10 && InputsRepeatCall(r, call) && SoundV12(r, call) && SoundOutputNote(h, r, call)
    && V12ContextHash(h, r, call) == Success(InputAt(call.publicInputs, 8))
    && OutputHashOf(h, r, call) == InputAt(call.publicInputs, 9)
  }

  method CheckV12Inputs(r: Request, call: RelayCall) returns (errors: seq<RelayError>)
    ensures errors == [] <==> |call.publicInputs| == 10 && InputsRepeatCall(r, call) && SoundV12(r, call)
  {
    var p := call.publicInputs;
    errors := PushIf([], |p| != 10, InputCount);
    errors := PushIf(errors, |p| != 10 && |p| >= 12, InputsExposeNote);
    errors := PushIf(errors, !InputIs(p, 1, call.nullifier), NullifierDiffers);
    errors := PushIf(errors, call.nullifier == 0, NullifierZero);
    errors := PushIf(errors, !InputIs(p, 3, call.destination), DestinationDiffers);
    errors := PushIf(errors, InputAt(p, 4) != call.gross, GrossDiffers);
    errors := PushIf(errors, InputAt(p, 5) != ExpectedFee(r, call.gross), FeeDiffers);
    if r.feePolicy.Some? {
      var feeErrors := ValidateFeePolicy(r, call.gross, InputAt(p, 5));
      errors := PushAll(errors, feeErrors);
    }
    errors := PushIf(errors, InputAt(p, 6) != r.chainId, ChainDiffers);
    errors := PushIf(errors, !InputIs(p, 7, r.pool), PoolDiffers);
    errors := PushIf(errors, call.destination == 0, DestinationZero);
    errors := PushIf(errors, call.gross <= 0, GrossNotPositive);
    errors := PushIf(errors, !MainnetDenominations.IsMainnet(call.gross), GrossUnsupported);
    var boundErrors := CheckBounds(r, call);
    errors := PushAll(errors, boundErrors);
  }

  method CheckOutputNote(h: Hashes, r: Request, call: RelayCall) returns (errors: seq<RelayError>)
    ensures errors == [] <==> SoundOutputNote(h, r, call)
  {
    var note, commitment := Default(call.encryptedChangeNote, []), InputAt(call.publicInputs, 2);
    errors := PushIf([], commitment == 0, OutputCommitmentZero);
    errors := PushIf(errors, !call.hasChangeNote || note == [], OutputNoteMissing);
    errors := PushIf(errors, |note| > MAX_NOTE_BYTES, NoteTooLong);
    errors := PushIf(errors, note != [] && !h.sealed(note, r.chainId, r.pool, commitment), EnvelopeInvalid);
  }

  method ValidateV12(h: Hashes, r: Request, call: RelayCall) returns (o: Result<seq<RelayError>, CoreError>)
    ensures o == Success([]) <==> AcceptsV12(h, r, call)
    ensures o.Failure? <==> V12ContextHash(h, r, call).Failure?
  {
    var errors := CheckV12Inputs(r, call);
    var noteErrors := CheckOutputNote(h, r, call);
    errors := PushAll(errors, noteErrors);
    errors := PushIf(errors, InputAt(call.publicInputs, 9) != OutputHashOf(h, r, call), NoteHashDiffers);
    var contextHash := V12ContextHash(h, r, call);
    if contextHash.Failure? {
      return Failure(contextHash.error);
    }
    errors := PushIf(errors, InputAt(call.publicInputs, 8) != contextHash.value, ContextHashDiffers);
    return Success(errors);
  }

  // The whole check.

  datatype Validation = Validation(allowed: bool, errors: seq<RelayError>, decoded: Option<RelayCall>)

  /** The call as a v1.2 validation reports it: its ciphertext is an output note. */
  function AsOutputCall(call: RelayCall): RelayCall {
    call.(hasChangeNote := false, encryptedChangeNote := None,
          encryptedOutputNote := Some(Default(call.encryptedChangeNote, [])))
  }

  /** What the relay accepts. */
  predicate RelayAccepts(h: Hashes, r: Request) {
    && DecodeCall(r.data).Success?
    && var call := DecodeCall(r.data).value;
      if r.mode == V12Unlinkable then AcceptsV12(h, r, call) else AcceptsV11(h, r, call)
  }

  method ValidateWithdrawalRelayCalldata(h: Hashes, r: Request) returns (o: Result<Validation, CoreError>)
    ensures (o.Success? && o.value.allowed) <==> RelayAccepts(h, r)
    ensures o.Success? ==> (o.value.allowed <==> o.value.errors == [])
    ensures o.Success? ==> (o.value.decoded.Some? <==> DecodeCall(r.data).Success?)
    ensures o.Success? && o.value.decoded.Some? ==>
      var call := DecodeCall(r.data).value;
      o.value.decoded.value == if r.mode == V12Unlinkable then AsOutputCall(call) else call
  {
    var decoded := DecodeCall(r.data);
    if decoded.Failure? {
      return Success(Validation(false, [decoded.error], None));
    }
    var call := decoded.value;
    var outcome: Result<seq<RelayError>, CoreError>;
    if r.mode == V12Unlinkable {
      outcome := ValidateV12(h, r, call);
      call := AsOutputCall(call);
    } else {
      outcome := ValidateV11(h, r, call);
    }
    if outcome.Failure? {
      return Failure(outcome.error);
    }
    return Success(Validation(outcome.value == [], outcome.value, Some(call)));
  }
}
