/** The withdrawal context of the core package: the records that are hashed, and the builder of a
    partial withdrawal. Models the V1 records and createWithdrawChangeV1_1 of packages/core/src/proofs.ts.

    Hex strings are numbers. The hashes take records, and are parameters. */
module WithdrawalCore {
  import opened Wrappers
  import opened Powers
  import BitMasks

  const TWO160: int := 0x1_00000000_00000000_00000000_00000000_00000000

  type Bytes32 = w: int | 0 <= w < TWO256

  type Address = a: int | 0 <= a < TWO160

  type Bytes = seq<BitMasks.Byte>

  const WITHDRAW_CHANGE_BOUNDED: int := 0x678d8506
  const WITHDRAW_BOUNDED: int := 0xc7787d0f
  const WITHDRAW_RELAYER_POLICY: int := 0x6666d824

  const FEE_BPS: int := 33
  const BPS_DENOMINATOR: int := 10_000

  datatype EncryptedNote = EncryptedNote(
    domain: Bytes32, version: int, chainId: int, pool: Address, shape: Bytes32, selector: int,
    nullifier: Bytes32, commitment: Bytes32, noteAmount: int, encryptedNote: Bytes)

  datatype RelayerPolicy = RelayerPolicy(
    domain: Bytes32, version: int, relayer: Address, minNetAmount: int, maxFeeAmount: int, deadlineOrZero: int)

  datatype ProofContext = ProofContext(
    domain: Bytes32, version: int, chainId: int, pool: Address, shape: Bytes32, selector: int,
    root: Bytes32, nullifier: Bytes32, destination: Address, grossAmount: int, fee: int,
    encryptedNoteHash: Bytes32, relayerPolicyHash: Bytes32, deadlineOrZero: int)

  /** The record hashed for a v1.2 output note; the ciphertext enters by its own hash. */
  datatype OutputNote = OutputNote(
    domain: Bytes32, version: int, chainId: int, pool: Address, shape: Bytes32, selector: int,
    nullifier: Bytes32, commitment: Bytes32, ciphertextHash: Bytes32)

  /** The strings whose hashes separate the records. */
  datatype Tag = ProofContextTag | EncryptedNoteTag | RelayerPolicyTag | OutputNoteTag | ShapeV11 | ShapeV12

  /** The hash of each record, of a ciphertext and of a tag; and whether a ciphertext is a valid output-note
      envelope for a chain, a pool and a commitment. */
  datatype Hashes = Hashes(
    note: EncryptedNote -> Bytes32,
    policy: RelayerPolicy -> Bytes32,
    context: ProofContext -> Bytes32,
    output: OutputNote -> Bytes32,
    ciphertext: Bytes -> Bytes32,
    tag: Tag -> Bytes32,
    sealed: (Bytes, int, Address, Bytes32) -> bool)

  /** Two different values with one hash. */
  predicate Collide<T(==)>(hash: T -> Bytes32, a: T, b: T) {
    a != b && hash(a) == hash(b)
  }

  datatype Field =
    | Version | ChainId | Pool | Root | Nullifier | NewCommitment | Destination | SpentCommitment
    | NoteAmount | GrossAmount | ChangeAmount | Fee | MinNetAmount | MaxFeeAmount | Deadline

  datatype CoreError = BadField(field: Field) | ZeroChange | WrongFee | NotConserved | FeeNotBelowGross | EmptyNote

  predicate IsUint256(x: int) {
    0 <= x < TWO256
  }

  predicate SupportedChain(chainId: int) {
    chainId == 6343 || chainId == 4326
  }

  // Records that may be hashed.

  function NormalizeNote(n: EncryptedNote): (r: Result<EncryptedNote, CoreError>)
    ensures r.Success? ==> r.value == n
    ensures r.Success? <==> IsUint256(n.version) && SupportedChain(n.chainId) && n.pool != 0
                            && n.nullifier != 0 && IsUint256(n.noteAmount)
  {
    if !IsUint256(n.version) then Failure(BadField(Version))
    else if !SupportedChain(n.chainId) then Failure(BadField(ChainId))
    else if n.pool == 0 then Failure(BadField(Pool))
    else if n.nullifier == 0 then Failure(BadField(Nullifier))
    else if !IsUint256(n.noteAmount) then Failure(BadField(NoteAmount))
    else Success(n)
  }

  function NormalizePolicy(p: RelayerPolicy): (r: Result<RelayerPolicy, CoreError>)
    ensures r.Success? ==> r.value == p
    ensures r.Success? <==> IsUint256(p.version) && IsUint256(p.minNetAmount) && IsUint256(p.maxFeeAmount)
                            && IsUint256(p.deadlineOrZero)
  {
    if !IsUint256(p.version) then Failure(BadField(Version))
    else if !IsUint256(p.minNetAmount) then Failure(BadField(MinNetAmount))
    else if !IsUint256(p.maxFeeAmount) then Failure(BadField(MaxFeeAmount))
    else if !IsUint256(p.deadlineOrZero) then Failure(BadField(Deadline))
    else Success(p)
  }

  function NormalizeContext(c: ProofContext): (r: Result<ProofContext, CoreError>)
    ensures r.Success? ==> r.value == c
    ensures r.Success? <==> IsUint256(c.version) && SupportedChain(c.chainId) && c.pool != 0 && c.root != 0
                            && c.nullifier != 0 && IsUint256(c.grossAmount) && IsUint256(c.fee)
                            && IsUint256(c.deadlineOrZero)
  {
    if !IsUint256(c.version) then Failure(BadField(Version))
    else if !SupportedChain(c.chainId) then Failure(BadField(ChainId))
    else if c.pool == 0 then Failure(BadField(Pool))
    else if c.root == 0 then Failure(BadField(Root))
    else if c.nullifier == 0 then Failure(BadField(Nullifier))
    else if !IsUint256(c.grossAmount) then Failure(BadField(GrossAmount))
    else if !IsUint256(c.fee) then Failure(BadField(Fee))
    else if !IsUint256(c.deadlineOrZero) then Failure(BadField(Deadline))
    else Success(c)
  }

  function HashNote(h: Hashes, n: EncryptedNote): Result<Bytes32, CoreError> {
    var normal :- NormalizeNote(n);
    Success(h.note(normal))
  }

  function HashPolicy(h: Hashes, p: RelayerPolicy): Result<Bytes32, CoreError> {
    var normal :- NormalizePolicy(p);
    Success(h.policy(normal))
  }

  function HashContext(h: Hashes, c: ProofContext): Result<Bytes32, CoreError> {
    var normal :- NormalizeContext(c);
    Success(h.context(normal))
  }

  // The facts of a withdrawal and what binds them.

  datatype Facts = Facts(
    root: Bytes32, nullifier: Bytes32, commitment: Bytes32, destination: Address, gross: int, fee: int,
    chainId: int, pool: Address, spent: Bytes32, note: int)

  function NoteRecord(h: Hashes, shape: Bytes32, selector: int, f: Facts, commitment: Bytes32, amount: int,
      ciphertext: Bytes): EncryptedNote
  {
    EncryptedNote(h.tag(EncryptedNoteTag), 1, f.chainId, f.pool, shape, selector, f.nullifier, commitment, amount,
                  ciphertext)
  }

  function PolicyRecord(h: Hashes, relayer: Address, minNet: int, maxFee: int, deadline: int): RelayerPolicy {
    RelayerPolicy(h.tag(RelayerPolicyTag), 1, relayer, minNet, maxFee, deadline)
  }

  function ContextRecord(h: Hashes, shape: Bytes32, selector: int, f: Facts, noteHash: Bytes32, policyHash: Bytes32,
      deadline: int): ProofContext
  {
    ProofContext(h.tag(ProofContextTag), 1, f.chainId, f.pool, shape, selector, f.root, f.nullifier, f.destination,
                 f.gross, f.fee, noteHash, policyHash, deadline)
  }

  predicate InRange(f: Facts) {
    IsUint256(f.gross) && IsUint256(f.fee) && IsUint256(f.chainId) && IsUint256(f.note)
  }

  /** The twelve public inputs of a proof-bound withdrawal. */
  function TwelveInputs(f: Facts, contextHash: Bytes32, noteHash: Bytes32): seq<Bytes32>
    requires InRange(f)
  {
    [f.root, f.nullifier, f.commitment, f.destination, f.gross, f.fee, f.chainId, f.pool, f.spent, f.note,
     contextHash, noteHash]
  }

  // The builder.

  datatype PolicyInput = PolicyInput(
    domain: Option<Bytes32>, version: Option<int>, relayer: Address, minNetAmount: int, maxFeeAmount: int,
    deadlineOrZero: int)

  datatype ChangeInput = ChangeInput(
    root: Bytes32, nullifier: Bytes32, newCommitment: Bytes32, destination: Address, grossAmount: int, fee: int,
    chainId: int, pool: Address, spentCommitment: Bytes32, noteAmount: int, changeAmount: int,
    encryptedChangeNote: Bytes, policy: PolicyInput, selector: Option<int>)

  datatype WithdrawChange = WithdrawChange(
    selector: int, netAmount: int, encryptedNoteHash: Bytes32, relayerPolicyHash: Bytes32,
    proofContextHash: Bytes32, publicInputs: seq<Bytes32>)

  function Default<T>(option: Option<T>, otherwise: T): T {
    if option.Some? then option.value else otherwise
  }

  function CreatePolicy(h: Hashes, p: PolicyInput): Result<RelayerPolicy, CoreError> {
    NormalizePolicy(RelayerPolicy(Default(p.domain, h.tag(RelayerPolicyTag)), Default(p.version, 1), p.relayer,
                                  p.minNetAmount, p.maxFeeAmount, p.deadlineOrZero))
  }

  /** floor(gross * 33 / 10000), for an amount that is not negative. */
  function ChangeFee(gross: int): int {
    gross * FEE_BPS / BPS_DENOMINATOR
  }

  predicate IsPositiveUint256(x: int) {
    0 < x < TWO256
  }

  /** The net amount, if nothing is created or lost. */
  function Conservation(noteAmount: int, grossAmount: int, changeAmount: int, fee: int): Result<int, CoreError> {
    var expectedFee := ChangeFee(grossAmount);
    :- Need(IsPositiveUint256(noteAmount), BadField(NoteAmount));
    :- Need(IsPositiveUint256(grossAmount), BadField(GrossAmount));
    :- Need(IsUint256(changeAmount), BadField(ChangeAmount));
    :- Need(IsUint256(fee), BadField(Fee));
    :- Need(changeAmount != 0, ZeroChange);
    :- Need(fee == expectedFee, WrongFee);
    :- Need(noteAmount == grossAmount + changeAmount, NotConserved);
    :- Need(fee < grossAmount, FeeNotBelowGross);
    Success(grossAmount - fee)
  }

  function FactsOf(input: ChangeInput): Facts {
    Facts(input.root, input.nullifier, input.newCommitment, input.destination, input.grossAmount, input.fee,
          input.chainId, input.pool, input.spentCommitment, input.noteAmount)
  }

  function CreateWithdrawChange(h: Hashes, input: ChangeInput): Result<WithdrawChange, CoreError> {
    var selector := Default(input.selector, WITHDRAW_CHANGE_BOUNDED);
    :- Need(input.root != 0, BadField(Root));
    :- Need(input.nullifier != 0, BadField(Nullifier));
    :- Need(input.newCommitment != 0, BadField(NewCommitment));
    :- Need(input.destination != 0, BadField(Destination));
    :- Need(SupportedChain(input.chainId), BadField(ChainId));
    :- Need(input.pool != 0, BadField(Pool));
    :- Need(input.spentCommitment != 0, BadField(SpentCommitment));
    var net :- Conservation(input.noteAmount, input.grossAmount, input.changeAmount, input.fee);
    :- Need(input.encryptedChangeNote != [], EmptyNote);
    var policy :- CreatePolicy(h, input.policy);
    var policyHash :- HashPolicy(h, policy);
    var f := FactsOf(input);
    var noteHash :- HashNote(h, NoteRecord(h, h.tag(ShapeV11), selector, f, input.newCommitment, input.changeAmount,
                                           input.encryptedChangeNote));
    var contextHash :- HashContext(h, ContextRecord(h, h.tag(ShapeV11), selector, f, noteHash, policyHash,
                                                    policy.deadlineOrZero));
    Success(WithdrawChange(selector, net, noteHash, policyHash, contextHash, TwelveInputs(f, contextHash, noteHash)))
  }

  /** Built withdrawals conserve value, and take the fee the contract takes. */
  lemma BuiltConserves(h: Hashes, input: ChangeInput)
    requires CreateWithdrawChange(h, input).Success?
    ensures input.noteAmount == input.grossAmount + input.changeAmount && input.changeAmount > 0
    ensures input.noteAmount
         == CreateWithdrawChange(h, input).value.netAmount + input.fee + input.changeAmount
    ensures 10_000 * input.fee <= 33 * input.grossAmount < 10_000 * (input.fee + 1)
    ensures 0 < CreateWithdrawChange(h, input).value.netAmount <= input.grossAmount
  {
  }

  /** The inputs the builder accepts. */
  predicate Buildable(input: ChangeInput) {
    && input.root != 0 && input.nullifier != 0 && input.newCommitment != 0 && input.spentCommitment != 0
    && input.destination != 0 && input.pool != 0 && SupportedChain(input.chainId)
    && input.grossAmount > 0 && input.changeAmount > 0 && input.noteAmount < TWO256
    && input.noteAmount == input.grossAmount + input.changeAmount && input.fee == ChangeFee(input.grossAmount)
    && input.encryptedChangeNote != []
    && IsUint256(Default(input.policy.version, 1)) && IsUint256(input.policy.minNetAmount)
    && IsUint256(input.policy.maxFeeAmount) && IsUint256(input.policy.deadlineOrZero)
  }

  lemma BuildsIffBuildable(h: Hashes, input: ChangeInput)
    ensures CreateWithdrawChange(h, input).Success? <==> Buildable(input)
  {
  }
}
