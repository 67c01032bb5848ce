/** What the hashes among the public inputs of an accepted call determine.
    About validateWithdrawalRelayCalldata of services/relay/src/withdrawalCalldata.ts: every kind of call it
    accepts carries the hash of a proof context, which holds the hashes of a note and of a policy.

    Nothing is assumed of the hashes. Where two calls agree on a hash, the conclusion is that they agree on
    what was hashed, or that two different records named here have one hash. */
module WithdrawalIdentity {
  import opened Wrappers
  import opened WithdrawalCore
  import Relay = WithdrawalRelay

  /** The ways to withdraw that the relay accepts. */
  datatype Kind = PrivateChange | UnifiedExit | BoundedExit | PolicyExit | OutputExit

  /** The record behind a note hash. */
  datatype HashedNote = Encrypted(note: EncryptedNote) | Output(output: OutputNote)

  function CallOf(r: Relay.Request): Relay.RelayCall
    requires Relay.DecodeCall(r.data).Success?
  {
    Relay.DecodeCall(r.data).value
  }

  function Ciphertext(call: Relay.RelayCall): Bytes {
    Default(call.encryptedChangeNote, [])
  }

  predicate LeavesNoChange(call: Relay.RelayCall) {
    && Relay.InputAt(call.publicInputs, 9) == call.gross && Relay.InputAt(call.publicInputs, 2) == 0
    && Ciphertext(call) == []
  }

  function KindOf(r: Relay.Request): Kind
    requires Relay.DecodeCall(r.data).Success?
  {
    var call := CallOf(r);
    if r.mode == Relay.V12Unlinkable then OutputExit
    else if call.hasChangeNote then (if LeavesNoChange(call) then UnifiedExit else PrivateChange)
    else if call.relayerPolicy.Some? then PolicyExit
    else BoundedExit
  }

  // The records behind the hashes.

  function ShapeUsed(h: Hashes, r: Relay.Request): Bytes32 {
    if r.mode == Relay.V12Unlinkable then h.tag(ShapeV12) else Relay.ShapeOf(r, h)
  }

  function PolicyUsed(call: Relay.RelayCall): Relay.PolicyArgs {
    Default(call.relayerPolicy, Relay.ZeroRelayerPolicy(call))
  }

  function NoteOf(h: Hashes, r: Relay.Request): HashedNote
    requires Relay.DecodeCall(r.data).Success?
  {
    var call, shape := CallOf(r), ShapeUsed(h, r);
    var f, commitment, note :=
      Relay.CallFacts(r, call), Relay.InputAt(call.publicInputs, 2), Relay.InputAt(call.publicInputs, 9);
    match KindOf(r)
    case PrivateChange =>
      Encrypted(NoteRecord(h, shape, call.selector, f, commitment, note - call.gross, Ciphertext(call)))
    case OutputExit =>
      Output(OutputNote(h.tag(OutputNoteTag), 2, r.chainId, r.pool, shape, call.selector, call.nullifier, commitment,
                        h.ciphertext(Ciphertext(call))))
    case _ => Encrypted(NoteRecord(h, shape, call.selector, f, 0, note, []))
  }

  function PolicyOf(h: Hashes, r: Relay.Request): RelayerPolicy
    requires Relay.DecodeCall(r.data).Success?
  {
    var policy := PolicyUsed(CallOf(r));
    PolicyRecord(h, policy.relayer, policy.minNetAmount, policy.maxFeeAmount, policy.deadlineOrZero)
  }

  function NoteHash(h: Hashes, note: HashedNote): Bytes32 {
    match note
    case Encrypted(n) => h.note(n)
    case Output(o) => h.output(o)
  }

  function ContextOf(h: Hashes, r: Relay.Request): ProofContext
    requires Relay.DecodeCall(r.data).Success?
  {
    var call := CallOf(r);
    ContextRecord(h, ShapeUsed(h, r), call.selector, Relay.CallFacts(r, call), NoteHash(h, NoteOf(h, r)),
                  h.policy(PolicyOf(h, r)), PolicyUsed(call).deadlineOrZero)
  }

  /** The public input that is the proof context hash: the eleventh of twelve, or the ninth of ten. */
  function ContextInput(r: Relay.Request): Bytes32
    requires Relay.DecodeCall(r.data).Success?
  {
    Relay.InputAt(CallOf(r).publicInputs, if r.mode == Relay.V12Unlinkable then 8 else 10)
  }

  /** The public input that is the note hash, the last one. */
  function NoteInput(r: Relay.Request): Bytes32
    requires Relay.DecodeCall(r.data).Success?
  {
    Relay.InputAt(CallOf(r).publicInputs, if r.mode == Relay.V12Unlinkable then 9 else 11)
  }

  /** Every accepted call carries the hashes of its context and of its note. */
  lemma AcceptedIsHashed(h: Hashes, r: Relay.Request)
    requires Relay.RelayAccepts(h, r)
    ensures ContextInput(r) == h.context(ContextOf(h, r)) && NoteInput(r) == NoteHash(h, NoteOf(h, r))
  {
    match KindOf(r)
    case PrivateChange =>
    case UnifiedExit =>
    case BoundedExit =>
    case PolicyExit =>
    case OutputExit =>
  }

  // Agreement.

  /** The hashes of the two calls show a collision: of two proof contexts, policies, notes or ciphertexts. */
  predicate ShowCollision(h: Hashes, r: Relay.Request, s: Relay.Request)
    requires Relay.DecodeCall(r.data).Success? && Relay.DecodeCall(s.data).Success?
  {
    || Collide(h.context, ContextOf(h, r), ContextOf(h, s))
    || Collide(h.policy, PolicyOf(h, r), PolicyOf(h, s))
    || NotesCollide(h, NoteOf(h, r), NoteOf(h, s))
    || (KindOf(r) == KindOf(s) == OutputExit && Collide(h.ciphertext, Ciphertext(CallOf(r)), Ciphertext(CallOf(s))))
  }

  predicate NotesCollide(h: Hashes, a: HashedNote, b: HashedNote) {
    a != b && NoteHash(h, a) == NoteHash(h, b)
  }

  /** The two calls withdraw the same: in the same way, from the same note to the same place, for the same fee
      and under the same bounds, leaving the same output. */
  predicate SameWithdrawal(h: Hashes, r: Relay.Request, s: Relay.Request)
    requires Relay.DecodeCall(r.data).Success? && Relay.DecodeCall(s.data).Success?
  {
    var c, d := CallOf(r), CallOf(s);
    && KindOf(r) == KindOf(s) && ShapeUsed(h, r) == ShapeUsed(h, s) && r.chainId == s.chainId && r.pool == s.pool
    && c.nullifier == d.nullifier && c.destination == d.destination && c.gross == d.gross
    && Relay.ExpectedFee(r, c.gross) == Relay.ExpectedFee(s, d.gross) && PolicyUsed(c) == PolicyUsed(d)
    && Ciphertext(c) == Ciphertext(d)
    && Relay.InputAt(c.publicInputs, 0) == Relay.InputAt(d.publicInputs, 0)
    && Relay.InputAt(c.publicInputs, 2) == Relay.InputAt(d.publicInputs, 2)
    && (KindOf(r) != OutputExit ==> Relay.InputAt(c.publicInputs, 9) == Relay.InputAt(d.publicInputs, 9))
  }

  /** What acceptance says about the outputs of each kind of call, and about its selector. */
  lemma AcceptedOutputs(h: Hashes, r: Relay.Request)
    requires Relay.RelayAccepts(h, r)
    ensures var call, commitment := CallOf(r), Relay.InputAt(CallOf(r).publicInputs, 2);
      match KindOf(r)
      case PrivateChange => call.selector == WITHDRAW_CHANGE_BOUNDED && commitment != 0
      case OutputExit => call.selector == WITHDRAW_CHANGE_BOUNDED && commitment != 0
      case UnifiedExit => call.selector == WITHDRAW_CHANGE_BOUNDED && commitment == 0 && Ciphertext(call) == []
      case BoundedExit => call.selector == WITHDRAW_BOUNDED && commitment == 0 && Ciphertext(call) == []
      case PolicyExit => call.selector == WITHDRAW_RELAYER_POLICY && commitment == 0 && Ciphertext(call) == []
  {
  }

  /** No proof context hash accepted for one kind of call is accepted for another, unless the two contexts or
      the two notes collide. */
  lemma KindsAreSeparate(h: Hashes, r: Relay.Request, s: Relay.Request)
    requires Relay.RelayAccepts(h, r) && Relay.RelayAccepts(h, s)
    requires ContextInput(r) == ContextInput(s) && KindOf(r) != KindOf(s)
    ensures Collide(h.context, ContextOf(h, r), ContextOf(h, s)) || NotesCollide(h, NoteOf(h, r), NoteOf(h, s))
  {
    AcceptedIsHashed(h, r);
    AcceptedIsHashed(h, s);
    AcceptedOutputs(h, r);
    AcceptedOutputs(h, s);
  }

  /** Equal records come from the same withdrawal. */
  lemma EqualRecordsAreSame(h: Hashes, r: Relay.Request, s: Relay.Request)
    requires Relay.RelayAccepts(h, r) && Relay.RelayAccepts(h, s) && !ShowCollision(h, r, s)
    requires ContextOf(h, r) == ContextOf(h, s)
    ensures SameWithdrawal(h, r, s)
  {
    AcceptedOutputs(h, r);
    AcceptedOutputs(h, s);
    assert NoteOf(h, r) == NoteOf(h, s) && PolicyOf(h, r) == PolicyOf(h, s);
    assert PolicyUsed(CallOf(r)) == PolicyUsed(CallOf(s));
    assert KindOf(r) == KindOf(s);
  }

  /** The same withdrawal has equal records. */
  lemma SameIsHashedAlike(h: Hashes, r: Relay.Request, s: Relay.Request)
    requires Relay.RelayAccepts(h, r) && Relay.RelayAccepts(h, s) && SameWithdrawal(h, r, s)
    ensures NoteOf(h, r) == NoteOf(h, s) && PolicyOf(h, r) == PolicyOf(h, s)
    ensures ContextOf(h, r) == ContextOf(h, s) && !ShowCollision(h, r, s)
  {
    AcceptedOutputs(h, r);
    AcceptedOutputs(h, s);
  }

  /** The proof context hash determines the call: two accepted calls of any kind carry the same hash, without
      showing a collision, exactly when they withdraw the same. */
  lemma ContextDeterminesCall(h: Hashes, r: Relay.Request, s: Relay.Request)
    requires Relay.RelayAccepts(h, r) && Relay.RelayAccepts(h, s)
    ensures ContextInput(r) == ContextInput(s) && !ShowCollision(h, r, s) <==> SameWithdrawal(h, r, s)
    ensures SameWithdrawal(h, r, s) ==> NoteInput(r) == NoteInput(s)
  {
    AcceptedIsHashed(h, r);
    AcceptedIsHashed(h, s);
    if SameWithdrawal(h, r, s) {
      SameIsHashedAlike(h, r, s);
    } else if ContextInput(r) == ContextInput(s) && !ShowCollision(h, r, s) {
      EqualRecordsAreSame(h, r, s);
    }
  }

  /** The public inputs that a proof context hash does not determine. */
  predicate IsFree(r: Relay.Request, k: nat) {
    r.mode == Relay.V11 && k == 8
  }

  /** The public inputs before the two hashes. */
  lemma SameInputs(h: Hashes, r: Relay.Request, s: Relay.Request)
    requires Relay.RelayAccepts(h, r) && Relay.RelayAccepts(h, s) && SameWithdrawal(h, r, s)
    ensures |CallOf(r).publicInputs| == |CallOf(s).publicInputs| >= 10
    ensures forall k :: 0 <= k < |CallOf(r).publicInputs| - 2 && !IsFree(r, k) ==>
      CallOf(r).publicInputs[k] == CallOf(s).publicInputs[k]
  {
  }

  /** So the proof context hash determines every other public input: all of them in v1.2, all but the spent
      commitment in v1.1. */
  lemma ContextDeterminesInputs(h: Hashes, r: Relay.Request, s: Relay.Request)
    requires Relay.RelayAccepts(h, r) && Relay.RelayAccepts(h, s)
    requires ContextInput(r) == ContextInput(s) && !ShowCollision(h, r, s)
    ensures |CallOf(r).publicInputs| == |CallOf(s).publicInputs|
    ensures forall k :: 0 <= k < |CallOf(r).publicInputs| && !IsFree(r, k) ==>
      CallOf(r).publicInputs[k] == CallOf(s).publicInputs[k]
  {
    ContextDeterminesCall(h, r, s);
    SameInputs(h, r, s);
    var p, q := CallOf(r).publicInputs, CallOf(s).publicInputs;
    assert |p| == if r.mode == Relay.V12Unlinkable then 10 else 12;
    assert p[|p| - 2] == ContextInput(r) && q[|p| - 2] == ContextInput(s);
    assert p[|p| - 1] == NoteInput(r) && q[|p| - 1] == NoteInput(s);
  }

  /** The request with another spent commitment among its public inputs. */
  function WithSpent(r: Relay.Request, spent: Bytes32): Relay.Request
    requires Relay.DecodeCall(r.data).Success? && |CallOf(r).publicInputs| == 12
  {
    var args := r.data.args;
    r.(data := r.data.(args := args.(publicInputs := args.publicInputs[8 := spent])))
  }

  lemma ExitIgnoresSpent(h: Hashes, shape: Bytes32, selector: int, f: Facts, policy: Relay.PolicyArgs, spent: Bytes32)
    ensures Relay.RecomputeExit(h, shape, selector, f.(spent := spent), policy)
         == Relay.RecomputeExit(h, shape, selector, f, policy)
  {
  }

  /** The call with another spent commitment differs in nothing that is recomputed. */
  lemma WithSpentReads(h: Hashes, r: Relay.Request, spent: Bytes32)
    requires Relay.DecodeCall(r.data).Success? && |CallOf(r).publicInputs| == 12
    ensures Relay.DecodeCall(WithSpent(r, spent).data).Success?
    ensures var call := CallOf(r);
      && CallOf(WithSpent(r, spent)) == call.(publicInputs := call.publicInputs[8 := spent])
      && Relay.PreflightOf(h, WithSpent(r, spent), CallOf(WithSpent(r, spent))) == Relay.PreflightOf(h, r, call)
      && Relay.CallFacts(WithSpent(r, spent), CallOf(WithSpent(r, spent)))
      == Relay.CallFacts(r, call).(spent := spent)
  {
  }

  /** The spent commitment is free indeed: any other nonzero one is accepted with the same hashes, so that it
      is bound by the proof alone. */
  lemma SpentCommitmentIsFree(h: Hashes, r: Relay.Request, spent: Bytes32)
    requires Relay.RelayAccepts(h, r) && r.mode == Relay.V11 && spent != 0
    ensures Relay.RelayAccepts(h, WithSpent(r, spent))
    ensures ContextInput(WithSpent(r, spent)) == ContextInput(r) && NoteInput(WithSpent(r, spent)) == NoteInput(r)
  {
    WithSpentReads(h, r, spent);
    var call := CallOf(r);
    ExitIgnoresSpent(h, Relay.ShapeOf(r, h), call.selector, Relay.CallFacts(r, call), PolicyUsed(call), spent);
  }
}
