/** What the relay accepts and the indexer binds, spelled out in the fields of a request.
    About validateWithdrawalRelayCalldata of services/relay/src/withdrawalCalldata.ts and the binding checks of
    services/indexer/src/encryptedNotes.ts. */
module WithdrawalAcceptance {
  import opened Wrappers
  import opened Powers
  import opened WithdrawalCore
  import opened MainnetDenominations
  import Relay = WithdrawalRelay
  import Indexer = WithdrawalIndexer

  /** A fee is the floor of its share. */
  lemma FeeIsFloor(gross: int, bps: int, fee: int)
    requires gross >= 0 && bps >= 0
    ensures Relay.FeeAt(gross, bps) == fee <==> 10_000 * fee <= gross * bps < 10_000 * (fee + 1)
  {
    assert gross * bps >= 0;
    InBlock(gross * bps, 10_000, fee);
  }

  /** The fee policy allows a fee: rates within one hundredth, no pending rate that starts before the deadline, and
      none that is charged early. */
  lemma FeePolicyAllowsIff(r: Relay.Request, gross: int, fee: int)
    requires gross >= 0
    ensures Relay.FeePolicyAllows(r, gross, fee) <==>
      (r.feePolicy.Some? ==>
         var q := r.feePolicy.value;
         && 0 <= q.activeFeeBps <= 100
         && (q.pendingFeeBps.Some? ==> 0 <= q.pendingFeeBps.value <= 100)
         && (q.pendingFeeBps.Some? && q.pendingActivation.Some? ==>
               && (r.deadline.Some? ==> r.deadline.value < q.pendingActivation.value)
               && (q.now.Some? && q.now.value < q.pendingActivation.value ==>
                     !(10_000 * fee <= gross * q.pendingFeeBps.value < 10_000 * (fee + 1)))))
  {
    if r.feePolicy.Some? && r.feePolicy.value.pendingFeeBps.Some? && 0 <= r.feePolicy.value.pendingFeeBps.value {
      FeeIsFloor(gross, r.feePolicy.value.pendingFeeBps.value, fee);
    }
  }

  /** The fee a request owes, when its rate is not negative. */
  lemma ExpectedFeeIs(r: Relay.Request, gross: int, fee: int)
    requires gross >= 0 && (r.feePolicy.Some? ==> 0 <= r.feePolicy.value.activeFeeBps)
    ensures var bps := if r.feePolicy.Some? then r.feePolicy.value.activeFeeBps else 33;
      fee == Relay.ExpectedFee(r, gross) <==> 10_000 * fee <= gross * bps < 10_000 * (fee + 1)
  {
    FeeIsFloor(gross, if r.feePolicy.Some? then r.feePolicy.value.activeFeeBps else 33, fee);
  }

  /** A v1.2 call is accepted exactly when its ten public inputs repeat the call and the request, its fee is what the
      active rate gives, the fee policy and the user's bounds allow it, its exit is a mainnet denomination, it names
      nullifier, destination and output, its ciphertext is sealed for the output, and the last two public inputs are
      the hashes of its context and of its output note. */
  lemma V12AcceptedIff(h: Hashes, r: Relay.Request)
    requires r.mode == Relay.V12Unlinkable
    ensures Relay.RelayAccepts(h, r) <==>
      && r.data.BoundedChange?
      && var c, p, note, minNet, maxFee := r.data.args, r.data.args.publicInputs, r.data.encryptedNote, r.data.minNet,
           r.data.maxFee;
      && |p| == 10 && p[1] == c.nullifier != 0 && p[3] == c.destination != 0 && p[4] == c.gross && IsMainnet(c.gross)
      && p[5] == Relay.ExpectedFee(r, c.gross) && Relay.FeePolicyAllows(r, c.gross, p[5])
      && minNet <= c.gross - p[5] && p[5] <= maxFee <= c.gross
      && p[6] == r.chainId && (r.chainId == 6343 || r.chainId == 4326) && p[7] == r.pool != 0
      && p[0] != 0 && p[2] != 0 && 0 < |note| <= 2048 && h.sealed(note, r.chainId, r.pool, p[2])
      && p[9] == h.output(OutputNote(h.tag(OutputNoteTag), 2, r.chainId, r.pool, h.tag(ShapeV12), 0x678d8506,
                                     c.nullifier, p[2], h.ciphertext(note)))
      && p[8] == h.context(ProofContext(h.tag(ProofContextTag), 1, r.chainId, r.pool, h.tag(ShapeV12), 0x678d8506, p[0],
                                        c.nullifier, c.destination, c.gross, p[5], p[9],
                                        h.policy(RelayerPolicy(h.tag(RelayerPolicyTag), 1, 0, minNet, maxFee, 0)), 0))
  {
  }

  /** In numbers: an accepted v1.2 call pays the floor of its share, at most one hundredth, within the user's
      bounds. */
  lemma AcceptedV12Pays(h: Hashes, r: Relay.Request)
    requires r.mode == Relay.V12Unlinkable && Relay.RelayAccepts(h, r)
    ensures r.data.BoundedChange? && |r.data.args.publicInputs| == 10
    ensures var c, p := r.data.args, r.data.args.publicInputs;
      var bps := if r.feePolicy.Some? then r.feePolicy.value.activeFeeBps else 33;
      && 10_000 * p[5] <= c.gross * bps < 10_000 * (p[5] + 1) && 0 <= 100 * p[5] <= c.gross
      && r.data.minNet <= c.gross - p[5] && p[5] <= r.data.maxFee <= c.gross
      && IsMainnet(c.gross) && c.nullifier != 0 && c.destination != 0 && p[2] != 0
  {
    V12AcceptedIff(h, r);
    var c, p := r.data.args, r.data.args.publicInputs;
    FeePolicyAllowsIff(r, c.gross, p[5]);
    ExpectedFeeIs(r, c.gross, p[5]);
    var bps := if r.feePolicy.Some? then r.feePolicy.value.activeFeeBps else 33;
    assert c.gross * (100 - bps) >= 0;
    assert c.gross * bps >= 0;
  }

  /** What every accepted v1.1 call needs: its twelve public inputs repeat the call and the request, its fee is what
      the active rate gives, the fee policy and the user's bounds allow it, its note and its exit are mainnet
      denominations, and it names nullifier, destination, root and spent commitment. */
  lemma BoundedExitAcceptedIff(h: Hashes, r: Relay.Request)
    requires r.mode == Relay.V11 && r.data.BoundedWithdraw?
    ensures Relay.RelayAccepts(h, r) <==>
      && var c, p, minNet, maxFee := r.data.args, r.data.args.publicInputs, r.data.minNet, r.data.maxFee;
      var shape := if r.feePolicy.Some? then h.tag(ShapeV12) else h.tag(ShapeV11);
      && |p| == 12 && p[1] == c.nullifier != 0 && p[3] == c.destination != 0 && p[4] == c.gross && IsMainnet(c.gross)
      && p[5] == Relay.ExpectedFee(r, c.gross) && Relay.FeePolicyAllows(r, c.gross, p[5])
      && minNet <= c.gross - p[5] && p[5] <= maxFee <= c.gross
      && p[6] == r.chainId && (r.chainId == 6343 || r.chainId == 4326) && p[7] == r.pool != 0 && p[0] != 0 && p[8] != 0
      && p[9] == c.gross && p[2] == 0
      && p[11] == h.note(EncryptedNote(h.tag(EncryptedNoteTag), 1, r.chainId, r.pool, shape, 0xc7787d0f, c.nullifier, 0,
                                       c.gross, []))
      && p[10] == h.context(ProofContext(h.tag(ProofContextTag), 1, r.chainId, r.pool, shape, 0xc7787d0f, p[0],
                                         c.nullifier, c.destination, c.gross, p[5], p[11],
                                         h.policy(RelayerPolicy(h.tag(RelayerPolicyTag), 1, 0, minNet, maxFee, 0)), 0))
  {
  }

  /** The same of a relayer-policy exit: its policy is the request's, and is in its context. */
  lemma PolicyExitAcceptedIff(h: Hashes, r: Relay.Request)
    requires r.mode == Relay.V11 && r.data.PolicyWithdraw?
    ensures Relay.RelayAccepts(h, r) <==>
      && var c, p, y := r.data.args, r.data.args.publicInputs, r.data.policy;
      var shape := if r.feePolicy.Some? then h.tag(ShapeV12) else h.tag(ShapeV11);
      var policy := RelayerPolicy(h.tag(RelayerPolicyTag), 1, y.relayer, y.minNetAmount, y.maxFeeAmount, y.deadlineOrZero);
      && |p| == 12 && p[1] == c.nullifier != 0 && p[3] == c.destination != 0 && p[4] == c.gross && IsMainnet(c.gross)
      && p[5] == Relay.ExpectedFee(r, c.gross) && Relay.FeePolicyAllows(r, c.gross, p[5])
      && 0 <= y.minNetAmount <= c.gross - p[5] && p[5] <= y.maxFeeAmount <= c.gross && 0 <= y.maxFeeAmount
      && r.deadline == Some(y.deadlineOrZero) && 0 <= y.deadlineOrZero <= 9_007_199_254_740_991
      && (r.expectedRelayer.Some? ==> r.expectedRelayer.value == y.relayer)
      && (r.expectedPolicyHash.Some? ==> r.expectedPolicyHash.value == h.policy(policy))
      && p[6] == r.chainId && (r.chainId == 6343 || r.chainId == 4326) && p[7] == r.pool != 0 && p[0] != 0 && p[8] != 0
      && p[9] == c.gross && p[2] == 0
      && p[11] == h.note(EncryptedNote(h.tag(EncryptedNoteTag), 1, r.chainId, r.pool, shape, 0x6666d824, c.nullifier, 0,
                                       c.gross, []))
      && p[10] == h.context(ProofContext(h.tag(ProofContextTag), 1, r.chainId, r.pool, shape, 0x6666d824, p[0],
                                         c.nullifier, c.destination, c.gross, p[5], p[11], h.policy(policy),
                                         y.deadlineOrZero))
  {
  }

  /** A change call that leaves nothing: no change, no commitment and no ciphertext. */
  predicate LeavesNothing(data: Relay.Calldata)
    requires data.BoundedChange?
  {
    var p := data.args.publicInputs;
    |p| == 12 && p[9] == data.args.gross && p[2] == 0 && data.encryptedNote == []
  }

  /** The same of a change call that leaves nothing, with the hash of an empty note of the whole amount. */
  lemma UnifiedExitAcceptedIff(h: Hashes, r: Relay.Request)
    requires r.mode == Relay.V11 && r.data.BoundedChange? && LeavesNothing(r.data)
    ensures Relay.RelayAccepts(h, r) <==>
      && var c, p, note, minNet, maxFee := r.data.args, r.data.args.publicInputs, r.data.encryptedNote, r.data.minNet,
           r.data.maxFee;
      var shape := if r.feePolicy.Some? then h.tag(ShapeV12) else h.tag(ShapeV11);
      var policy := RelayerPolicy(h.tag(RelayerPolicyTag), 1, 0, minNet, maxFee, 0);
      && |p| == 12 && p[1] == c.nullifier != 0 && p[3] == c.destination != 0 && p[4] == c.gross && IsMainnet(c.gross)
      && p[5] == Relay.ExpectedFee(r, c.gross) && Relay.FeePolicyAllows(r, c.gross, p[5])
      && minNet <= c.gross - p[5] && p[5] <= maxFee <= c.gross
      && (r.expectedPolicyHash.Some? ==> r.expectedPolicyHash.value == h.policy(policy))
      && p[6] == r.chainId && (r.chainId == 6343 || r.chainId == 4326) && p[7] == r.pool != 0 && p[0] != 0 && p[8] != 0
      && p[11] == h.note(EncryptedNote(h.tag(EncryptedNoteTag), 1, r.chainId, r.pool, shape, 0x678d8506, c.nullifier, 0,
                                       c.gross, []))
      && p[10] == h.context(ProofContext(h.tag(ProofContextTag), 1, r.chainId, r.pool, shape, 0x678d8506, p[0],
                                         c.nullifier, c.destination, c.gross, p[5], p[11], h.policy(policy), 0))
  {
  }

  /** The relay's check of the change itself. */
  lemma ChangeChecksIff(h: Hashes, r: Relay.Request)
    requires r.mode == Relay.V11 && r.data.BoundedChange? && !LeavesNothing(r.data) && |r.data.args.publicInputs| == 12
    ensures var x := Relay.PreflightOf(h, r, Relay.DecodeCall(r.data).value);
      var shape := if r.feePolicy.Some? then h.tag(ShapeV12) else h.tag(ShapeV11);
      var policy := RelayerPolicy(h.tag(RelayerPolicyTag), 1, 0, r.data.minNet, r.data.maxFee, 0);
      Relay.ChangeAccepts(h, x) <==>
        && IsMainnet(x.changeAmount) && x.changeCommitment != 0 && 0 < |x.encryptedChangeNote| <= 2048
        && x.fee <= x.gross && IsUint256(x.fee)
        && SupportedChain(r.chainId) && r.pool != 0 && x.nullifier != 0 && x.root != 0
        && (r.expectedPolicyHash.Some? ==> r.expectedPolicyHash.value == h.policy(policy))
        && x.encryptedNoteHash
        == h.note(EncryptedNote(h.tag(EncryptedNoteTag), 1, r.chainId, r.pool, shape, 0x678d8506, x.nullifier,
                                x.changeCommitment, x.changeAmount, x.encryptedChangeNote))
        && x.proofContextHash
        == h.context(ProofContext(h.tag(ProofContextTag), 1, r.chainId, r.pool, shape, 0x678d8506, x.root, x.nullifier,
                                  x.destination, x.gross, x.fee, x.encryptedNoteHash, h.policy(policy), 0))
  {
  }

  /** The same of any other change call: its change is a mainnet denomination, with a commitment, a short ciphertext
      and the hash of that note. */
  lemma ChangeAcceptedIff(h: Hashes, r: Relay.Request)
    requires r.mode == Relay.V11 && r.data.BoundedChange? && !LeavesNothing(r.data)
    ensures Relay.RelayAccepts(h, r) <==>
      && var c, p, note, minNet, maxFee := r.data.args, r.data.args.publicInputs, r.data.encryptedNote, r.data.minNet,
           r.data.maxFee;
      var shape := if r.feePolicy.Some? then h.tag(ShapeV12) else h.tag(ShapeV11);
      var policy := RelayerPolicy(h.tag(RelayerPolicyTag), 1, 0, minNet, maxFee, 0);
      && |p| == 12 && p[1] == c.nullifier != 0 && p[3] == c.destination != 0 && p[4] == c.gross && IsMainnet(c.gross)
      && p[5] == Relay.ExpectedFee(r, c.gross) && Relay.FeePolicyAllows(r, c.gross, p[5])
      && minNet <= c.gross - p[5] && p[5] <= maxFee <= c.gross
      && (r.expectedPolicyHash.Some? ==> r.expectedPolicyHash.value == h.policy(policy))
      && p[6] == r.chainId && (r.chainId == 6343 || r.chainId == 4326) && p[7] == r.pool != 0 && p[0] != 0 && p[8] != 0
      && IsMainnet(p[9]) && IsMainnet(p[9] - c.gross) && p[2] != 0 && 0 < |note| <= 2048
      && p[11] == h.note(EncryptedNote(h.tag(EncryptedNoteTag), 1, r.chainId, r.pool, shape, 0x678d8506, c.nullifier,
                                       p[2], p[9] - c.gross, note))
      && p[10] == h.context(ProofContext(h.tag(ProofContextTag), 1, r.chainId, r.pool, shape, 0x678d8506, p[0],
                                         c.nullifier, c.destination, c.gross, p[5], p[11], h.policy(policy), 0))
  {
    if |r.data.args.publicInputs| == 12 {
      ChangeChecksIff(h, r);
    }
  }

  /** No other calldata is accepted. */
  lemma OtherCalldataIsRefused(h: Hashes, r: Relay.Request)
    requires !r.data.BoundedWithdraw? && !r.data.PolicyWithdraw? && !r.data.BoundedChange?
    ensures !Relay.RelayAccepts(h, r)
  {
  }

  /** What the decoded call carries of each calldata. */
  lemma DecodedCallIs(data: Relay.Calldata)
    ensures Relay.DecodeCall(data).Success? <==> data.BoundedWithdraw? || data.PolicyWithdraw? || data.BoundedChange?
    ensures Relay.DecodeCall(data).Success? ==>
      var call := Relay.DecodeCall(data).value;
      && call.publicInputs == data.args.publicInputs && call.nullifier == data.args.nullifier
      && call.destination == data.args.destination && call.gross == data.args.gross && call.hasUserBounds
      && (data.BoundedWithdraw? ==>
            && call.selector == 0xc7787d0f && !call.hasChangeNote && call.encryptedChangeNote == None
            && call.relayerPolicy == None && call.minNetAmount == Some(data.minNet) && call.maxFeeAmount == Some(data.maxFee))
      && (data.PolicyWithdraw? ==>
            && call.selector == 0x6666d824 && !call.hasChangeNote && call.encryptedChangeNote == None
            && call.relayerPolicy == Some(data.policy) && call.minNetAmount == Some(data.policy.minNetAmount)
            && call.maxFeeAmount == Some(data.policy.maxFeeAmount))
      && (data.BoundedChange? ==>
            && call.selector == 0x678d8506 && call.hasChangeNote && call.encryptedChangeNote == Some(data.encryptedNote)
            && call.relayerPolicy == None && call.minNetAmount == Some(data.minNet) && call.maxFeeAmount == Some(data.maxFee))
  {
  }

  // The builder and the indexer.

  /** The builder builds exactly from nonzero fields on a supported chain, with amounts that conserve the note, the
      floor fee, a ciphertext, and a 256-bit policy. */
  lemma BuildsIff(h: Hashes, input: ChangeInput)
    ensures CreateWithdrawChange(h, input).Success? <==>
      && input.root != 0 && input.nullifier != 0 && input.newCommitment != 0 && input.spentCommitment != 0
      && input.destination != 0 && input.pool != 0 && (input.chainId == 6343 || input.chainId == 4326)
      && 0 < input.grossAmount && 0 < input.changeAmount && input.noteAmount == input.grossAmount + input.changeAmount
      && input.noteAmount < TWO256
      && 10_000 * input.fee <= 33 * input.grossAmount < 10_000 * (input.fee + 1)
      && input.encryptedChangeNote != []
      && (input.policy.version.Some? ==> 0 <= input.policy.version.value < TWO256)
      && 0 <= input.policy.minNetAmount < TWO256 && 0 <= input.policy.maxFeeAmount < TWO256
      && 0 <= input.policy.deadlineOrZero < TWO256
  {
  }

  /** What the builder hashes and returns. */
  lemma BuiltIs(h: Hashes, input: ChangeInput)
    requires CreateWithdrawChange(h, input).Success?
    ensures var b, y := CreateWithdrawChange(h, input).value, input.policy;
      var policy := RelayerPolicy(if y.domain.Some? then y.domain.value else h.tag(RelayerPolicyTag),
                                  if y.version.Some? then y.version.value else 1, y.relayer, y.minNetAmount,
                                  y.maxFeeAmount, y.deadlineOrZero);
      && b.selector == (if input.selector.Some? then input.selector.value else 0x678d8506)
      && b.netAmount == input.grossAmount - input.fee && b.relayerPolicyHash == h.policy(policy)
      && b.encryptedNoteHash
      == h.note(EncryptedNote(h.tag(EncryptedNoteTag), 1, input.chainId, input.pool, h.tag(ShapeV11), b.selector,
                              input.nullifier, input.newCommitment, input.changeAmount, input.encryptedChangeNote))
      && b.proofContextHash
      == h.context(ProofContext(h.tag(ProofContextTag), 1, input.chainId, input.pool, h.tag(ShapeV11), b.selector,
                                input.root, input.nullifier, input.destination, input.grossAmount, input.fee,
                                b.encryptedNoteHash, b.relayerPolicyHash, y.deadlineOrZero))
      && b.publicInputs
      == [input.root, input.nullifier, input.newCommitment, input.destination, input.grossAmount, input.fee,
          input.chainId, input.pool, input.spentCommitment, input.noteAmount, b.proofContextHash, b.encryptedNoteHash]
  {
  }

  /** The relay's preflight accepts exactly one sound change whose hashes are those of its records. */
  lemma PreflightAcceptsIff(h: Hashes, x: Relay.Preflight)
    ensures Relay.PreflightAccepts(h, x) <==>
      var shape, y := if x.shape.Some? then x.shape.value else h.tag(ShapeV11), x.policy;
      var policy := RelayerPolicy(h.tag(RelayerPolicyTag), 1, y.relayer, y.minNetAmount, y.maxFeeAmount, y.deadlineOrZero);
      && (x.selector.Some? ==> x.selector.value == 0x678d8506)
      && x.changeCommitment != 0 && 0 < |x.encryptedChangeNote| <= 2048 && 0 < x.changeAmount < TWO256
      && x.fee <= x.gross && x.note == x.gross + x.changeAmount
      && (x.outputCommitments.Some? ==> x.outputCommitments.value == [x.changeCommitment])
      && (x.encryptedChangeNotes.Some? ==> x.encryptedChangeNotes.value == [x.encryptedChangeNote])
      && (x.changeAmounts.Some? ==> x.changeAmounts.value == [x.changeAmount])
      && (x.chainId == 6343 || x.chainId == 4326) && x.pool != 0 && x.nullifier != 0 && x.root != 0
      && 0 <= x.gross < TWO256 && 0 <= x.fee && 0 <= y.minNetAmount < TWO256 && 0 <= y.maxFeeAmount < TWO256
      && 0 <= y.deadlineOrZero < TWO256
      && (x.policyHash.Some? ==> x.policyHash.value == h.policy(policy))
      && x.encryptedNoteHash
      == h.note(EncryptedNote(h.tag(EncryptedNoteTag), 1, x.chainId, x.pool, shape, 0x678d8506, x.nullifier,
                              x.changeCommitment, x.changeAmount, x.encryptedChangeNote))
      && x.proofContextHash
      == h.context(ProofContext(h.tag(ProofContextTag), 1, x.chainId, x.pool, shape, 0x678d8506, x.root, x.nullifier,
                                x.destination, x.gross, x.fee, x.encryptedNoteHash, h.policy(policy), y.deadlineOrZero))
  {
  }

  /** The indexer binds a change exactly when its fields, its outputs and its event say one sound change, and the
      hashes it is given are those of the note and, with all of the context, of the context. */
  lemma BindsChangeIff(h: Hashes, x: Indexer.ChangeBinding)
    ensures Indexer.BindsChange(h, x) <==>
      && var shape := if x.shape.Some? then x.shape.value else h.tag(ShapeV11);
      && (x.selector.Some? ==> x.selector.value == 0x678d8506)
      && (x.chainId == 6343 || x.chainId == 4326) && x.pool != 0 && x.nullifier != 0 && x.changeCommitment != 0
      && IsMainnet(x.noteAmount) && IsMainnet(x.grossAmount) && IsMainnet(x.changeAmount) && x.fee <= x.grossAmount
      && x.noteAmount == x.grossAmount + x.changeAmount && 0 < |x.encryptedChangeNote| <= 2048
      && (x.outputCommitments.Some? ==> x.outputCommitments.value == [x.changeCommitment])
      && (x.encryptedChangeNotes.Some? ==> x.encryptedChangeNotes.value == [x.encryptedChangeNote])
      && (x.changeAmounts.Some? ==> x.changeAmounts.value == [x.changeAmount])
      && (x.event.Some? ==>
            && x.event.value.chainId == x.chainId && x.event.value.pool == x.pool
            && x.event.value.eventType == Indexer.WithdrawChangeEvent && x.event.value.commitment == x.changeCommitment
            && x.event.value.encryptedNote == x.encryptedChangeNote
            && (x.event.value.nullifier.Some? ==> x.event.value.nullifier.value == x.nullifier))
      && x.encryptedNoteHash
      == h.note(EncryptedNote(h.tag(EncryptedNoteTag), 1, x.chainId, x.pool, shape, 0x678d8506, x.nullifier,
                              x.changeCommitment, x.changeAmount, x.encryptedChangeNote))
      && (x.root.Some? && x.destination.Some? && x.policyHash.Some? && x.deadline.Some? && x.proofContextHash.Some? ==>
            && x.root.value != 0 && 0 <= x.fee && 0 <= x.deadline.value < TWO256
            && x.proofContextHash.value
            == h.context(ProofContext(h.tag(ProofContextTag), 1, x.chainId, x.pool, shape, 0x678d8506, x.root.value,
                                      x.nullifier, x.destination.value, x.grossAmount, x.fee, x.encryptedNoteHash,
                                      x.policyHash.value, x.deadline.value)))
  {
  }

  /** The evidence that approves a v1.2 output: of a known runtime on its own chain and pool. */
  lemma ReadinessIff(evidence: Option<Indexer.Evidence>, chainId: int, pool: Address)
    ensures Indexer.HasReadiness(evidence, chainId, pool) <==>
      && evidence.Some?
      && var e := evidence.value;
      && e.ready && e.finalReadiness && !e.mainnetBlocked && e.chainId == chainId && e.pool == pool
      && (|| ((e.runtimeId == Indexer.MainnetRuntime || e.runtimeId == Indexer.FeeGovernanceRuntime)
              && chainId == 4326 && pool == 0x08bA57aA9Bc13Ccaf0dda0Fb7Cd7A2570b0FE4d8
              && (e.sha256 == 0x66def458e16ea6ed9d1df9c15a79ec83c23d4d4ccdec631d868f614cc0e94ff4
                  || e.sha256 == 0xb87aa47a407f0347a920fcebe76f84d402be8bd5e82f5fe5980ffea557bfa996))
          || (e.runtimeId == Indexer.TestnetRehearsalRuntime
              && chainId == 6343 && pool == 0xEc61D863700DeF260E7BABA634FAa24AEC81f29e
              && e.sha256 == 0x7cf2ba6c7d482179a5a246ad4fa0ab7c4bbebb6a48108d0fe0963b8a364c825e))
  {
  }

  /** The indexer binds a v1.2 output exactly with readiness, ten public inputs for its chain and pool, a sealed
      ciphertext, its event, no field of an earlier version, and the hashes of the output and, with the hints, of
      the context as the last two public inputs. */
  lemma BindsOutputIff(h: Hashes, x: Indexer.OutputBinding)
    ensures Indexer.BindsOutput(h, x) <==>
      && Indexer.HasReadiness(x.evidence, x.chainId, x.pool) && x.legacy == {} && |x.publicInputs| == 10
      && var p, note := x.publicInputs, x.encryptedOutputNote;
      && (x.selector.Some? ==> x.selector.value == 0x678d8506)
      && p[6] == x.chainId && p[7] % TWO160 == x.pool && p[1] != 0 && p[2] != 0 && 0 < |note| <= 2048
      && h.sealed(note, x.chainId, x.pool, p[2])
      && x.event.Some? && x.event.value.chainId == x.chainId && x.event.value.pool == x.pool
      && x.event.value.eventType == Indexer.WithdrawOutputEvent && x.event.value.commitment == p[2]
      && x.event.value.encryptedNote == note
      && (x.event.value.nullifier.Some? ==> x.event.value.nullifier.value == p[1])
      && p[9] == h.output(OutputNote(h.tag(OutputNoteTag), 2, x.chainId, x.pool, h.tag(ShapeV12), 0x678d8506, p[1], p[2],
                                     h.ciphertext(note)))
      && (x.policyHash.Some? && x.deadline.Some? ==>
            && p[0] != 0 && 0 <= x.deadline.value < TWO256
            && p[8] == h.context(ProofContext(h.tag(ProofContextTag), 1, x.chainId, x.pool, h.tag(ShapeV12), 0x678d8506,
                                              p[0], p[1], p[3] % TWO160, p[4], p[5], p[9], x.policyHash.value,
                                              x.deadline.value)))
  {
    if Indexer.HasReadiness(x.evidence, x.chainId, x.pool) {
      ReadinessIff(x.evidence, x.chainId, x.pool);
    }
  }
}
