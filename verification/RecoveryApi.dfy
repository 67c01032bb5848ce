/** The recovery endpoint that serves Merkle paths, and what its answers imply about the runs of
    ingestion before them. Models services/indexer/src/recoveryApi.ts. */
module RecoveryApi {
  import opened Wrappers
  import opened Js32
  import opened MerkleTree
  import opened JsPaths
  import opened MerklePaths
  import opened Ranges
  import opened LogIngest

  /** A query field: absent, present but not of its kind, or a value. */
  datatype Field<+T> = Absent | Malformed | Value(value: T)

  datatype RecoveryQuery = RecoveryQuery(
    fields: set<string>, chainId: Field<nat>, pool: Field<nat>, commitment: Field<Digest>)

  datatype ReadinessEvidence = ReadinessEvidence(
    runtimeId: string, chainId: nat, pool: nat, ready: bool, mainnet4326Blocked: bool, finalReadiness: bool,
    evidenceSha256: Digest, canonicalRuntimeSource: Option<string>)

  datatype RuntimeBinding = RuntimeBinding(runtimeId: string, chainId: nat, pool: nat, approved: set<Digest>)

  datatype RecoveryConfig = RecoveryConfig(
    chainId: nat, pool: nat, runtimeId: Option<string>, evidence: Option<ReadinessEvidence>,
    merklePaths: MerklePathIndex, latestCheckedBlock: int, scanStartBlock: Option<int>,
    checkedRanges: Option<RangeTracker>, acceptedRoots: Option<set<Digest>>)

  /** The gaps reported with an answer: none when there is no tracker. */
  datatype RangeStatus = RangeStatus(partialSync: bool, missingRangeCount: nat, visible: seq<BlockRange>, truncated: bool)

  datatype Body =
    | Refusal(ranges: Option<RangeStatus>)
    | Path(path: MerklePathResult)

  datatype Response = Response(status: nat, body: Body)

  const MAX_MISSING_RANGES := 25
  const MAINNET_POOL: nat := 0x08bA57aA9Bc13Ccaf0dda0Fb7Cd7A2570b0FE4d8
  const APPROVED_HASHES: set<Digest> := {
    0x66def458e16ea6ed9d1df9c15a79ec83c23d4d4ccdec631d868f614cc0e94ff4,
    0xb87aa47a407f0347a920fcebe76f84d402be8bd5e82f5fe5980ffea557bfa996 }
  const RUNTIME_BINDINGS: seq<RuntimeBinding> := [
    RuntimeBinding("nullark-v1.2-mainnet", 4326, MAINNET_POOL, APPROVED_HASHES),
    RuntimeBinding("nullark-v1.2-fee-governance", 4326, MAINNET_POOL, APPROVED_HASHES)]
  const FORBIDDEN_FIELDS := {
    "discoveryTag", "futureNullifier", "ownerAddress", "ownerTag", "publicDiscoveryTag", "stableDiscoveryTag",
    "walletAddress", "walletDiscoveryTag", "walletTag" }

  function ToLower(s: string): string {
    seq(|s|, i requires 0 <= i < |s| => if 'A' <= s[i] <= 'Z' then s[i] - 'A' + 'a' else s[i])
  }

  predicate Contains(s: string, part: string) {
    exists k :: 0 <= k <= |s| - |part| && OccursAt(s, part, k)
  }

  predicate OccursAt(s: string, part: string, k: nat)
    requires k + |part| <= |s|
  {
    s[k..k + |part|] == part
  }

  predicate HasWalletLinkedField(fields: set<string>) {
    exists key :: key in fields && IsWalletLinked(key)
  }

  predicate IsWalletLinked(key: string) {
    var lower := ToLower(key);
    || key in FORBIDDEN_FIELDS
    || Contains(lower, "wallet") || Contains(lower, "discovery") || Contains(lower, "tag")
    || Contains(lower, "nullifier")
  }

  /** The binding of a v1.2 runtime, and whether an unbound v1.2 runtime is blocked. */
  function BindingOf(config: RecoveryConfig): (Option<RuntimeBinding>, bool) {
    if config.runtimeId.None? || config.runtimeId.value == "nullark-v1.1-mainnet" then (None, false)
    else if Matches(config, RUNTIME_BINDINGS[0]) then (Some(RUNTIME_BINDINGS[0]), false)
    else if Matches(config, RUNTIME_BINDINGS[1]) then (Some(RUNTIME_BINDINGS[1]), false)
    else (None, Contains(config.runtimeId.value, "v1.2"))
  }

  predicate Matches(config: RecoveryConfig, binding: RuntimeBinding) {
    config.runtimeId == Some(binding.runtimeId) && config.chainId == binding.chainId && config.pool == binding.pool
  }

  predicate HasMatchingEvidence(config: RecoveryConfig, binding: RuntimeBinding) {
    && config.evidence.Some?
    && var evidence := config.evidence.value;
    && evidence.runtimeId == binding.runtimeId
    && evidence.ready && !evidence.mainnet4326Blocked && evidence.finalReadiness
    && evidence.chainId == binding.chainId && evidence.pool == binding.pool
    && evidence.evidenceSha256 in binding.approved
    && (evidence.canonicalRuntimeSource.None?
        || evidence.canonicalRuntimeSource.value == "public-artifacts/current.json"
        || evidence.canonicalRuntimeSource.value == "apps/web/public/proving/trusted-setup-record.json")
  }

  function ScanStart(config: RecoveryConfig): int {
    if config.scanStartBlock.Some? then config.scanStartBlock.value else 0
  }

  ghost predicate ConfigValid(config: RecoveryConfig)
    reads config.merklePaths, if config.checkedRanges.Some? then {config.checkedRanges.value} else {}
  {
    config.merklePaths.Valid() && (config.checkedRanges.Some? ==> config.checkedRanges.value.Valid())
  }

  /** Every block from the scan start to the latest checked block is covered, and there is one. */
  ghost predicate SyncComplete(config: RecoveryConfig)
    reads if config.checkedRanges.Some? then {config.checkedRanges.value} else {}
  {
    && config.checkedRanges.Some? && ScanStart(config) <= config.latestCheckedBlock
    && forall x :: ScanStart(config) <= x <= config.latestCheckedBlock ==>
      Covers(config.checkedRanges.value.checkedRanges, x)
  }

  /** A report counts the missing ranges and shows the first of them. */
  ghost predicate Reports(config: RecoveryConfig, status: RangeStatus, missing: seq<BlockRange>)
    reads if config.checkedRanges.Some? then {config.checkedRanges.value} else {}
  {
    && config.checkedRanges.Some? && Canonical(missing) && (status.partialSync <==> !SyncComplete(config))
    && (forall x :: Covers(missing, x) <==>
          ScanStart(config) <= x <= config.latestCheckedBlock && !Covers(config.checkedRanges.value.checkedRanges, x))
    && status.missingRangeCount == |missing| && (status.truncated <==> |missing| > MAX_MISSING_RANGES)
    && status.visible == if |missing| > MAX_MISSING_RANGES then missing[..MAX_MISSING_RANGES] else missing
  }

  /** What is reported of the missing ranges, and all of them. */
  method MissingRangeStatus(config: RecoveryConfig) returns (status: Option<RangeStatus>, ghost missing: seq<BlockRange>)
    requires ConfigValid(config)
    ensures status.Some? <==> config.checkedRanges.Some?
    ensures status.Some? ==> (status.value.partialSync <==> !SyncComplete(config))
    ensures status.Some? ==> Canonical(missing) && forall x :: Covers(missing, x) <==>
      ScanStart(config) <= x <= config.latestCheckedBlock && !Covers(config.checkedRanges.value.checkedRanges, x)
    ensures status.Some? ==>
      && status.value.missingRangeCount == |missing| && (status.value.truncated <==> |missing| > 25)
      && status.value.visible == if |missing| > 25 then missing[..25] else missing
    ensures status.Some? ==> Reports(config, status.value, missing)
  {
    missing := [];
    if config.checkedRanges.None? {
      return None, missing;
    }
    var tracker, scanStart := config.checkedRanges.value, ScanStart(config);
    if config.latestCheckedBlock < scanStart {
      return Some(RangeStatus(true, 0, [], false)), missing;
    }
    var found := tracker.FindMissingRanges(BlockRange(scanStart, config.latestCheckedBlock));
    missing := found;
    if found != [] {
      assert found[0].Has(found[0].fromBlock);
      assert Covers(found, found[0].fromBlock);
    }
    var visible := if |found| > MAX_MISSING_RANGES then found[..MAX_MISSING_RANGES] else found;
    status := Some(RangeStatus(|found| > 0, |found|, visible, |found| > |visible|));
  }

  /** The status of the answer, in the order of the handler's checks. */
  ghost function StatusOf(config: RecoveryConfig, query: RecoveryQuery): nat
    reads config.merklePaths, if config.checkedRanges.Some? then {config.checkedRanges.value} else {}
  {
    var (binding, blocked) := BindingOf(config);
    var index, roots := config.merklePaths, config.acceptedRoots;
    if HasWalletLinkedField(query.fields) || query.chainId != Value(config.chainId) then 400
    else if query.pool.Absent? || query.commitment.Absent? then 400
    else if query.pool != Value(config.pool) then 404
    else if blocked || (binding.Some? && !HasMatchingEvidence(config, binding.value)) then 503
    else if query.commitment.Malformed? then 400
    else if binding.Some? && (!SyncComplete(config) || roots.None? || roots.value == {}) then 503
    else if query.commitment.value !in index.indexByCommitment then 404
    else if roots.Some? && index.Tree().Node(index.depth, 0) !in roots.value then 409
    else 200
  }

  method MerklePathHandler(config: RecoveryConfig, query: RecoveryQuery) returns (r: Response)
    requires ConfigValid(config)
    modifies config.merklePaths`sortedLeafIndexes, config.merklePaths`pathCache, config.merklePaths`served
    ensures ConfigValid(config)
    ensures r.status == old(StatusOf(config, query))
    ensures r.status == 200 <==> r.body.Path?
    ensures r.status == 200 ==> query.commitment.Value? && query.commitment.value in config.merklePaths.indexByCommitment
    ensures r.status == 200 ==>
      var index, c := config.merklePaths, query.commitment.value;
      r.body.path == FreshPath(index.Tree(), index.depth, c, index.indexByCommitment[c])
    ensures r.body.Refusal? ==>
      var (binding, blocked) := BindingOf(config);
      var ready := !blocked && (binding.Some? ==> HasMatchingEvidence(config, binding.value));
      r.body.ranges.Some? <==>
        && config.checkedRanges.Some? && query.pool == Value(config.pool)
        && (r.status == 404 || (r.status == 503 && ready && !SyncComplete(config)))
    ensures r.body.Refusal? && r.body.ranges.Some? ==> exists missing :: Reports(config, r.body.ranges.value, missing)
  {
    if HasWalletLinkedField(query.fields) || query.chainId != Value(config.chainId) {
      return Response(400, Refusal(None));
    }
    if query.pool.Absent? || query.commitment.Absent? {
      return Response(400, Refusal(None));
    }
    if query.pool != Value(config.pool) {
      return Response(404, Refusal(None));
    }
    var (binding, blocked) := BindingOf(config);
    if blocked || (binding.Some? && !HasMatchingEvidence(config, binding.value)) {
      return Response(503, Refusal(None));
    }
    if query.commitment.Malformed? {
      return Response(400, Refusal(None));
    }
    var rangeStatus, missing := MissingRangeStatus(config);
    if binding.Some? {
      if rangeStatus.None? || rangeStatus.value.partialSync {
        return Response(503, Refusal(rangeStatus));
      }
      if config.acceptedRoots.None? || config.acceptedRoots.value == {} {
        return Response(503, Refusal(None));
      }
    }
    var path := config.merklePaths.GetMerklePathForCommitment(query.commitment.value);
    if path.Failure? {
      assert rangeStatus.Some? ==> Reports(config, rangeStatus.value, missing);
      return Response(404, Refusal(rangeStatus));
    }
    if config.acceptedRoots.Some? && path.value.root !in config.acceptedRoots.value {
      return Response(409, Refusal(None));
    }
    r := Response(200, Path(path.value));
  }

  /** The configuration is of a v1.2 runtime on its own chain and pool. */
  lemma BindingIff(config: RecoveryConfig)
    ensures var (binding, blocked) := BindingOf(config);
      && (binding.Some? <==>
          && (config.runtimeId == Some("nullark-v1.2-mainnet") || config.runtimeId == Some("nullark-v1.2-fee-governance"))
          && config.chainId == 4326 && config.pool == 0x08bA57aA9Bc13Ccaf0dda0Fb7Cd7A2570b0FE4d8)
      && (binding.Some? ==> Some(binding.value.runtimeId) == config.runtimeId)
      && (blocked <==> binding.None? && config.runtimeId.Some? && Contains(config.runtimeId.value, "v1.2"))
  {
    NoV12("nullark-v1.1-mainnet");
    assert !Contains("nullark-v1.1-mainnet", "v1.2");
  }

  /** What evidence is asked of a bound runtime. */
  lemma EvidenceIff(config: RecoveryConfig, binding: RuntimeBinding)
    requires BindingOf(config).0 == Some(binding)
    ensures HasMatchingEvidence(config, binding) <==>
      && config.evidence.Some?
      && var e := config.evidence.value;
        && Some(e.runtimeId) == config.runtimeId && e.chainId == config.chainId && e.pool == config.pool
        && e.ready && e.finalReadiness && !e.mainnet4326Blocked
        && (e.evidenceSha256 == 0x66def458e16ea6ed9d1df9c15a79ec83c23d4d4ccdec631d868f614cc0e94ff4
            || e.evidenceSha256 == 0xb87aa47a407f0347a920fcebe76f84d402be8bd5e82f5fe5980ffea557bfa996)
        && (e.canonicalRuntimeSource.Some? ==>
              || e.canonicalRuntimeSource.value == "public-artifacts/current.json"
              || e.canonicalRuntimeSource.value == "apps/web/public/proving/trusted-setup-record.json")
  {
  }

  /** The fields that a query may carry. */
  lemma UnlinkedIff(fields: set<string>)
    ensures !HasWalletLinkedField(fields) <==> forall key :: key in fields ==>
      && key !in {"discoveryTag", "futureNullifier", "ownerAddress", "ownerTag", "publicDiscoveryTag",
                  "stableDiscoveryTag", "walletAddress", "walletDiscoveryTag", "walletTag"}
      && !Contains(ToLower(key), "wallet") && !Contains(ToLower(key), "discovery") && !Contains(ToLower(key), "tag")
      && !Contains(ToLower(key), "nullifier")
  {
    forall key
      ensures IsWalletLinked(key) <==>
        || key in {"discoveryTag", "futureNullifier", "ownerAddress", "ownerTag", "publicDiscoveryTag",
                   "stableDiscoveryTag", "walletAddress", "walletDiscoveryTag", "walletTag"}
        || Contains(ToLower(key), "wallet") || Contains(ToLower(key), "discovery") || Contains(ToLower(key), "tag")
        || Contains(ToLower(key), "nullifier")
    {
    }
  }

  /** A path is served exactly for a well-formed query without wallet-linked fields, for the configured chain and
      pool and an indexed commitment, whose root is accepted where roots are known; and for a v1.2 runtime only on
      its own chain and pool, with matching evidence, complete coverage and known roots. */
  lemma ServesIff(config: RecoveryConfig, query: RecoveryQuery)
    ensures StatusOf(config, query) == 200 <==>
      var (binding, blocked) := BindingOf(config);
      && !HasWalletLinkedField(query.fields) && query.chainId == Value(config.chainId)
      && query.pool == Value(config.pool) && query.commitment.Value?
      && query.commitment.value in config.merklePaths.indexByCommitment
      && (config.acceptedRoots.Some? ==>
            config.merklePaths.Tree().Node(config.merklePaths.depth, 0) in config.acceptedRoots.value)
      && !blocked
      && (binding.Some? ==>
            && HasMatchingEvidence(config, binding.value) && config.acceptedRoots.Some? && config.checkedRanges.Some?
            && var start := if config.scanStartBlock.Some? then config.scanStartBlock.value else 0;
              && start <= config.latestCheckedBlock
              && forall x :: start <= x <= config.latestCheckedBlock ==>
                Covers(config.checkedRanges.value.checkedRanges, x))
  {
  }

  /** When each refusal is given. */
  lemma RefusalsIff(config: RecoveryConfig, query: RecoveryQuery)
    ensures var status, (binding, blocked) := StatusOf(config, query), BindingOf(config);
      var whole :=
        && !HasWalletLinkedField(query.fields) && query.chainId == Value(config.chainId)
        && !query.pool.Absent? && !query.commitment.Absent?;
      var asked := whole && query.pool == Value(config.pool);
      var ready := !blocked && (binding.Some? ==> HasMatchingEvidence(config, binding.value));
      var synced := binding.Some? ==> SyncComplete(config) && config.acceptedRoots.Some? && config.acceptedRoots.value != {};
      var indexed := query.commitment.Value? && query.commitment.value in config.merklePaths.indexByCommitment;
      && status in {200, 400, 404, 409, 503}
      && (status == 400 <==> !whole || (asked && ready && query.commitment.Malformed?))
      && (status == 503 <==> asked && (!ready || (!query.commitment.Malformed? && !synced)))
      && (status == 404 <==>
          (whole && !asked) || (asked && ready && synced && query.commitment.Value? && !indexed))
      && (status == 409 <==>
          && asked && ready && synced && indexed && config.acceptedRoots.Some?
          && config.merklePaths.Tree().Node(config.merklePaths.depth, 0) !in config.acceptedRoots.value)
  {
  }

  predicate IsV12Runtime(runtimeId: Option<string>) {
    runtimeId.Some? && Contains(runtimeId.value, "v1.2")
  }

  /** A 200 answer for a v1.2 runtime: the index is complete, the root is accepted, and the path
      folds from the queried commitment to that root (for leaf indices below 2^31). */
  lemma ServedAnswerIsSound(config: RecoveryConfig, query: RecoveryQuery)
    requires ConfigValid(config) && IsV12Runtime(config.runtimeId) && StatusOf(config, query) == 200
    ensures SyncComplete(config)
    ensures config.acceptedRoots.Some? && query.commitment.Value?
    ensures query.chainId == Value(config.chainId) && query.pool == Value(config.pool)
    ensures config.chainId == 4326 && config.pool == 0x08bA57aA9Bc13Ccaf0dda0Fb7Cd7A2570b0FE4d8
    ensures query.commitment.value in config.merklePaths.indexByCommitment
    ensures var index, c := config.merklePaths, query.commitment.value;
      var path := FreshPath(index.Tree(), index.depth, c, index.indexByCommitment[c]);
      && path.root in config.acceptedRoots.value
      && (path.leafIndex < TWO31 ==> Fold(index.hashPair, c, path.pathElements, path.pathIndices) == path.root)
  {
    var index, c := config.merklePaths, query.commitment.value;
    var leafIndex := index.indexByCommitment[c];
    assert Contains("nullark-v1.1-mainnet", "v1.2") ==> false by {
      NoV12("nullark-v1.1-mainnet");
    }
    if leafIndex < TWO31 {
      JsSiblingsExact(index.Tree(), 0, index.depth, leafIndex);
      PathFoldsToRoot(index.Tree(), index.depth, leafIndex);
    }
  }

  lemma NoV12(s: string)
    requires s == "nullark-v1.1-mainnet"
    ensures !Contains(s, "v1.2")
  {
    forall k | 0 <= k <= |s| - 4
      ensures !OccursAt(s, "v1.2", k)
    {
      assert s[k..k + 4][0] == s[k] && s[k..k + 4][3] == s[k + 3];
      assert s[k] == 'v' ==> k == 8;
    }
  }

  /** After any run of ingestion calls, some of which may throw, a v1.2 endpoint over that state
      answers 200 only when every block from the scan start to the latest checked block lies in the
      range of a batch that ended normally, the returned root's last event was its acceptance, and
      the returned path folds from the queried commitment to that root. */
  method IngestThenServe(
    depth: nat, zero: Digest, hash: PairHash, batches: seq<Batch>,
    chainId: nat, pool: nat, runtimeId: string, evidence: Option<ReadinessEvidence>,
    latestCheckedBlock: int, scanStartBlock: Option<int>, query: RecoveryQuery)
    returns (r: Response)
    requires 0 < depth <= MAX_SAFE_DEPTH && IsV12Runtime(Some(runtimeId))
    ensures r.status == 200 ==> r.body.Path? && query.commitment.Value?
    ensures r.status == 200 ==> query.chainId == Value(chainId) && query.pool == Value(pool)
    ensures r.status == 200 ==>
      var start := if scanStartBlock.Some? then scanStartBlock.value else 0;
      && start <= latestCheckedBlock
      && forall x :: start <= x <= latestCheckedBlock ==> CheckedByRun(Some(depth), batches, x)
    ensures r.status == 200 ==>
      var last := LastRootLog(HistoryOfRun(Some(depth), batches), r.body.path.root);
      && last.Some? && last.value.event.RootAccepted?
      && exists k :: 0 <= k < |batches| && last.value in batches[k].logs && last.value.address == batches[k].source.pool
    ensures r.status == 200 && r.body.path.leafIndex < TWO31 ==>
      && |r.body.path.pathElements| == |r.body.path.pathIndices| == depth
      && Fold(hash, query.commitment.value, r.body.path.pathElements, r.body.path.pathIndices) == r.body.path.root
  {
    var index := new MerklePathIndex(depth, zero, hash, DEFAULT_CACHE_ENTRIES);
    var state := new IndexerState(index);
    IngestAll(state, batches);
    var config := RecoveryConfig(chainId, pool, Some(runtimeId), evidence, index, latestCheckedBlock,
                                 scanStartBlock, Some(state.ranges), Some(state.roots.Keys));
    if StatusOf(config, query) == 200 {
      ServedAnswerIsSound(config, query);
      RootsReflectLastEvent(state.history, index.Tree().Node(depth, 0));
      var j := LastRootLogIsApplied(state.history, index.Tree().Node(depth, 0));
      RunAppliesPoolLogs(Some(depth), batches, j);
    }
    r := MerklePathHandler(config, query);
  }
}
