/** The indexer's lazy Merkle tree: a recursion that prunes empty ranges by binary search and
    memoises nodes, behind a least-recently-used cache of finished paths.
    Models services/indexer/src/merklePaths.ts. */
module MerklePaths {
  import opened Wrappers
  import opened Collections
  import opened Powers
  import opened MerkleTree
  import opened JsPaths
  import opened OrderedMaps

  datatype MerkleError =
    | DepthNotPositive
    | DepthNotSafe
    | NegativeLeafIndex
    | LeafIndexOverCapacity
    | CommitmentElsewhere
    | LeafIndexTaken
    | CommitmentNotIndexed

  datatype MerklePathResult = MerklePathResult(
    commitment: Digest, leafIndex: int, root: Digest, pathElements: seq<Digest>, pathIndices: seq<int>)

  /** The largest depth whose capacity is a safe JavaScript integer. */
  const MAX_SAFE_DEPTH := 52
  const DEFAULT_CACHE_ENTRIES := 256

  /** A path computed from the leaves alone. */
  function FreshPath(t: Tree, depth: nat, commitment: Digest, leafIndex: int): MerklePathResult {
    MerklePathResult(commitment, leafIndex, t.Node(depth, 0), JsSiblings(t, 0, depth, leafIndex),
                     Directions(depth, leafIndex))
  }

  /** Why an insertion is refused, decided from the leaves alone. */
  ghost function InsertRefusal(depth: nat, leaves: map<int, Digest>, commitment: Digest, leafIndex: int)
    : Option<MerkleError>
  {
    if leafIndex < 0 then Some(NegativeLeafIndex)
    else if leafIndex >= Pow2(depth) then Some(LeafIndexOverCapacity)
    else if exists i :: i in leaves && leaves[i] == commitment && i != leafIndex then Some(CommitmentElsewhere)
    else if leafIndex in leaves && leaves[leafIndex] != commitment then Some(LeafIndexTaken)
    else None
  }

  /** Leaves that are all different. */
  ghost predicate AreDifferent(leaves: map<int, Digest>) {
    forall i, j :: i in leaves && j in leaves && leaves[i] == leaves[j] ==> i == j
  }

  /** Among different leaves an insertion is admitted exactly when its index is inside the tree, every present
      leaf stays where it is, and the leaves stay different. */
  lemma InsertionAdmittedIff(depth: nat, leaves: map<int, Digest>, commitment: Digest, leafIndex: int)
    requires AreDifferent(leaves)
    ensures InsertRefusal(depth, leaves, commitment, leafIndex).None? <==>
      && 0 <= leafIndex < Pow2(depth)
      && (forall i :: i in leaves ==> leaves[leafIndex := commitment][i] == leaves[i])
      && AreDifferent(leaves[leafIndex := commitment])
  {
    var after := leaves[leafIndex := commitment];
    if i :| i in leaves && leaves[i] == commitment && i != leafIndex {
      assert after[i] == after[leafIndex];
    }
    if leafIndex in leaves && leaves[leafIndex] != commitment {
      assert after[leafIndex] != leaves[leafIndex];
    }
  }

  /** The reason a refused insertion is given. */
  lemma RefusalReasons(depth: nat, leaves: map<int, Digest>, commitment: Digest, leafIndex: int)
    ensures var refusal := InsertRefusal(depth, leaves, commitment, leafIndex);
      var inside := 0 <= leafIndex < Pow2(depth);
      var elsewhere := exists i :: i in leaves && leaves[i] == commitment && i != leafIndex;
      && (refusal == Some(NegativeLeafIndex) <==> leafIndex < 0)
      && (refusal == Some(LeafIndexOverCapacity) <==> leafIndex >= Pow2(depth))
      && (refusal == Some(CommitmentElsewhere) <==> inside && elsewhere)
      && (refusal == Some(LeafIndexTaken) <==>
          inside && !elsewhere && leafIndex in leaves && leaves[leafIndex] != commitment)
  {
  }

  /** Whether a leaf index lies in a half-open range. */
  ghost predicate HitsRange(leafIndexes: seq<int>, rangeStart: int, rangeEnd: int) {
    exists k :: 0 <= k < |leafIndexes| && rangeStart <= leafIndexes[k] < rangeEnd
  }

  ghost predicate Ascending(s: seq<int>) {
    forall i, j :: 0 <= i < j < |s| ==> s[i] < s[j]
  }

  /** The index's keys in ascending order. */
  ghost predicate SortedKeys(s: seq<int>, leaves: map<int, Digest>) {
    && Ascending(s)
    && (forall i :: 0 <= i < |s| ==> s[i] in leaves)
    && (forall leaf :: leaf in leaves ==> leaf in s)
  }

  /** The binary search decides whether any leaf lies in the range. */
  method HasLeafInRange(leafIndexes: seq<int>, rangeStart: int, rangeEnd: int) returns (found: bool)
    requires Ascending(leafIndexes)
    ensures found <==> HitsRange(leafIndexes, rangeStart, rangeEnd)
  {
    var lo, hi := 0, |leafIndexes|;
    while lo < hi
      invariant 0 <= lo <= hi <= |leafIndexes|
      invariant forall k :: 0 <= k < lo ==> leafIndexes[k] < rangeStart
      invariant forall k :: hi <= k < |leafIndexes| ==> rangeStart <= leafIndexes[k]
    {
      var mid := (lo + hi) / 2;
      if leafIndexes[mid] < rangeStart {
        lo := mid + 1;
      } else {
        hi := mid;
      }
    }
    found := lo < |leafIndexes| && leafIndexes[lo] < rangeEnd;
  }

  /** The library sort of the leaf map's keys. */
  method SortKeys(leaves: map<int, Digest>) returns (s: seq<int>)
    ensures SortedKeys(s, leaves)
  {
    s := [];
    var rest := leaves.Keys;
    while rest != {}
      invariant rest <= leaves.Keys && Ascending(s)
      invariant forall i :: 0 <= i < |s| ==> s[i] in leaves
      invariant forall leaf :: leaf in leaves ==> leaf in s || leaf in rest
      invariant forall i, x :: 0 <= i < |s| && x in rest ==> s[i] < x
      decreases rest
    {
      ghost var some := Inhabitant(rest);
      MinimumExists(rest, some);
      var least :| least in rest && forall x :: x in rest ==> least <= x;
      s, rest := s + [least], rest - {least};
    }
  }

  lemma {:induction false} MinimumExists(s: set<int>, some: int)
    requires some in s
    ensures exists least :: least in s && forall x :: x in s ==> least <= x
    decreases s
  {
    if low :| low in s && low < some {
      var below := s - {some};
      MinimumExists(below, low);
      var least :| least in below && forall x :: x in below ==> least <= x;
      assert least <= low && forall x :: x in s ==> x == some || x in below;
    } else {
      assert forall x :: x in s ==> some <= x;
    }
  }

  type Memo = map<(nat, int), Digest>

  ghost predicate Coherent(memo: Memo, t: Tree) {
    forall level: nat, position: int :: (level, position) in memo ==> memo[(level, position)] == t.Node(level, position)
  }

  /** A node's leaves are those in the range [position * 2^level, (position + 1) * 2^level). */
  lemma OccupiedIsRange(t: Tree, leafIndexes: seq<int>, level: nat, position: int)
    requires SortedKeys(leafIndexes, t.leaves)
    ensures t.Occupied(level, position)
       <==> HitsRange(leafIndexes, position * Pow2(level), position * Pow2(level) + Pow2(level))
  {
    forall leaf
      ensures Ancestor(leaf, level) == position <==> BelowNode(leaf, level, position)
    {
      AncestorDivides(leaf, level);
      InBlock(leaf, Pow2(level), position);
    }
    if t.Occupied(level, position) {
      var leaf :| leaf in t.leaves && Ancestor(leaf, level) == position;
      assert leaf in leafIndexes && BelowNode(leaf, level, position);
    }
    if k :| 0 <= k < |leafIndexes| && BelowNode(leafIndexes[k], level, position) {
      assert leafIndexes[k] in t.leaves && Ancestor(leafIndexes[k], level) == position;
    }
  }

  ghost predicate BelowNode(leaf: int, level: nat, position: int) {
    position * Pow2(level) <= leaf < position * Pow2(level) + Pow2(level)
  }

  /** The memoised, pruned recursion computes the naive node and keeps the memo coherent. */
  method GetNodeHash(t: Tree, leafIndexes: seq<int>, zeroHashes: seq<Digest>, level: nat, position: int, memo: Memo)
    returns (node: Digest, memo': Memo)
    requires SortedKeys(leafIndexes, t.leaves) && Coherent(memo, t)
    requires level < |zeroHashes| && forall l :: 0 <= l < |zeroHashes| ==> zeroHashes[l] == t.Zero(l)
    ensures node == t.Node(level, position) && Coherent(memo', t)
    decreases level
  {
    if level == 0 {
      return if position in t.leaves then t.leaves[position] else t.zero, memo;
    }
    if (level, position) in memo {
      return memo[(level, position)], memo;
    }
    var width := Pow2(level);
    var rangeStart := position * width;
    var rangeEnd := rangeStart + width;
    OccupiedIsRange(t, leafIndexes, level, position);
    var occupied := HasLeafInRange(leafIndexes, rangeStart, rangeEnd);
    if !occupied {
      EmptyNodeIsZero(t, level, position);
      return zeroHashes[level], memo;
    }
    var left, right;
    left, memo' := GetNodeHash(t, leafIndexes, zeroHashes, level - 1, position * 2, memo);
    right, memo' := GetNodeHash(t, leafIndexes, zeroHashes, level - 1, position * 2 + 1, memo');
    node := t.hash(left, right);
    memo' := memo'[(level, position) := node];
  }

  method ZeroHashes(t: Tree, depth: nat) returns (zeroHashes: seq<Digest>)
    ensures |zeroHashes| == depth + 1 && forall l :: 0 <= l <= depth ==> zeroHashes[l] == t.Zero(l)
  {
    zeroHashes := [t.zero];
    for level := 1 to depth + 1
      invariant |zeroHashes| == level && forall l :: 0 <= l < level ==> zeroHashes[l] == t.Zero(l)
    {
      var previous := zeroHashes[level - 1];
      zeroHashes := zeroHashes + [t.hash(previous, previous)];
    }
  }

  /** The level loop: one memo serves the siblings of every level and the root. */
  method ClimbToRoot(t: Tree, leafIndexes: seq<int>, depth: nat, commitment: Digest, leafIndex: int)
    returns (path: MerklePathResult)
    requires SortedKeys(leafIndexes, t.leaves)
    ensures path == FreshPath(t, depth, commitment, leafIndex)
  {
    var zeroHashes := ZeroHashes(t, depth);
    var memo: Memo := map[];
    var cursor := leafIndex;
    var pathElements, pathIndices := [], [];
    for level := 0 to depth
      invariant |pathElements| == |pathIndices| == level && Coherent(memo, t)
      invariant pathElements + JsSiblings(t, level, depth - level, cursor) == JsSiblings(t, 0, depth, leafIndex)
      invariant pathIndices + Directions(depth - level, cursor) == Directions(depth, leafIndex)
    {
      var node;
      node, memo := GetNodeHash(t, leafIndexes, zeroHashes, level, JsSibling(cursor), memo);
      var direction := Direction(cursor);
      ClimbStep(t, level, depth - level, cursor, pathElements, pathIndices);
      pathElements, pathIndices := pathElements + [node], pathIndices + [direction];
      cursor := cursor / 2;
    }
    var root;
    root, memo := GetNodeHash(t, leafIndexes, zeroHashes, depth, 0, memo);
    path := MerklePathResult(commitment, leafIndex, root, pathElements, pathIndices);
  }

  /** The cached index. `served` is the log of commitments looked up since the last insertion. */
  class MerklePathIndex {
    const depth: nat
    const zeroHash: Digest
    const hashPair: PairHash
    const maxPathCacheEntries: int
    var leavesByIndex: map<int, Digest>
    var indexByCommitment: map<Digest, int>
    var sortedLeafIndexes: Option<seq<int>>
    var pathCache: OrderedMap<Digest, MerklePathResult>
    ghost var served: seq<Digest>

    constructor (depth: nat, zeroHash: Digest, hashPair: PairHash, maxPathCacheEntries: int)
      requires 0 < depth <= MAX_SAFE_DEPTH
      ensures Valid() && leavesByIndex == map[] && served == []
      ensures this.depth == depth && this.zeroHash == zeroHash && this.hashPair == hashPair
      ensures this.maxPathCacheEntries == maxPathCacheEntries
    {
      this.depth, this.zeroHash, this.hashPair := depth, zeroHash, hashPair;
      this.maxPathCacheEntries := maxPathCacheEntries;
      leavesByIndex, indexByCommitment := map[], map[];
      sortedLeafIndexes := None;
      pathCache := OrderedMap([], map[]);
      served := [];
    }

    ghost function Tree(): Tree
      reads this
    {
      MerkleTree.Tree(leavesByIndex, zeroHash, hashPair)
    }

    /** The two maps are inverse to each other and stay inside the tree. */
    ghost predicate MapsAgree()
      reads this
    {
      && (forall c :: c in indexByCommitment ==>
            indexByCommitment[c] in leavesByIndex && leavesByIndex[indexByCommitment[c]] == c)
      && (forall i :: i in leavesByIndex ==>
            0 <= i < Pow2(depth) && leavesByIndex[i] in indexByCommitment && indexByCommitment[leavesByIndex[i]] == i)
    }

    /** Every cached path equals one computed afresh from the present leaves. */
    ghost predicate CacheCoherent()
      reads this
    {
      forall c :: c in pathCache.entries ==>
        c in indexByCommitment && pathCache.entries[c] == FreshPath(Tree(), depth, c, indexByCommitment[c])
    }

    function Capacity(): nat {
      if maxPathCacheEntries > 0 then maxPathCacheEntries else 0
    }

    /** The object invariant. */
    ghost predicate Valid()
      reads this
    {
      && 0 < depth <= MAX_SAFE_DEPTH
      && MapsAgree()
      && (sortedLeafIndexes.Some? ==> SortedKeys(sortedLeafIndexes.value, leavesByIndex))
      && CacheOrdered()
      && CacheCoherent()
    }

    method InsertIndexedCommitment(commitment: Digest, leafIndex: int) returns (r: Outcome<MerkleError>)
      requires Valid()
      modifies this
      ensures Valid()
      ensures r == match InsertRefusal(depth, old(leavesByIndex), commitment, leafIndex)
                   case Some(error) => Thrown(error)
                   case None => Done
      ensures r.Thrown? ==> unchanged(this)
      ensures r.Done? ==> leavesByIndex == old(leavesByIndex)[leafIndex := commitment]
      ensures r.Done? ==> indexByCommitment == old(indexByCommitment)[commitment := leafIndex] && served == []
    {
      if leafIndex < 0 {
        return Thrown(NegativeLeafIndex);
      }
      if leafIndex >= Pow2(depth) {
        return Thrown(LeafIndexOverCapacity);
      }
      if commitment in indexByCommitment && indexByCommitment[commitment] != leafIndex {
        return Thrown(CommitmentElsewhere);
      }
      if leafIndex in leavesByIndex && leavesByIndex[leafIndex] != commitment {
        return Thrown(LeafIndexTaken);
      }
      leavesByIndex := leavesByIndex[leafIndex := commitment];
      indexByCommitment := indexByCommitment[commitment := leafIndex];
      sortedLeafIndexes := None;
      pathCache := OrderedMap([], map[]);
      served := [];
      r := Done;
    }

    /** A lookup answers as if nothing were ever cached, and touches only the caches. */
    method GetMerklePathForCommitment(commitment: Digest) returns (r: Result<MerklePathResult, MerkleError>)
      requires Valid()
      modifies this`sortedLeafIndexes, this`pathCache, this`served
      ensures Valid()
      ensures r == if commitment in indexByCommitment
                   then Success(FreshPath(Tree(), depth, commitment, indexByCommitment[commitment]))
                   else Failure(CommitmentNotIndexed)
      ensures served == if r.Success? then old(served) + [commitment] else old(served)
    {
      if commitment !in indexByCommitment {
        return Failure(CommitmentNotIndexed);
      }
      var leafIndex := indexByCommitment[commitment];
      if commitment in pathCache.entries {
        r := Success(pathCache.entries[commitment]);
        Refresh(commitment);
      } else {
        var path := ComputePath(commitment, leafIndex);
        Remember(commitment, path);
        r := Success(path);
      }
    }

    /** The cache holds exactly the most recently used commitments, as many as fit, oldest first. */
    ghost predicate CacheOrdered()
      reads this
    {
      pathCache.WellFormed() && pathCache.order == LastOf(MostRecent(served), Capacity())
    }

    /** A hit deletes and re-inserts its entry, making it the newest. */
    method Refresh(commitment: Digest)
      requires CacheOrdered() && commitment in pathCache.entries
      modifies this`pathCache, this`served
      ensures CacheOrdered() && served == old(served) + [commitment]
      ensures pathCache.entries == old(pathCache).entries
    {
      var cachedPath := pathCache.entries[commitment];
      TouchedCache(served, commitment, Capacity());
      TouchKeepsEntries(pathCache, commitment);
      pathCache := pathCache.Delete(commitment).Set(commitment, cachedPath);
      served := served + [commitment];
    }

    /** A miss stores its path, unless caching is off, and evicts the oldest entries. */
    method Remember(commitment: Digest, path: MerklePathResult)
      requires CacheOrdered() && commitment !in pathCache.entries
      modifies this`pathCache, this`served
      ensures CacheOrdered() && served == old(served) + [commitment]
      ensures forall k :: k in pathCache.entries ==>
        || (k == commitment && pathCache.entries[k] == path)
        || (k in old(pathCache).entries && pathCache.entries[k] == old(pathCache).entries[k])
    {
      MissedCache(served, commitment, Capacity());
      if maxPathCacheEntries > 0 {
        pathCache := pathCache.Set(commitment, path);
        EvictToCapacity();
      }
      served := served + [commitment];
    }

    /** Sorts the keys unless they are still sorted, then climbs. */
    method ComputePath(commitment: Digest, leafIndex: int) returns (path: MerklePathResult)
      requires sortedLeafIndexes.Some? ==> SortedKeys(sortedLeafIndexes.value, leavesByIndex)
      modifies this`sortedLeafIndexes
      ensures sortedLeafIndexes.Some? && SortedKeys(sortedLeafIndexes.value, leavesByIndex)
      ensures path == FreshPath(Tree(), depth, commitment, leafIndex)
    {
      var leafIndexes;
      if sortedLeafIndexes.Some? {
        leafIndexes := sortedLeafIndexes.value;
      } else {
        leafIndexes := SortKeys(leavesByIndex);
      }
      sortedLeafIndexes := Some(leafIndexes);
      var t := MerkleTree.Tree(leavesByIndex, zeroHash, hashPair);
      path := ClimbToRoot(t, leafIndexes, depth, commitment, leafIndex);
    }

    /** The eviction loop drops the oldest keys until the cache fits. */
    method EvictToCapacity()
      requires pathCache.WellFormed() && maxPathCacheEntries > 0
      modifies this`pathCache
      ensures pathCache.WellFormed() && pathCache.order == LastOf(old(pathCache).order, Capacity())
      ensures forall k :: k in pathCache.entries ==>
        k in old(pathCache).entries && pathCache.entries[k] == old(pathCache).entries[k]
    {
      ghost var before := pathCache;
      while |pathCache.order| > maxPathCacheEntries
        invariant pathCache.WellFormed() && |pathCache.order| <= |before.order|
        invariant pathCache.order == before.order[|before.order| - |pathCache.order|..]
        invariant |pathCache.order| >= Capacity() || pathCache == before
        invariant forall k :: k in pathCache.entries ==> k in before.entries && pathCache.entries[k] == before.entries[k]
        decreases |pathCache.order|
      {
        var oldestKey := pathCache.order[0];
        DeleteFirst(pathCache);
        pathCache := pathCache.Delete(oldestKey);
      }
    }
  }

  /** Inserting a present pair again is done, and leaves both maps as they are. */
  method InsertAgain(index: MerklePathIndex, commitment: Digest, leafIndex: int) returns (r: Outcome<MerkleError>)
    requires index.Valid() && leafIndex in index.leavesByIndex && index.leavesByIndex[leafIndex] == commitment
    modifies index
    ensures index.Valid() && r.Done?
    ensures index.leavesByIndex == old(index.leavesByIndex) && index.indexByCommitment == old(index.indexByCommitment)
  {
    r := index.InsertIndexedCommitment(commitment, leafIndex);
  }

  /** Creates an index, or reports an unusable depth. */
  method CreateMerklePathIndex(depth: int, zeroHash: Digest, hashPair: PairHash, maxPathCacheEntries: Option<int>)
    returns (r: Result<MerklePathIndex, MerkleError>)
    ensures r.Success? <==> 0 < depth <= MAX_SAFE_DEPTH
    ensures r.Success? ==> fresh(r.value) && r.value.Valid() && r.value.leavesByIndex == map[]
    ensures r.Success? ==> r.value.depth == depth && r.value.zeroHash == zeroHash && r.value.hashPair == hashPair
  {
    if depth <= 0 {
      return Failure(DepthNotPositive);
    }
    if depth > MAX_SAFE_DEPTH {
      return Failure(DepthNotSafe);
    }
    var entries := if maxPathCacheEntries.Some? then maxPathCacheEntries.value else DEFAULT_CACHE_ENTRIES;
    var index := new MerklePathIndex(depth, zeroHash, hashPair, entries);
    r := Success(index);
  }

  datatype IndexOp = Insert(commitment: Digest, leafIndex: int) | Lookup(commitment: Digest)

  datatype IndexAnswer = Inserted | Found(path: MerklePathResult) | Refused(error: MerkleError)

  /** The leaves after one operation on an index without any cache or second map. */
  ghost function LeavesAfter(depth: nat, leaves: map<int, Digest>, op: IndexOp): map<int, Digest> {
    match op
    case Insert(c, i) => if InsertRefusal(depth, leaves, c, i).None? then leaves[i := c] else leaves
    case Lookup(_) => leaves
  }

  /** The answer to one operation on an index without any cache or second map. */
  ghost function AnswerOf(depth: nat, t: Tree, op: IndexOp): IndexAnswer {
    match op
    case Insert(c, i) =>
      var refusal := InsertRefusal(depth, t.leaves, c, i);
      if refusal.None? then Inserted else Refused(refusal.value)
    case Lookup(c) =>
      if exists i :: i in t.leaves && t.leaves[i] == c then
        var i :| i in t.leaves && t.leaves[i] == c; Found(FreshPath(t, depth, c, i))
      else Refused(CommitmentNotIndexed)
  }

  ghost function ReferenceRun(depth: nat, t: Tree, ops: seq<IndexOp>): seq<IndexAnswer>
    decreases |ops|
  {
    if ops == [] then [] else
    var t' := t.(leaves := LeavesAfter(depth, t.leaves, ops[0]));
    [AnswerOf(depth, t, ops[0])] + ReferenceRun(depth, t', ops[1..])
  }

  method Perform(index: MerklePathIndex, op: IndexOp) returns (answer: IndexAnswer)
    requires index.Valid()
    modifies index
    ensures index.Valid()
    ensures answer == AnswerOf(index.depth, old(index.Tree()), op)
    ensures index.leavesByIndex == LeavesAfter(index.depth, old(index.leavesByIndex), op)
  {
    match op
    case Insert(c, i) =>
      var r := index.InsertIndexedCommitment(c, i);
      answer := if r.Thrown? then Refused(r.error) else Inserted;
    case Lookup(c) =>
      var r := index.GetMerklePathForCommitment(c);
      answer := if r.Failure? then Refused(r.error) else Found(r.value);
  }

  /** Every interleaving of insertions and lookups, with every cache bound, is answered exactly as
      by an index that keeps nothing but its leaves and computes each path afresh. */
  method RunOnNewIndex(depth: nat, zero: Digest, hash: PairHash, maxPathCacheEntries: int, ops: seq<IndexOp>)
    returns (answers: seq<IndexAnswer>)
    requires 0 < depth <= MAX_SAFE_DEPTH
    ensures answers == ReferenceRun(depth, Tree(map[], zero, hash), ops)
  {
    var index := new MerklePathIndex(depth, zero, hash, maxPathCacheEntries);
    answers := [];
    for k := 0 to |ops|
      invariant index.Valid() && fresh(index) && index.depth == depth
      invariant answers + ReferenceRun(depth, index.Tree(), ops[k..]) == ReferenceRun(depth, Tree(map[], zero, hash), ops)
    {
      ghost var before := index.Tree();
      var answer := Perform(index, ops[k]);
      ReferenceStep(depth, before, ops[k..], answers);
      answers := answers + [answer];
    }
  }

  lemma ReferenceStep(depth: nat, t: Tree, ops: seq<IndexOp>, answers: seq<IndexAnswer>)
    requires ops != []
    ensures answers + ReferenceRun(depth, t, ops)
         == answers + [AnswerOf(depth, t, ops[0])]
          + ReferenceRun(depth, t.(leaves := LeavesAfter(depth, t.leaves, ops[0])), ops[1..])
  {
  }
}
