/** The web client's path reconstruction from accepted-root logs, over sparse layers.
    Models the Merkle part of apps/web/src/product/shieldedTransfersHelpers.ts. */
module SparseMerkle {
  import opened Wrappers
  import opened Collections
  import opened Powers
  import opened Js32
  import opened MerkleTree
  import opened JsPaths
  import opened RealProofModel
  import opened MerklePaths

  datatype SparseError =
    | BadDepth
    | CommitmentNotFound
    | HistoryTooLong
    | ValueNotFieldElement

  type Layer = map<int, Digest>

  /** A sparse layer holds nodes of its level, and whatever it leaves out is empty. */
  ghost predicate IsSparseLayer(t: Tree, level: nat, layer: Layer) {
    forall p: int :: t.Node(level, p) == Get(layer, p, t.Zero(level))
  }

  /** `layer.get(index) ?? zero`. */
  function Get(layer: Layer, index: int, zero: Digest): Digest {
    if index in layer then layer[index] else zero
  }

  /** The parents of the present nodes, each computed once. */
  method BuildNextSparseMerkleLayer(t: Tree, level: nat, layer: Layer, zeroHash: Digest) returns (next: Layer)
    requires IsSparseLayer(t, level, layer) && zeroHash == t.Zero(level)
    ensures IsSparseLayer(t, level + 1, next)
  {
    var parentIndexes := set index | index in layer.Keys :: index / 2;
    next := map[];
    var rest := parentIndexes;
    while rest != {}
      invariant next.Keys + rest == parentIndexes
      invariant forall p :: p in next ==> next[p] == t.Node(level + 1, p)
      decreases rest
    {
      ghost var some := Inhabitant(rest);
      var parentIndex :| parentIndex in rest;
      var left, right := Get(layer, parentIndex * 2, zeroHash), Get(layer, parentIndex * 2 + 1, zeroHash);
      assert t.hash(left, right) == t.Node(level + 1, parentIndex);
      next := next[parentIndex := t.hash(left, right)];
      rest := rest - {parentIndex};
    }
    NextLayerComplete(t, level, layer, next);
  }

  lemma NextLayerComplete(t: Tree, level: nat, layer: Layer, next: Layer)
    requires IsSparseLayer(t, level, layer)
    requires next.Keys == set index | index in layer.Keys :: index / 2
    requires forall p :: p in next ==> next[p] == t.Node(level + 1, p)
    ensures IsSparseLayer(t, level + 1, next)
  {
    forall p: int | p !in next
      ensures t.Node(level + 1, p) == t.Zero(level + 1)
    {
      assert 2 * p / 2 == p && (2 * p + 1) / 2 == p;
      assert 2 * p !in layer.Keys && 2 * p + 1 !in layer.Keys;
      assert t.Node(level, 2 * p) == t.Node(level, 2 * p + 1) == t.Zero(level);
    }
  }

  /** The leaves: the inserted commitments that are not zero. */
  function NonZero(inserted: seq<Digest>): (leaves: seq<Digest>)
    ensures 0 !in leaves && forall c :: c in leaves <==> c in inserted && c != 0
  {
    if inserted == [] then []
    else (if inserted[0] != 0 then [inserted[0]] else []) + NonZero(inserted[1..])
  }

  /** The first position of a value, or the length. */
  function FindIndex(s: seq<Digest>, value: Digest): (k: nat)
    ensures k <= |s| && (k < |s| ==> s[k] == value)
    ensures forall j :: 0 <= j < k ==> s[j] != value
  {
    if s == [] || s[0] == value then 0 else 1 + FindIndex(s[1..], value)
  }

  /** The path over the sparse tree of the logged leaves; a value that is no field element cannot
      be printed. */
  function ReconstructionOf(inserted: seq<Digest>, commitment: Digest, hash: PairHash, depth: int)
    : Result<MerklePathResult, SparseError>
  {
    var leaves := NonZero(inserted);
    var leafIndex := FindIndex(leaves, commitment);
    if depth <= 0 || depth > 32 then Failure(BadDepth)
    else if leafIndex == |leaves| then Failure(CommitmentNotFound)
    else if |leaves| > Pow2(depth) then Failure(HistoryTooLong)
    else
      var path := FreshPath(DenseTree(leaves, 0, hash), depth, commitment, leafIndex);
      if IsField(path.root) && forall k :: 0 <= k < depth ==> IsField(path.pathElements[k]) then Success(path)
      else Failure(ValueNotFieldElement)
  }

  method ReconstructMerklePathFromRootAcceptedLogs(
    inserted: seq<Digest>, commitment: Digest, hash: PairHash, depth: int)
    returns (r: Result<MerklePathResult, SparseError>)
    ensures r == ReconstructionOf(inserted, commitment, hash, depth)
  {
    if depth <= 0 || depth > 32 {
      return Failure(BadDepth);
    }
    var leaves := NonZero(inserted);
    var leafIndex := FindIndex(leaves, commitment);
    if leafIndex == |leaves| {
      return Failure(CommitmentNotFound);
    }
    if |leaves| > Pow2(depth) {
      return Failure(HistoryTooLong);
    }
    var t := DenseTree(leaves, 0, hash);
    var root, siblings, pathIndices := ClimbSparse(t, depth, leafIndex);
    if root.None? {
      return Failure(ValueNotFieldElement);
    }
    r := Success(MerklePathResult(commitment, leafIndex, root.value, siblings, pathIndices));
  }

  /** Climbs while replacing each layer by the next; stops at the first value that is no field
      element. */
  method ClimbSparse(t: Tree, depth: nat, leafIndex: int)
    returns (root: Option<Digest>, siblings: seq<Digest>, pathIndices: seq<int>)
    requires t.zero == 0
    ensures root.Some? <==> AllFields(JsSiblings(t, 0, depth, leafIndex)) && IsField(t.Node(depth, 0))
    ensures root.Some? ==> root.value == t.Node(depth, 0)
    ensures root.Some? ==> siblings == JsSiblings(t, 0, depth, leafIndex)
    ensures root.Some? ==> pathIndices == Directions(depth, leafIndex)
  {
    var zeroHashes := BuildZeroHashes(t, depth);
    var layer := t.leaves;
    var cursor := leafIndex;
    siblings, pathIndices := [], [];
    for level := 0 to depth
      invariant |siblings| == |pathIndices| == level && AllFields(siblings)
      invariant IsSparseLayer(t, level, layer)
      invariant siblings + JsSiblings(t, level, depth - level, cursor) == JsSiblings(t, 0, depth, leafIndex)
      invariant pathIndices + Directions(depth - level, cursor) == Directions(depth, leafIndex)
    {
      var sibling := Sibling(t, level, layer, cursor, zeroHashes[level]);
      ClimbStep(t, level, depth - level, cursor, siblings, pathIndices);
      siblings, pathIndices := siblings + [sibling], pathIndices + [cursor % 2];
      if !IsField(sibling) {
        assert JsSiblings(t, 0, depth, leafIndex)[level] == sibling;
        return None, siblings, pathIndices;
      }
      layer := BuildNextSparseMerkleLayer(t, level, layer, zeroHashes[level]);
      cursor := cursor / 2;
    }
    var top := Get(layer, 0, zeroHashes[depth]);
    root := if IsField(top) then Some(top) else None;
  }

  /** `layer.get(cursor ^ 1) ?? zeroHash`. */
  method Sibling(t: Tree, level: nat, layer: Layer, cursor: int, zeroHash: Digest) returns (sibling: Digest)
    requires IsSparseLayer(t, level, layer) && zeroHash == t.Zero(level)
    ensures sibling == t.Node(level, JsSibling(cursor))
  {
    sibling := Get(layer, JsSibling(cursor), zeroHash);
  }

  ghost predicate DistinctLeaves(leaves: seq<Digest>) {
    forall i, j :: 0 <= i < j < |leaves| ==> leaves[i] != leaves[j]
  }

  /** The next leaf is admitted, and completes the tree of one more leaf. */
  lemma NextLeaf(leaves: seq<Digest>, depth: nat, hash: PairHash, k: nat)
    requires DistinctLeaves(leaves) && |leaves| <= Pow2(depth) && k < |leaves|
    ensures var before := DenseTree(leaves[..k], 0, hash).leaves;
      && InsertRefusal(depth, before, leaves[k], k) == None
      && DenseTree(leaves[..k + 1], 0, hash).leaves == before[k := leaves[k]]
  {
  }

  method IndexLeaves(leaves: seq<Digest>, depth: nat, hash: PairHash) returns (index: MerklePathIndex)
    requires 0 < depth <= 32 && DistinctLeaves(leaves) && |leaves| <= Pow2(depth)
    ensures fresh(index) && index.Valid() && index.depth == depth
    ensures index.Tree() == DenseTree(leaves, 0, hash)
  {
    index := new MerklePathIndex(depth, 0, hash, DEFAULT_CACHE_ENTRIES);
    for k := 0 to |leaves|
      invariant fresh(index) && index.Valid() && index.depth == depth
      invariant index.Tree() == DenseTree(leaves[..k], 0, hash)
    {
      NextLeaf(leaves, depth, hash, k);
      var _ := index.InsertIndexedCommitment(leaves[k], k);
    }
    assert leaves[..|leaves|] == leaves;
  }

  method AppendLeaves(leaves: seq<Digest>, depth: nat, hash: PairHash) returns (tree: AppendOnlyMerkleTree)
    requires 0 < depth <= 32 && IsFieldHash(hash) && AllFields(leaves) && |leaves| <= Pow2(depth)
    ensures fresh(tree) && tree.Valid() && tree.depth == depth
    ensures tree.Tree() == DenseTree(leaves, 0, hash) && tree.leaves == leaves
  {
    tree := new AppendOnlyMerkleTree(depth, 0, hash);
    for k := 0 to |leaves|
      invariant fresh(tree) && tree.Valid() && tree.leaves == leaves[..k]
      invariant tree.depth == depth && tree.zeroValue == 0 && tree.hash == hash
    {
      var _ := tree.Append(leaves[k]);
    }
  }

  /** Feeds the same leaves to the indexer, the core and the web client, and asks each for the path
      of one leaf: all three return the naive tree's root, the leaf's directions, and the same siblings,
      which below 2^31 are the naive tree's. */
  method BuildThreeWays(leaves: seq<Digest>, depth: nat, hash: PairHash, index: nat)
    returns (lazy: MerklePathResult, dense: MerklePath, sparse: MerklePathResult)
    requires 0 < depth <= 32 && IsFieldHash(hash) && AllFields(leaves) && 0 !in leaves && DistinctLeaves(leaves)
    requires index < |leaves| <= Pow2(depth)
    ensures var t := DenseTree(leaves, 0, hash);
      && lazy.root == dense.root == sparse.root == t.Node(depth, 0)
      && lazy.pathElements == dense.pathElements == sparse.pathElements
      && (index < TWO31 ==> lazy.pathElements == t.Siblings(0, depth, index))
      && lazy.pathIndices == dense.pathIndices == sparse.pathIndices == Directions(depth, index)
      && lazy.leafIndex == dense.leafIndex == sparse.leafIndex == index
  {
    if index < TWO31 {
      JsSiblingsExact(DenseTree(leaves, 0, hash), 0, depth, index);
    }
    var merkleIndex := IndexLeaves(leaves, depth, hash);
    lazy := LazyPath(merkleIndex, leaves[index], index);
    var tree := AppendLeaves(leaves, depth, hash);
    var appended := tree.PathForLeaf(index);
    dense := appended.value;
    sparse := SparsePath(leaves, depth, hash, index);
  }

  method LazyPath(merkleIndex: MerklePathIndex, commitment: Digest, index: nat) returns (path: MerklePathResult)
    requires merkleIndex.Valid()
    requires index in merkleIndex.leavesByIndex && merkleIndex.leavesByIndex[index] == commitment
    modifies merkleIndex
    ensures path == FreshPath(old(merkleIndex.Tree()), merkleIndex.depth, commitment, index)
  {
    var found := merkleIndex.GetMerklePathForCommitment(commitment);
    path := found.value;
  }

  method SparsePath(leaves: seq<Digest>, depth: nat, hash: PairHash, index: nat) returns (path: MerklePathResult)
    requires 0 < depth <= 32 && IsFieldHash(hash) && AllFields(leaves) && 0 !in leaves && DistinctLeaves(leaves)
    requires index < |leaves| <= Pow2(depth)
    ensures path == FreshPath(DenseTree(leaves, 0, hash), depth, leaves[index], index)
  {
    Reconstructs(leaves, depth, hash, index);
    var reconstructed := ReconstructMerklePathFromRootAcceptedLogs(leaves, leaves[index], hash, depth);
    path := reconstructed.value;
  }

  /** The reconstruction succeeds for a leaf of a tree of distinct nonzero field elements. */
  lemma Reconstructs(leaves: seq<Digest>, depth: nat, hash: PairHash, index: nat)
    requires 0 < depth <= 32 && IsFieldHash(hash) && AllFields(leaves) && 0 !in leaves && DistinctLeaves(leaves)
    requires index < |leaves| <= Pow2(depth)
    ensures ReconstructionOf(leaves, leaves[index], hash, depth)
         == Success(FreshPath(DenseTree(leaves, 0, hash), depth, leaves[index], index))
  {
    var t := DenseTree(leaves, 0, hash);
    NonZeroOfNonZero(leaves);
    FindsOwnIndex(leaves, index);
    DenseHasFieldLeaves(leaves, hash);
    JsSiblingsAreFields(t, 0, depth, index);
    NodeIsField(t, depth, 0);
  }

  lemma FindsOwnIndex(leaves: seq<Digest>, index: nat)
    requires DistinctLeaves(leaves) && index < |leaves|
    ensures FindIndex(leaves, leaves[index]) == index
  {
  }

  lemma DenseHasFieldLeaves(leaves: seq<Digest>, hash: PairHash)
    requires AllFields(leaves)
    ensures HasFieldLeaves(DenseTree(leaves, 0, hash))
  {
  }

  lemma {:induction false} NonZeroOfNonZero(leaves: seq<Digest>)
    requires 0 !in leaves
    ensures NonZero(leaves) == leaves
  {
    if leaves != [] {
      NonZeroOfNonZero(leaves[1..]);
    }
  }

  /** The leaves are the logged commitments that are not zero, one by one and in their order. */
  lemma {:induction false} NonZeroConcat(a: seq<Digest>, b: seq<Digest>)
    ensures NonZero(a + b) == NonZero(a) + NonZero(b)
    ensures |a| == 1 ==> NonZero(a) == if a[0] != 0 then a else []
  {
    if a == [] {
      assert a + b == b;
    } else {
      NonZeroConcat(a[1..], b);
      assert (a + b)[1..] == a[1..] + b;
      ConcatAssociates(if a[0] != 0 then [a[0]] else [], NonZero(a[1..]), NonZero(b));
    }
  }

  /** When the client reconstructs a path, and why it does not. */
  lemma ReconstructsIff(inserted: seq<Digest>, commitment: Digest, hash: PairHash, depth: int)
    ensures var r, leaves := ReconstructionOf(inserted, commitment, hash, depth), NonZero(inserted);
      var good := 1 <= depth <= 32;
      var known := commitment in inserted && commitment != 0;
      && (r == Failure(BadDepth) <==> !good)
      && (r == Failure(CommitmentNotFound) <==> good && !known)
      && (r == Failure(HistoryTooLong) <==> good && known && |leaves| > Pow2(depth))
      && (r.Success? ==>
            && good && known && |leaves| <= Pow2(depth) && r.value.commitment == commitment && 0 <= r.value.leafIndex < |leaves|
            && leaves[r.value.leafIndex] == commitment && (forall j :: 0 <= j < r.value.leafIndex ==> leaves[j] != commitment)
            && r.value.root == DenseTree(leaves, 0, hash).Node(depth, 0) && IsField(r.value.root)
            && r.value.pathIndices == Directions(depth, r.value.leafIndex)
            && r.value.pathElements == JsSiblings(DenseTree(leaves, 0, hash), 0, depth, r.value.leafIndex))
      && (good && known && |leaves| <= Pow2(depth) && IsFieldHash(hash) && AllFields(inserted) ==> r.Success?)
  {
    var leaves := NonZero(inserted);
    if 1 <= depth <= 32 && commitment in leaves && IsFieldHash(hash) && AllFields(inserted) {
      forall k | 0 <= k < |leaves|
        ensures IsField(leaves[k])
      {
        assert leaves[k] in leaves;
      }
      DenseHasFieldLeaves(leaves, hash);
      JsSiblingsAreFields(DenseTree(leaves, 0, hash), 0, depth, FindIndex(leaves, commitment));
      NodeIsField(DenseTree(leaves, 0, hash), depth, 0);
    }
  }
}
