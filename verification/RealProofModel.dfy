/** The core's dense Merkle tree and its path verifier.
    Models packages/core/src/realProofModel.ts. */
module RealProofModel {
  import opened Wrappers
  import opened Powers
  import opened Js32
  import opened MerkleTree
  import opened JsPaths

  const BN254_SCALAR_FIELD: nat :=
    21888242871839275222246405745257275088548364400416034343698204186575808495617

  datatype ProofError =
    | NotFieldElement
    | TreeFull
    | NotInserted
    | LengthMismatch
    | NotABit

  datatype MerklePath = MerklePath(leafIndex: int, root: int, pathElements: seq<int>, pathIndices: seq<int>)

  predicate IsField(x: int) {
    0 <= x < BN254_SCALAR_FIELD
  }

  /** The core's hash type: it returns field elements. */
  ghost predicate IsFieldHash(hash: PairHash) {
    forall a, b :: IsField(hash(a, b))
  }

  /** A sequence of leaves as a tree. */
  function DenseTree(leaves: seq<Digest>, zero: Digest, hash: PairHash): Tree {
    Tree(map i: int | 0 <= i < |leaves| :: leaves[i], zero, hash)
  }

  /** A dense layer lists the nodes of its level up to the last one that is not empty. */
  ghost predicate IsLayer(t: Tree, level: nat, layer: seq<Digest>) {
    forall p: int :: t.Node(level, p) == if 0 <= p < |layer| then layer[p] else t.Zero(level)
  }

  /** `list[index] ?? zero`, where any index may be asked for. */
  function At(layer: seq<Digest>, index: int, zero: Digest): Digest {
    if 0 <= index < |layer| then layer[index] else zero
  }

  method BuildZeroHashes(t: Tree, depth: nat) returns (zeroHashes: seq<Digest>)
    ensures |zeroHashes| == depth + 1 && forall l :: 0 <= l <= depth ==> zeroHashes[l] == t.Zero(l)
  {
    zeroHashes := [t.zero];
    for level := 0 to depth
      invariant |zeroHashes| == level + 1 && forall l :: 0 <= l <= level ==> zeroHashes[l] == t.Zero(l)
    {
      var zero := zeroHashes[level];
      zeroHashes := zeroHashes + [t.hash(zero, zero)];
    }
  }

  /** The layer above: pairs of neighbours, at least one, hashed with zeros past the end. */
  method BuildParentLayer(t: Tree, level: nat, previous: seq<Digest>) returns (next: seq<Digest>)
    requires IsLayer(t, level, previous)
    ensures IsLayer(t, level + 1, next) && |next| > 0
  {
    var zero := t.Zero(level);
    var half := (|previous| + 1) / 2;
    var pairCount := if half > 1 then half else 1;
    next := [];
    for pair := 0 to pairCount
      invariant |next| == pair && forall p :: 0 <= p < pair ==> next[p] == t.Node(level + 1, p)
    {
      var index := pair * 2;
      next := next + [t.hash(At(previous, index, zero), At(previous, index + 1, zero))];
    }
    forall p: int
      ensures t.Node(level + 1, p) == if 0 <= p < |next| then next[p] else t.Zero(level + 1)
    {
      if !(0 <= p < |next|) {
        assert t.Node(level, 2 * p) == t.Zero(level) && t.Node(level, 2 * p + 1) == t.Zero(level);
      }
    }
  }

  /** Every layer, bottom up. */
  method BuildLayers(t: Tree, depth: nat, leaves: seq<Digest>) returns (layers: seq<seq<Digest>>)
    requires IsLayer(t, 0, leaves)
    ensures |layers| == depth + 1 && forall l :: 0 <= l <= depth ==> IsLayer(t, l, layers[l])
    ensures depth > 0 ==> layers[depth] != []
  {
    layers := [leaves];
    for level := 0 to depth
      invariant |layers| == level + 1 && forall l :: 0 <= l <= level ==> IsLayer(t, l, layers[l])
      invariant level > 0 ==> layers[level] != []
    {
      var next := BuildParentLayer(t, level, layers[level]);
      layers := layers + [next];
    }
  }

  ghost predicate AreLayers(t: Tree, depth: nat, layers: seq<seq<Digest>>, zeroHashes: seq<Digest>) {
    && |layers| == |zeroHashes| == depth + 1
    && forall l :: 0 <= l <= depth ==> IsLayer(t, l, layers[l]) && zeroHashes[l] == t.Zero(l)
  }

  /** `layers[level][index] ?? zeroHashes[level]`. */
  method NodeAt(
    t: Tree, depth: nat, layers: seq<seq<Digest>>, zeroHashes: seq<Digest>, level: nat, index: int)
    returns (node: Digest)
    requires AreLayers(t, depth, layers, zeroHashes) && level <= depth
    ensures node == t.Node(level, index)
  {
    assert IsLayer(t, level, layers[level]);
    node := At(layers[level], index, zeroHashes[level]);
  }

  /** Collects siblings and directions from the layers. */
  method ClimbLayers(t: Tree, depth: nat, layers: seq<seq<Digest>>, zeroHashes: seq<Digest>, leafIndex: nat)
    returns (pathElements: seq<Digest>, pathIndices: seq<int>)
    requires AreLayers(t, depth, layers, zeroHashes)
    ensures pathElements == JsSiblings(t, 0, depth, leafIndex) && pathIndices == Directions(depth, leafIndex)
  {
    var cursor := leafIndex;
    pathElements, pathIndices := [], [];
    for level := 0 to depth
      invariant |pathElements| == |pathIndices| == level
      invariant pathElements + JsSiblings(t, level, depth - level, cursor) == JsSiblings(t, 0, depth, leafIndex)
      invariant pathIndices + Directions(depth - level, cursor) == Directions(depth, leafIndex)
    {
      ClimbStep(t, level, depth - level, cursor, pathElements, pathIndices);
      var sibling := NodeAt(t, depth, layers, zeroHashes, level, JsSibling(cursor));
      pathElements, pathIndices := pathElements + [sibling], pathIndices + [cursor % 2];
      cursor := cursor / 2;
    }
  }

  /** An append-only tree over a growing list of leaves. */
  class AppendOnlyMerkleTree {
    const depth: nat
    const zeroValue: Digest
    const hash: PairHash
    var leaves: seq<Digest>

    constructor (depth: nat, zeroValue: Digest, hash: PairHash)
      requires 0 < depth <= 32 && IsField(zeroValue) && IsFieldHash(hash)
      ensures Valid() && leaves == []
      ensures this.depth == depth && this.zeroValue == zeroValue && this.hash == hash
    {
      this.depth, this.zeroValue, this.hash, leaves := depth, zeroValue, hash, [];
    }

    ghost predicate Valid()
      reads this
    {
      && 0 < depth <= 32 && IsField(zeroValue) && IsFieldHash(hash)
      && |leaves| <= Pow2(depth) && forall i :: 0 <= i < |leaves| ==> IsField(leaves[i])
    }

    ghost function Tree(): Tree
      reads this
    {
      DenseTree(leaves, zeroValue, hash)
    }

    ghost function PathOf(leafIndex: int): MerklePath
      reads this
    {
      var t := Tree();
      MerklePath(leafIndex, t.Node(depth, 0), JsSiblings(t, 0, depth, leafIndex), Directions(depth, leafIndex))
    }

    /** Appends one leaf and returns its path; a refused leaf changes nothing. */
    method Append(leaf: int) returns (r: Result<MerklePath, ProofError>)
      requires Valid()
      modifies this
      ensures Valid()
      ensures !IsField(leaf) ==> r == Failure(NotFieldElement) && unchanged(this)
      ensures IsField(leaf) && |old(leaves)| == Pow2(depth) ==> r == Failure(TreeFull) && unchanged(this)
      ensures IsField(leaf) && |old(leaves)| < Pow2(depth) ==>
        leaves == old(leaves) + [leaf] && r == Success(PathOf(|old(leaves)|))
    {
      if !IsField(leaf) {
        return Failure(NotFieldElement);
      }
      if |leaves| >= Pow2(depth) {
        return Failure(TreeFull);
      }
      leaves := leaves + [leaf];
      r := PathForLeaf(|leaves| - 1);
    }

    /** The path of an inserted leaf, read off the dense layers. */
    method PathForLeaf(leafIndex: nat) returns (r: Result<MerklePath, ProofError>)
      requires Valid()
      ensures r == if leafIndex < |leaves| then Success(PathOf(leafIndex)) else Failure(NotInserted)
    {
      if leafIndex >= |leaves| {
        return Failure(NotInserted);
      }
      var t := DenseTree(leaves, zeroValue, hash);
      var layers := BuildLayers(t, depth, leaves);
      var zeroHashes := BuildZeroHashes(t, depth);
      var pathElements, pathIndices := ClimbLayers(t, depth, layers, zeroHashes, leafIndex);
      r := Success(MerklePath(leafIndex, At(layers[depth], 0, zeroValue), pathElements, pathIndices));
    }

    method Root() returns (root: Digest)
      requires Valid()
      ensures root == Tree().Node(depth, 0)
    {
      var t := DenseTree(leaves, zeroValue, hash);
      var layers := BuildLayers(t, depth, leaves);
      root := At(layers[depth], 0, zeroValue);
    }
  }

  /** The verifier's loop as a function: the first bad path entry is an error, and at the end the
      computed value is compared with the root. */
  function VerifyFrom(hash: PairHash, computed: nat, elements: seq<int>, indices: seq<int>, root: int)
    : Result<bool, ProofError>
    requires |elements| == |indices|
    decreases |elements|
  {
    if elements == [] then Success(computed == root)
    else if !IsField(elements[0]) then Failure(NotFieldElement)
    else if indices[0] != 0 && indices[0] != 1 then Failure(NotABit)
    else
      var parent := Parent(hash, computed, elements[0], indices[0]);
      if !IsField(parent) then Failure(NotFieldElement)
      else VerifyFrom(hash, parent, elements[1..], indices[1..], root)
  }

  function VerifyOutcome(hash: PairHash, leaf: int, path: MerklePath): Result<bool, ProofError> {
    if !IsField(leaf) then Failure(NotFieldElement)
    else if |path.pathElements| != |path.pathIndices| then Failure(LengthMismatch)
    else VerifyFrom(hash, leaf, path.pathElements, path.pathIndices, path.root)
  }

  method VerifyMerklePath(hash: PairHash, leaf: int, path: MerklePath) returns (r: Result<bool, ProofError>)
    ensures r == VerifyOutcome(hash, leaf, path)
  {
    if !IsField(leaf) {
      return Failure(NotFieldElement);
    }
    if |path.pathElements| != |path.pathIndices| {
      return Failure(LengthMismatch);
    }
    var computed: nat := leaf;
    for level := 0 to |path.pathElements|
      invariant VerifyFrom(hash, computed, path.pathElements[level..], path.pathIndices[level..], path.root)
             == VerifyOutcome(hash, leaf, path)
    {
      var sibling, direction := path.pathElements[level], path.pathIndices[level];
      if !IsField(sibling) {
        return Failure(NotFieldElement);
      }
      if direction != 0 && direction != 1 {
        return Failure(NotABit);
      }
      computed := if direction == 0 then hash(computed, sibling) else hash(sibling, computed);
      if !IsField(computed) {
        return Failure(NotFieldElement);
      }
    }
    r := Success(computed == path.root);
  }

  ghost predicate AllFields(s: seq<int>) {
    forall k :: 0 <= k < |s| ==> IsField(s[k])
  }

  /** With a field-valued hash the verifier reaches a verdict exactly on well-formed paths, and the
      verdict is whether the path folds to the root. */
  lemma {:induction false} VerdictIsFold(
    hash: PairHash, computed: nat, elements: seq<int>, indices: seq<int>, root: int)
    requires IsFieldHash(hash) && |elements| == |indices|
    ensures VerifyFrom(hash, computed, elements, indices, root).Success? <==> AllFields(elements) && AreBits(indices)
    ensures AllFields(elements) && AreBits(indices) ==>
      VerifyFrom(hash, computed, elements, indices, root) == Success(Fold(hash, computed, elements, indices) == root)
    decreases |elements|
  {
    if elements != [] {
      var tail, bits := elements[1..], indices[1..];
      assert AllFields(elements) <==> IsField(elements[0]) && AllFields(tail) by {
        assert forall k :: 0 <= k < |tail| ==> tail[k] == elements[k + 1];
        assert forall k :: 1 <= k < |elements| ==> elements[k] == tail[k - 1];
      }
      assert AreBits(indices) <==> (indices[0] == 0 || indices[0] == 1) && AreBits(bits) by {
        assert forall k :: 0 <= k < |bits| ==> bits[k] == indices[k + 1];
        assert forall k :: 1 <= k < |indices| ==> indices[k] == bits[k - 1];
      }
      if IsField(elements[0]) && (indices[0] == 0 || indices[0] == 1) {
        VerdictIsFold(hash, Parent(hash, computed, elements[0], indices[0]), tail, bits, root);
      }
    }
  }

  /** The two pairs are of field elements. */
  predicate AreFieldPairs(p: (Digest, Digest), q: (Digest, Digest)) {
    IsField(p.0) && IsField(p.1) && IsField(q.0) && IsField(q.1)
  }

  /** On some level the path and the tree hash two different pairs of field elements to one value. */
  ghost predicate ShowsCollision(t: Tree, leaf: Digest, elements: seq<Digest>, indices: seq<int>)
    requires |elements| == |indices|
  {
    exists level :: 0 <= level < |elements|
      && CollidesAt(t, 0, Encoded(indices), leaf, elements, indices, level)
      && AreFieldPairs(PathPair(t.hash, leaf, elements, indices, level),
                       TreePair(t, level, Ancestor(Encoded(indices), level)))
  }

  ghost predicate HasFieldLeaves(t: Tree) {
    IsField(t.zero) && forall i :: i in t.leaves ==> IsField(t.leaves[i])
  }

  lemma {:induction false} PathPairsAreFields(
    hash: PairHash, value: Digest, siblings: seq<Digest>, directions: seq<int>, level: nat)
    requires IsFieldHash(hash) && level < |siblings| == |directions| && IsField(value) && AllFields(siblings)
    ensures IsField(PathPair(hash, value, siblings, directions, level).0)
    ensures IsField(PathPair(hash, value, siblings, directions, level).1)
    decreases level
  {
    if level > 0 {
      assert AllFields(siblings[1..]);
      PathPairsAreFields(hash, Parent(hash, value, siblings[0], directions[0]), siblings[1..], directions[1..], level - 1);
    }
  }

  lemma {:induction false} SiblingsAreFields(t: Tree, level: nat, count: nat, position: int)
    requires IsFieldHash(t.hash) && HasFieldLeaves(t)
    ensures AllFields(t.Siblings(level, count, position))
    decreases count
  {
    if count > 0 {
      SiblingsAreFields(t, level + 1, count - 1, position / 2);
      assert IsField(t.Node(level, Sibling(position)));
    }
  }

  /** Soundness and completeness of the verifier against the root of a tree of field elements: it accepts
      the path of every leaf, and a depth-length path that it accepts either names the leaf (or the zero
      value) at the index its bits encode and carries that leaf's siblings, or shows a collision. */
  lemma VerifierBindsLeaf(t: Tree, depth: nat, leaf: int, path: MerklePath)
    requires IsFieldHash(t.hash) && HasFieldLeaves(t)
    requires |path.pathElements| == |path.pathIndices| == depth && path.root == t.Node(depth, 0)
    ensures VerifyOutcome(t.hash, leaf, path) == Success(true) ==>
      && IsField(leaf) && AllFields(path.pathElements) && AreBits(path.pathIndices)
      && 0 <= Encoded(path.pathIndices) < Pow2(depth)
      && (NamesLeaf(t, leaf, path.pathElements, path.pathIndices)
          || ShowsCollision(t, leaf, path.pathElements, path.pathIndices))
    ensures AreBits(path.pathIndices) && NamesLeaf(t, leaf, path.pathElements, path.pathIndices) ==>
      VerifyOutcome(t.hash, leaf, path) == Success(true)
  {
    var elements, indices := path.pathElements, path.pathIndices;
    if AreBits(indices) && NamesLeaf(t, leaf, elements, indices) {
      SiblingsAreFields(t, 0, depth, Encoded(indices));
    }
    if IsField(leaf) && AllFields(elements) && AreBits(indices) {
      VerdictIsFold(t.hash, leaf, elements, indices, path.root);
      PathBindsLeaf(t, depth, leaf, elements, indices);
      if Fold(t.hash, leaf, elements, indices) == path.root && !NamesLeaf(t, leaf, elements, indices) {
        FindCollision(t, leaf, elements, indices);
      }
    } else if IsField(leaf) {
      VerdictIsFold(t.hash, leaf, elements, indices, path.root);
    }
  }

  lemma FindCollision(t: Tree, leaf: Digest, elements: seq<Digest>, indices: seq<int>)
    requires IsFieldHash(t.hash) && HasFieldLeaves(t)
    requires IsField(leaf) && AllFields(elements) && |elements| == |indices|
    requires !NeverCollides(t, 0, Encoded(indices), leaf, elements, indices)
    ensures ShowsCollision(t, leaf, elements, indices)
  {
    var level: nat :| level < |elements| && CollidesAt(t, 0, Encoded(indices), leaf, elements, indices, level);
    PathPairsAreFields(t.hash, leaf, elements, indices, level);
    var parent := Ancestor(Encoded(indices), level) / 2;
    NodeIsField(t, level, 2 * parent);
    NodeIsField(t, level, 2 * parent + 1);
  }

  lemma NodeIsField(t: Tree, level: nat, position: int)
    requires IsFieldHash(t.hash) && HasFieldLeaves(t)
    ensures IsField(t.Node(level, position))
  {
  }

  lemma {:induction false} JsSiblingsAreFields(t: Tree, level: nat, count: nat, cursor: int)
    requires IsFieldHash(t.hash) && HasFieldLeaves(t)
    ensures AllFields(JsSiblings(t, level, count, cursor))
    decreases count
  {
    if count > 0 {
      JsSiblingsAreFields(t, level + 1, count - 1, cursor / 2);
      NodeIsField(t, level, JsSibling(cursor));
    }
  }

  /** The leaves that a tree of a capacity admits of those offered to it. */
  function Admitted(offered: seq<int>, capacity: nat): (leaves: seq<Digest>)
    ensures |leaves| <= capacity && AllFields(leaves)
  {
    if offered == [] then []
    else
      var before, last := Admitted(offered[..|offered| - 1], capacity), offered[|offered| - 1];
      if IsField(last) && |before| < capacity then before + [last] else before
  }

  /** After any run of appends, some of which are refused, the path of any admitted leaf verifies. */
  method AppendAllThenVerify(depth: nat, zero: Digest, hash: PairHash, offered: seq<int>, index: nat)
    returns (verdict: Result<bool, ProofError>)
    requires 0 < depth <= 32 && IsField(zero) && IsFieldHash(hash)
    ensures index >= |Admitted(offered, Pow2(depth))| ==> verdict == Failure(NotInserted)
    ensures index < |Admitted(offered, Pow2(depth))| && index < TWO31 ==> verdict == Success(true)
  {
    var tree := new AppendOnlyMerkleTree(depth, zero, hash);
    for k := 0 to |offered|
      invariant fresh(tree) && tree.Valid() && tree.leaves == Admitted(offered[..k], Pow2(depth))
      invariant tree.depth == depth && tree.zeroValue == zero && tree.hash == hash
    {
      assert offered[..k + 1][..k] == offered[..k];
      var _ := tree.Append(offered[k]);
    }
    assert offered[..|offered|] == offered;
    var path := tree.PathForLeaf(index);
    if path.Failure? {
      return Failure(path.error);
    }
    verdict := VerifyMerklePath(hash, tree.leaves[index], path.value);
    if index < TWO31 {
      LeafPathVerifies(tree.Tree(), depth, index);
    }
  }

  /** The path that a tree of field elements gives for a leaf below 2^31 is accepted. */
  lemma LeafPathVerifies(t: Tree, depth: nat, index: nat)
    requires IsFieldHash(t.hash) && HasFieldLeaves(t) && index < Pow2(depth) && index < TWO31
    ensures var path := MerklePath(index, t.Node(depth, 0), JsSiblings(t, 0, depth, index), Directions(depth, index));
      VerifyOutcome(t.hash, t.Leaf(index), path) == Success(true)
  {
    JsSiblingsExact(t, 0, depth, index);
    PathFoldsToRoot(t, depth, index);
    SiblingsAreFields(t, 0, depth, index);
    DescendClimbs(depth, index);
    NodeIsField(t, 0, index);
    VerdictIsFold(t.hash, t.Leaf(index), JsSiblings(t, 0, depth, index), Directions(depth, index), t.Node(depth, 0));
  }

  /** Whether a path entry can be hashed. */
  predicate IsGoodEntry(elements: seq<int>, indices: seq<int>, k: nat)
    requires |elements| == |indices| && k < |elements|
  {
    0 <= elements[k] < BN254_SCALAR_FIELD && (indices[k] == 0 || indices[k] == 1)
  }

  lemma {:induction false} FromErrors(
    hash: PairHash, computed: nat, elements: seq<int>, indices: seq<int>, root: int)
    requires IsFieldHash(hash) && |elements| == |indices|
    ensures VerifyFrom(hash, computed, elements, indices, root).Failure? ==>
      exists k :: 0 <= k < |elements| && !IsGoodEntry(elements, indices, k)
        && (forall j :: 0 <= j < k ==> IsGoodEntry(elements, indices, j))
        && VerifyFrom(hash, computed, elements, indices, root)
        == Failure(if IsField(elements[k]) then NotABit else NotFieldElement)
    decreases |elements|
  {
    if elements != [] && IsGoodEntry(elements, indices, 0) {
      var next := Parent(hash, computed, elements[0], indices[0]);
      FromErrors(hash, next, elements[1..], indices[1..], root);
      if VerifyFrom(hash, computed, elements, indices, root).Failure? {
        var k :| 0 <= k < |elements[1..]| && !IsGoodEntry(elements[1..], indices[1..], k)
          && (forall j :: 0 <= j < k ==> IsGoodEntry(elements[1..], indices[1..], j))
          && VerifyFrom(hash, next, elements[1..], indices[1..], root)
          == Failure(if IsField(elements[1..][k]) then NotABit else NotFieldElement);
        assert !IsGoodEntry(elements, indices, k + 1);
        forall j | 0 <= j < k + 1
          ensures IsGoodEntry(elements, indices, j)
        {
          assert j > 0 ==> IsGoodEntry(elements[1..], indices[1..], j - 1);
        }
      }
    } else if elements != [] {
      assert !IsGoodEntry(elements, indices, 0);
    }
  }

  /** The error of the verifier is that of the leaf, then of the lengths, then of the first entry that is no field
      element or no bit. */
  lemma VerifierErrors(hash: PairHash, leaf: int, path: MerklePath)
    requires IsFieldHash(hash)
    ensures var r := VerifyOutcome(hash, leaf, path);
      if !(0 <= leaf < BN254_SCALAR_FIELD) then r == Failure(NotFieldElement)
      else if |path.pathElements| != |path.pathIndices| then r == Failure(LengthMismatch)
      else
        r.Failure? ==>
          exists k :: 0 <= k < |path.pathElements| && !IsGoodEntry(path.pathElements, path.pathIndices, k)
            && (forall j :: 0 <= j < k ==> IsGoodEntry(path.pathElements, path.pathIndices, j))
            && r == Failure(if IsField(path.pathElements[k]) then NotABit else NotFieldElement)
  {
    if IsField(leaf) && |path.pathElements| == |path.pathIndices| {
      FromErrors(hash, leaf, path.pathElements, path.pathIndices, path.root);
    }
  }
}
