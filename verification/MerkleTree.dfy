/** The naive full binary Merkle tree that every builder in the repository must agree with.

    Leaves not present count as the zero value. Positions are integers, because the
    repository's builders may also be asked for positions outside the tree. */
module MerkleTree {
  import opened Powers

  type Digest = nat
  type PairHash = (Digest, Digest) -> Digest

  datatype Tree = Tree(leaves: map<int, Digest>, zero: Digest, hash: PairHash) {

    function Leaf(position: int): Digest {
      if position in leaves then leaves[position] else zero
    }

    /** The value of a node: a leaf, or the hash of the two nodes below. */
    function Node(level: nat, position: int): Digest {
      if level == 0 then Leaf(position)
      else hash(Node(level - 1, 2 * position), Node(level - 1, 2 * position + 1))
    }

    /** The value of an empty subtree. */
    function Zero(level: nat): Digest {
      if level == 0 then zero else hash(Zero(level - 1), Zero(level - 1))
    }

    /** The siblings met when climbing `count` levels from a node. */
    function Siblings(level: nat, count: nat, position: int): (s: seq<Digest>)
      ensures |s| == count
      decreases count
    {
      if count == 0 then []
      else [Node(level, Sibling(position))] + Siblings(level + 1, count - 1, position / 2)
    }

    /** Whether some present leaf lies below a node. */
    ghost predicate Occupied(level: nat, position: int) {
      exists leaf :: leaf in leaves && Ancestor(leaf, level) == position
    }
  }

  function Sibling(position: int): int {
    if position % 2 == 0 then position + 1 else position - 1
  }

  /** The position reached by climbing from a node. */
  function Ancestor(position: int, levels: nat): int
    decreases levels
  {
    if levels == 0 then position else Ancestor(position / 2, levels - 1)
  }

  /** The direction bits met when climbing: 1 where the node is a right child. */
  function Directions(count: nat, position: int): (d: seq<int>)
    ensures |d| == count
  {
    if count == 0 then [] else [position % 2] + Directions(count - 1, position / 2)
  }

  /** The position reached from a node by descending against direction bits. */
  function Descend(position: int, directions: seq<int>): int {
    if directions == [] then position else 2 * Descend(position, directions[1..]) + directions[0]
  }

  /** The leaf index that a path's bits encode. */
  function Encoded(directions: seq<int>): int {
    Descend(0, directions)
  }

  ghost predicate AreBits(directions: seq<int>) {
    forall k :: 0 <= k < |directions| ==> directions[k] == 0 || directions[k] == 1
  }

  /** The parent of a value, its sibling and its direction. */
  function Parent(hash: PairHash, value: Digest, sibling: Digest, direction: int): Digest {
    if direction == 0 then hash(value, sibling) else hash(sibling, value)
  }

  /** Recomputes the value at the top of a path. */
  function Fold(hash: PairHash, value: Digest, siblings: seq<Digest>, directions: seq<int>): Digest
    requires |siblings| == |directions|
    decreases |siblings|
  {
    if siblings == [] then value
    else Fold(hash, Parent(hash, value, siblings[0], directions[0]), siblings[1..], directions[1..])
  }

  /** A value and its sibling in the order in which they are hashed. */
  function Ordered(value: Digest, sibling: Digest, direction: int): (Digest, Digest) {
    if direction == 0 then (value, sibling) else (sibling, value)
  }

  /** The pair hashed at a level when a path is folded. */
  function PathPair(hash: PairHash, value: Digest, siblings: seq<Digest>, directions: seq<int>, level: nat)
    : (Digest, Digest)
    requires level < |siblings| == |directions|
    decreases level
  {
    if level == 0 then Ordered(value, siblings[0], directions[0])
    else PathPair(hash, Parent(hash, value, siblings[0], directions[0]), siblings[1..], directions[1..], level - 1)
  }

  /** The pair of nodes of a tree below the parent of a node. */
  function TreePair(t: Tree, level: nat, position: int): (Digest, Digest) {
    (t.Node(level, 2 * (position / 2)), t.Node(level, 2 * (position / 2) + 1))
  }

  /** Two different pairs with one hash. */
  predicate Collides(hash: PairHash, p: (Digest, Digest), q: (Digest, Digest)) {
    p != q && hash(p.0, p.1) == hash(q.0, q.1)
  }

  /** What a path hashes at a level collides with what the tree hashes there. The path starts at a
      node of the tree, and counts its levels from that node. */
  predicate CollidesAt(
    t: Tree, base: nat, position: int, value: Digest, siblings: seq<Digest>, directions: seq<int>, level: nat)
    requires level < |siblings| == |directions|
  {
    Collides(t.hash, PathPair(t.hash, value, siblings, directions, level),
             TreePair(t, base + level, Ancestor(position, level)))
  }

  ghost predicate NeverCollides(
    t: Tree, base: nat, position: int, value: Digest, siblings: seq<Digest>, directions: seq<int>)
    requires |siblings| == |directions|
  {
    forall level :: 0 <= level < |siblings| ==> !CollidesAt(t, base, position, value, siblings, directions, level)
  }

  lemma FoldStep(t: Tree, level: nat, position: int, siblings: seq<Digest>, directions: seq<int>)
    requires |siblings| == |directions|
    ensures Fold(t.hash, t.Node(level, position),
                 [t.Node(level, Sibling(position))] + siblings, [position % 2] + directions)
         == Fold(t.hash, t.Node(level + 1, position / 2), siblings, directions)
  {
  }

  /** Climbing from any node along its siblings ends at its ancestor. */
  lemma {:induction false} FoldClimbs(t: Tree, level: nat, count: nat, position: int)
    ensures Fold(t.hash, t.Node(level, position), t.Siblings(level, count, position), Directions(count, position))
         == t.Node(level + count, Ancestor(position, count))
    decreases count
  {
    if count == 0 {
      assert t.Siblings(level, 0, position) == [] && Ancestor(position, 0) == position;
    } else {
      var up := position / 2;
      var siblings, directions := t.Siblings(level + 1, count - 1, up), Directions(count - 1, up);
      calc {
        Fold(t.hash, t.Node(level, position), t.Siblings(level, count, position), Directions(count, position));
        { SiblingsStep(t, level, count, position); }
        Fold(t.hash, t.Node(level, position),
             [t.Node(level, Sibling(position))] + siblings, [position % 2] + directions);
        { FoldStep(t, level, position, siblings, directions); }
        Fold(t.hash, t.Node(level + 1, up), siblings, directions);
        { FoldClimbs(t, level + 1, count - 1, up); }
        t.Node((level + 1) + (count - 1), Ancestor(up, count - 1));
      }
    }
  }

  lemma {:induction false} AncestorDivides(position: int, levels: nat)
    ensures Ancestor(position, levels) == position / Pow2(levels)
    decreases levels
  {
    if levels > 0 {
      AncestorDivides(position / 2, levels - 1);
      HalfThenDivide(position, levels - 1);
    }
  }

  /** Completeness: the path of every leaf of a tree folds to the tree's root. */
  lemma PathFoldsToRoot(t: Tree, depth: nat, index: int)
    requires 0 <= index < Pow2(depth)
    ensures Fold(t.hash, t.Leaf(index), t.Siblings(0, depth, index), Directions(depth, index)) == t.Node(depth, 0)
  {
    FoldClimbs(t, 0, depth, index);
    AncestorDivides(index, depth);
    QuotientIs(index, Pow2(depth), 0, index);
  }

  lemma {:induction false} EncodedBounds(directions: seq<int>)
    requires AreBits(directions)
    ensures 0 <= Encoded(directions) < Pow2(|directions|)
  {
    if directions != [] {
      EncodedBounds(directions[1..]);
    }
  }

  /** Descending against the directions of a climb undoes the climb. */
  lemma {:induction false} DescendClimbs(count: nat, position: int)
    ensures AreBits(Directions(count, position))
    ensures Descend(Ancestor(position, count), Directions(count, position)) == position
  {
    if count > 0 {
      DescendClimbs(count - 1, position / 2);
      assert Directions(count, position)[1..] == Directions(count - 1, position / 2);
    }
  }

  lemma {:induction false} DirectionsOfDescent(position: int, directions: seq<int>)
    requires AreBits(directions)
    ensures Directions(|directions|, Descend(position, directions)) == directions
  {
    if directions != [] {
      DirectionsOfDescent(position, directions[1..]);
    }
  }

  /** Below a known ancestor, directions leave one value and one list of siblings, unless a pair of
      the path collides with the pair of the tree on its level. */
  lemma {:induction false} FoldBinds(
    t: Tree, level: nat, position: int, value: Digest, siblings: seq<Digest>, directions: seq<int>)
    requires AreBits(directions) && |siblings| == |directions|
    requires Fold(t.hash, value, siblings, directions) == t.Node(level + |siblings|, position)
    requires NeverCollides(t, level, Descend(position, directions), value, siblings, directions)
    ensures value == t.Node(level, Descend(position, directions))
    ensures siblings == t.Siblings(level, |siblings|, Descend(position, directions))
    decreases |siblings|
  {
    if siblings == [] {
      assert t.Siblings(level, 0, position) == [] && Descend(position, directions) == position;
    } else {
      var parent := Parent(t.hash, value, siblings[0], directions[0]);
      var down := Descend(position, directions);
      assert (level + 1) + |siblings[1..]| == level + |siblings|;
      assert down / 2 == Descend(position, directions[1..]) && down % 2 == directions[0];
      NeverCollidesAbove(t, level, down, value, siblings, directions);
      FoldBinds(t, level + 1, position, parent, siblings[1..], directions[1..]);
      assert !CollidesAt(t, level, down, value, siblings, directions, 0);
      ParentBinds(t, level, down, value, siblings[0]);
      SiblingsStep(t, level, |siblings|, down);
      assert siblings == [siblings[0]] + siblings[1..];
    }
  }

  /** Above its first level a path is the path of its parent. */
  lemma CollidesAbove(
    t: Tree, base: nat, position: int, value: Digest, siblings: seq<Digest>, directions: seq<int>, level: nat)
    requires 0 < level < |siblings| == |directions|
    ensures CollidesAt(t, base, position, value, siblings, directions, level)
         == CollidesAt(t, base + 1, position / 2, Parent(t.hash, value, siblings[0], directions[0]),
                       siblings[1..], directions[1..], level - 1)
  {
    assert (base + 1) + (level - 1) == base + level;
  }

  lemma NeverCollidesAbove(
    t: Tree, base: nat, position: int, value: Digest, siblings: seq<Digest>, directions: seq<int>)
    requires 0 < |siblings| == |directions| && NeverCollides(t, base, position, value, siblings, directions)
    ensures NeverCollides(t, base + 1, position / 2, Parent(t.hash, value, siblings[0], directions[0]),
                          siblings[1..], directions[1..])
  {
    var up, half, parent := base + 1, position / 2, Parent(t.hash, value, siblings[0], directions[0]);
    var tail, bits := siblings[1..], directions[1..];
    forall level | 0 <= level < |tail|
      ensures !CollidesAt(t, up, half, parent, tail, bits, level)
    {
      CollidesAbove(t, base, position, value, siblings, directions, level + 1);
    }
  }

  lemma SiblingsStep(t: Tree, level: nat, count: nat, position: int)
    requires count > 0
    ensures t.Siblings(level, count, position)
         == [t.Node(level, Sibling(position))] + t.Siblings(level + 1, count - 1, position / 2)
  {
  }

  lemma ParentBinds(t: Tree, level: nat, position: int, value: Digest, sibling: Digest)
    requires !Collides(t.hash, Ordered(value, sibling, position % 2), TreePair(t, level, position))
    requires Parent(t.hash, value, sibling, position % 2) == t.Node(level + 1, position / 2)
    ensures value == t.Node(level, position) && sibling == t.Node(level, Sibling(position))
  {
  }

  /** The value and the siblings are those of the tree, at the index that the directions encode. */
  predicate NamesLeaf(t: Tree, value: int, siblings: seq<int>, directions: seq<int>) {
    value == t.Leaf(Encoded(directions)) && siblings == t.Siblings(0, |siblings|, Encoded(directions))
  }

  /** On the path of a node the pairs are those of the tree. */
  lemma {:induction false} TreePathNeverCollides(t: Tree, base: nat, count: nat, position: int)
    ensures NeverCollides(t, base, position, t.Node(base, position), t.Siblings(base, count, position),
                          Directions(count, position))
    decreases count
  {
    if count > 0 {
      var value, siblings, directions :=
        t.Node(base, position), t.Siblings(base, count, position), Directions(count, position);
      SiblingsStep(t, base, count, position);
      assert siblings[1..] == t.Siblings(base + 1, count - 1, position / 2);
      assert directions[1..] == Directions(count - 1, position / 2);
      assert Parent(t.hash, value, siblings[0], directions[0]) == t.Node(base + 1, position / 2);
      TreePathNeverCollides(t, base + 1, count - 1, position / 2);
      forall level | 0 <= level < count
        ensures !CollidesAt(t, base, position, value, siblings, directions, level)
      {
        if level > 0 {
          CollidesAbove(t, base, position, value, siblings, directions, level);
        }
      }
    }
  }

  /** Binding, for every hash: a path of depth length folds to the root, and none of its pairs collides
      with the tree's pair on the same level, exactly when it names the leaf at the index its bits encode
      and carries that leaf's siblings. */
  lemma PathBindsLeaf(t: Tree, depth: nat, value: Digest, siblings: seq<Digest>, directions: seq<int>)
    requires AreBits(directions) && |siblings| == |directions| == depth
    ensures NamesLeaf(t, value, siblings, directions) <==>
      && Fold(t.hash, value, siblings, directions) == t.Node(depth, 0)
      && NeverCollides(t, 0, Encoded(directions), value, siblings, directions)
    ensures 0 <= Encoded(directions) < Pow2(depth)
  {
    EncodedBounds(directions);
    DirectionsOfDescent(0, directions);
    PathFoldsToRoot(t, depth, Encoded(directions));
    if NamesLeaf(t, value, siblings, directions) {
      TreePathNeverCollides(t, 0, depth, Encoded(directions));
    } else if Fold(t.hash, value, siblings, directions) == t.Node(depth, 0)
              && NeverCollides(t, 0, Encoded(directions), value, siblings, directions) {
      FoldBinds(t, 0, 0, value, siblings, directions);
    }
  }

  /** Pruning is sound: a node with no present leaf below it is the empty subtree. */
  lemma {:induction false} EmptyNodeIsZero(t: Tree, level: nat, position: int)
    requires !t.Occupied(level, position)
    ensures t.Node(level, position) == t.Zero(level)
  {
    if level == 0 {
      assert Ancestor(position, 0) == position;
    } else {
      ChildUnoccupied(t, level, position, 2 * position);
      ChildUnoccupied(t, level, position, 2 * position + 1);
      EmptyNodeIsZero(t, level - 1, 2 * position);
      EmptyNodeIsZero(t, level - 1, 2 * position + 1);
    }
  }

  lemma {:induction false} AncestorSteps(position: int, levels: nat)
    ensures Ancestor(position, levels + 1) == Ancestor(position, levels) / 2
    decreases levels
  {
    if levels > 0 {
      AncestorSteps(position / 2, levels - 1);
    }
  }

  lemma ChildUnoccupied(t: Tree, level: nat, position: int, child: int)
    requires level > 0 && !t.Occupied(level, position) && child / 2 == position
    ensures !t.Occupied(level - 1, child)
  {
    forall leaf | leaf in t.leaves && Ancestor(leaf, level - 1) == child
      ensures Ancestor(leaf, level) == position
    {
      AncestorSteps(leaf, level - 1);
    }
  }
}
