/** Climbing with JavaScript's 32-bit operators: `cursor ^ 1` for the sibling, `cursor & 1` for the
    direction. All three tree builders climb this way. */
module JsPaths {
  import opened Powers
  import opened Js32
  import opened MerkleTree

  /** The sibling position as JavaScript's `cursor ^ 1` computes it. */
  function JsSibling(cursor: int): int {
    JsXor(cursor, 1)
  }

  /** The path elements the indexer's loop collects, one level at a time. */
  function JsSiblings(t: Tree, level: nat, count: nat, cursor: int): (s: seq<Digest>)
    ensures |s| == count
    decreases count
  {
    if count == 0 then []
    else [t.Node(level, JsSibling(cursor))] + JsSiblings(t, level + 1, count - 1, cursor / 2)
  }

  /** The expression `cursor & 1`. */
  method Direction(cursor: int) returns (direction: int)
    ensures direction == cursor % 2
  {
    AndOne(cursor);
    direction := JsAnd(cursor, 1);
  }

  lemma ClimbStep(t: Tree, level: nat, count: nat, cursor: int, elements: seq<Digest>, indices: seq<int>)
    requires count > 0
    ensures elements + JsSiblings(t, level, count, cursor)
         == elements + [t.Node(level, JsSibling(cursor))] + JsSiblings(t, level + 1, count - 1, cursor / 2)
    ensures indices + Directions(count, cursor)
         == indices + [cursor % 2] + Directions(count - 1, cursor / 2)
  {
  }

  /** Below 2^31 JavaScript's sibling is the sibling, at 2^31 and above it never is. */
  lemma JsSiblingExact(cursor: int)
    requires cursor >= 0
    ensures JsSibling(cursor) == Sibling(cursor) <==> cursor < TWO31
  {
    XorOne(cursor);
    NeighbourOfEven(cursor, TWO31);
    var flipped := Sibling(ToUint32(cursor));
    assert JsSibling(cursor) == ToInt32(flipped) < TWO31;
    if cursor < TWO31 {
      SmallWord(cursor);
      SmallWord(flipped);
    }
  }

  /** A sibling never crosses an even number. */
  lemma NeighbourOfEven(position: int, bound: int)
    requires bound % 2 == 0
    ensures Sibling(position) < bound <==> position < bound
  {
  }

  lemma {:induction false} JsSiblingsExact(t: Tree, level: nat, count: nat, cursor: int)
    requires 0 <= cursor < TWO31
    ensures JsSiblings(t, level, count, cursor) == t.Siblings(level, count, cursor)
    decreases count
  {
    if count > 0 {
      JsSiblingExact(cursor);
      JsSiblingsExact(t, level + 1, count - 1, cursor / 2);
    }
  }

  /** A leaf index gets the right siblings for every content of the tree exactly when it is below
      2^31, where JavaScript's 32-bit `^` still sees the whole number. */
  lemma SiblingsRightIffBelow2To31(depth: nat, zero: Digest, hash: PairHash, leafIndex: int)
    requires 0 < depth && 0 <= leafIndex < Pow2(depth)
    ensures (forall leaves :: SiblingsRight(Tree(leaves, zero, hash), depth, leafIndex)) <==> leafIndex < TWO31
  {
    if leafIndex < TWO31 {
      forall leaves
        ensures SiblingsRight(Tree(leaves, zero, hash), depth, leafIndex)
      {
        JsSiblingsExact(Tree(leaves, zero, hash), 0, depth, leafIndex);
      }
    } else {
      JsSiblingExact(leafIndex);
      var t := Tree(map[Sibling(leafIndex) := zero + 1], zero, hash);
      SiblingsStep(t, 0, depth, leafIndex);
      assert JsSiblings(t, 0, depth, leafIndex)[0] == zero;
      assert t.Siblings(0, depth, leafIndex)[0] == zero + 1;
      assert !SiblingsRight(t, depth, leafIndex);
    }
  }

  ghost predicate SiblingsRight(t: Tree, depth: nat, leafIndex: int) {
    JsSiblings(t, 0, depth, leafIndex) == t.Siblings(0, depth, leafIndex)
  }
}
