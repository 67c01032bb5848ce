/** Merged ranges of checked blocks, and the gaps in them.
    Models services/indexer/src/ranges.ts. */
module Ranges {
  import opened Wrappers

  datatype BlockRange = BlockRange(fromBlock: int, toBlock: int) {

    predicate Has(b: int) {
      fromBlock <= b <= toBlock
    }
  }

  datatype RangeError = InvalidRange

  ghost predicate Covers(ranges: seq<BlockRange>, b: int) {
    exists k :: 0 <= k < |ranges| && ranges[k].Has(b)
  }

  /** Nonempty ranges in ascending order, with at least one block missing between neighbours. */
  ghost predicate Canonical(ranges: seq<BlockRange>) {
    && (forall k :: 0 <= k < |ranges| ==> ranges[k].fromBlock <= ranges[k].toBlock)
    && (forall i, j :: 0 <= i < j < |ranges| ==> ranges[i].toBlock + 1 < ranges[j].fromBlock)
  }

  ghost predicate SameBlocks(a: seq<BlockRange>, b: seq<BlockRange>) {
    forall x :: Covers(a, x) <==> Covers(b, x)
  }

  ghost predicate SortedByFrom(ranges: seq<BlockRange>) {
    forall i, j :: 0 <= i < j < |ranges| ==> ranges[i].fromBlock <= ranges[j].fromBlock
  }

  /** The canonical form of a set of blocks is unique. */
  lemma {:induction false} CanonicalIsUnique(a: seq<BlockRange>, b: seq<BlockRange>)
    requires Canonical(a) && Canonical(b) && SameBlocks(a, b)
    ensures a == b
    decreases |a|
  {
    if a == [] {
      if b != [] {
        assert b[0].Has(b[0].fromBlock);
        assert Covers(b, b[0].fromBlock);
      }
    } else {
      assert a[0].Has(a[0].fromBlock);
      assert Covers(a, a[0].fromBlock);
      FirstStartsLowest(a, b);
      FirstStartsLowest(b, a);
      FirstEndsFirst(a, b);
      FirstEndsFirst(b, a);
      forall x
        ensures Covers(a[1..], x) <==> Covers(b[1..], x)
      {
        TailBlocks(a, x);
        TailBlocks(b, x);
      }
      CanonicalIsUnique(a[1..], b[1..]);
    }
  }

  lemma FirstStartsLowest(a: seq<BlockRange>, b: seq<BlockRange>)
    requires Canonical(a) && Canonical(b) && SameBlocks(a, b) && a != []
    ensures b != [] && b[0].fromBlock <= a[0].fromBlock
  {
    assert a[0].Has(a[0].fromBlock);
    assert Covers(a, a[0].fromBlock);
    var k :| 0 <= k < |b| && b[k].Has(a[0].fromBlock);
  }

  lemma FirstEndsFirst(a: seq<BlockRange>, b: seq<BlockRange>)
    requires Canonical(a) && Canonical(b) && SameBlocks(a, b) && a != [] && b != []
    requires a[0].fromBlock == b[0].fromBlock
    ensures b[0].toBlock <= a[0].toBlock
  {
    var next := a[0].toBlock + 1;
    assert b[0].Has(next) ==> Covers(b, next);
    assert !Covers(a, next);
  }

  lemma TailBlocks(a: seq<BlockRange>, x: int)
    requires Canonical(a) && a != []
    ensures Covers(a[1..], x) <==> Covers(a, x) && a[0].toBlock < x
  {
  }

  /** A library sort by first block: any order of equal first blocks is allowed. */
  method SortByFrom(ranges: seq<BlockRange>) returns (sorted: seq<BlockRange>)
    ensures SortedByFrom(sorted)
    ensures multiset(sorted) == multiset(ranges)
  {
    sorted := [];
    for n := 0 to |ranges|
      invariant SortedByFrom(sorted) && multiset(sorted) == multiset(ranges[..n])
    {
      sorted := InsertByFrom(sorted, ranges[n]);
      assert ranges[..n + 1] == ranges[..n] + [ranges[n]];
    }
    assert ranges[..|ranges|] == ranges;
  }

  method InsertByFrom(sorted: seq<BlockRange>, range: BlockRange) returns (longer: seq<BlockRange>)
    requires SortedByFrom(sorted)
    ensures SortedByFrom(longer)
    ensures multiset(longer) == multiset(sorted) + multiset{range}
  {
    var k := 0;
    while k < |sorted| && sorted[k].fromBlock < range.fromBlock
      invariant 0 <= k <= |sorted| && forall i :: 0 <= i < k ==> sorted[i].fromBlock <= range.fromBlock
    {
      k := k + 1;
    }
    longer := sorted[..k] + [range] + sorted[k..];
    assert sorted == sorted[..k] + sorted[k..];
  }

  lemma SameElementsSameBlocks(a: seq<BlockRange>, b: seq<BlockRange>)
    requires multiset(a) == multiset(b)
    ensures SameBlocks(a, b)
  {
    forall x
      ensures Covers(a, x) <==> Covers(b, x)
    {
      if Covers(a, x) {
        var k :| 0 <= k < |a| && a[k].Has(x);
        assert a[k] in multiset(b);
        var j :| 0 <= j < |b| && b[j] == a[k];
        assert b[j].Has(x);
      }
      if Covers(b, x) {
        var k :| 0 <= k < |b| && b[k].Has(x);
        assert b[k] in multiset(a);
        var j :| 0 <= j < |a| && a[j] == b[k];
        assert a[j].Has(x);
      }
    }
  }

  lemma CoversAppend(ranges: seq<BlockRange>, r: BlockRange, x: int)
    ensures Covers(ranges + [r], x) <==> Covers(ranges, x) || r.Has(x)
  {
    var all := ranges + [r];
    if r.Has(x) {
      assert all[|ranges|].Has(x);
    }
    if k :| 0 <= k < |ranges| && ranges[k].Has(x) {
      assert all[k].Has(x);
    }
    if k :| 0 <= k < |all| && all[k].Has(x) {
      assert k < |ranges| ==> ranges[k].Has(x);
    }
  }

  /** The merge loop: sorted nonempty ranges become canonical and cover the same blocks. */
  method MergeSorted(ranges: seq<BlockRange>) returns (merged: seq<BlockRange>)
    requires SortedByFrom(ranges) && forall k :: 0 <= k < |ranges| ==> ranges[k].fromBlock <= ranges[k].toBlock
    ensures Canonical(merged) && SameBlocks(merged, ranges)
  {
    merged := [];
    for n := 0 to |ranges|
      invariant Canonical(merged) && SameBlocks(merged, ranges[..n]) && (n > 0 ==> merged != [])
      invariant merged != [] ==> n > 0 && merged[|merged| - 1].fromBlock <= ranges[n - 1].fromBlock
    {
      var next, end := ranges[n], |merged| - 1;
      ghost var before := merged;
      if merged == [] || next.fromBlock > merged[end].toBlock + 1 {
        merged := merged + [next];
      } else if next.toBlock > merged[end].toBlock {
        merged := merged[end := merged[end].(toBlock := next.toBlock)];
      }
      assert ranges[..n + 1] == ranges[..n] + [next];
      forall x
        ensures Covers(merged, x) <==> Covers(ranges[..n + 1], x)
      {
        CoversAppend(ranges[..n], next, x);
        if merged == before + [next] {
          CoversAppend(before, next, x);
        } else {
          assert before == before[..end] + [before[end]] && merged == before[..end] + [merged[end]];
          CoversAppend(before[..end], before[end], x);
          CoversAppend(before[..end], merged[end], x);
        }
      }
    }
    assert ranges[..|ranges|] == ranges;
  }

  class RangeTracker {
    var checkedRanges: seq<BlockRange>

    constructor ()
      ensures checkedRanges == []
    {
      checkedRanges := [];
    }

    ghost predicate Valid()
      reads this
    {
      Canonical(checkedRanges)
    }

    /** Marking adds exactly the range's blocks, and keeps the canonical form. */
    method MarkCheckedRange(range: BlockRange) returns (r: Outcome<RangeError>)
      requires Valid()
      modifies this
      ensures Valid()
      ensures r == if range.toBlock < range.fromBlock then Thrown(InvalidRange) else Done
      ensures forall x :: Covers(checkedRanges, x) <==> Covers(old(checkedRanges), x) || range.Has(x)
      ensures r.Thrown? ==> unchanged(this)
    {
      if range.toBlock < range.fromBlock {
        return Thrown(InvalidRange);
      }
      var all := checkedRanges + [range];
      var ranges := SortByFrom(all);
      SameElementsSameBlocks(ranges, all);
      forall k | 0 <= k < |ranges|
        ensures ranges[k].fromBlock <= ranges[k].toBlock
      {
        assert ranges[k] in multiset(all);
      }
      var merged := MergeSorted(ranges);
      forall x
        ensures Covers(merged, x) <==> Covers(checkedRanges, x) || range.Has(x)
      {
        CoversAppend(checkedRanges, range, x);
      }
      checkedRanges := merged;
      r := Done;
    }

    /** The canonical form of the requested blocks that are not checked. */
    method FindMissingRanges(requested: BlockRange) returns (missing: seq<BlockRange>)
      requires Valid()
      ensures Canonical(missing)
      ensures forall x :: Covers(missing, x) <==> requested.Has(x) && !Covers(checkedRanges, x)
    {
      missing := [];
      var cursor := requested.fromBlock;
      var k := 0;
      while k < |checkedRanges|
        invariant 0 <= k <= |checkedRanges| && requested.fromBlock <= cursor
        invariant forall j :: 0 <= j < k ==> checkedRanges[j].toBlock < cursor
        invariant Canonical(missing) && (missing != [] ==> missing[|missing| - 1].toBlock + 1 < cursor)
        invariant forall x :: Covers(missing, x) <==> requested.Has(x) && x < cursor && !Covers(checkedRanges, x)
      {
        var checked := checkedRanges[k];
        if checked.toBlock < cursor {
          k := k + 1;
          continue;
        }
        if checked.fromBlock > requested.toBlock {
          break;
        }
        ghost var before := missing;
        if checked.fromBlock > cursor {
          missing := missing + [BlockRange(cursor, checked.fromBlock - 1)];
        }
        forall x
          ensures Covers(missing, x)
             <==> requested.Has(x) && x < checked.toBlock + 1 && !Covers(checkedRanges, x)
        {
          CoversAppend(before, BlockRange(cursor, checked.fromBlock - 1), x);
          CoveredPart(checkedRanges, k, cursor, x);
        }
        if checked.toBlock + 1 > cursor {
          cursor := checked.toBlock + 1;
        }
        k := k + 1;
      }
      if cursor <= requested.toBlock {
        forall x
          ensures Covers(missing + [BlockRange(cursor, requested.toBlock)], x)
             <==> requested.Has(x) && !Covers(checkedRanges, x)
        {
          CoversAppend(missing, BlockRange(cursor, requested.toBlock), x);
          if k < |checkedRanges| {
            CoveredPart(checkedRanges, k, cursor, x);
          }
        }
        missing := missing + [BlockRange(cursor, requested.toBlock)];
      }
    }
  }

  /** From a cursor past the first k ranges, the next block covered is the next range's first. */
  lemma CoveredPart(ranges: seq<BlockRange>, k: nat, cursor: int, x: int)
    requires Canonical(ranges) && k < |ranges| && ranges[k].toBlock >= cursor
    requires forall j :: 0 <= j < k ==> ranges[j].toBlock < cursor
    ensures cursor <= x <= ranges[k].toBlock ==> (Covers(ranges, x) <==> ranges[k].fromBlock <= x)
    ensures cursor <= x < ranges[k].fromBlock ==> !Covers(ranges, x)
  {
  }

  /** Any run of marks leaves the canonical form of the blocks marked; invalid marks add nothing. */
  method MarkAll(marks: seq<BlockRange>) returns (tracker: RangeTracker)
    ensures fresh(tracker) && tracker.Valid()
    ensures SameBlocks(tracker.checkedRanges, marks)
  {
    tracker := new RangeTracker();
    for n := 0 to |marks|
      invariant fresh(tracker) && tracker.Valid() && SameBlocks(tracker.checkedRanges, marks[..n])
    {
      var _ := tracker.MarkCheckedRange(marks[n]);
      assert marks[..n + 1] == marks[..n] + [marks[n]];
      forall x
        ensures Covers(tracker.checkedRanges, x) <==> Covers(marks[..n + 1], x)
      {
        CoversAppend(marks[..n], marks[n], x);
      }
    }
    assert marks[..|marks|] == marks;
  }

  /** The order and the repetition of marks never matter. */
  method MarkInTwoOrders(marks: seq<BlockRange>, others: seq<BlockRange>)
    returns (first: seq<BlockRange>, second: seq<BlockRange>)
    requires SameBlocks(marks, others)
    ensures first == second && Canonical(first) && SameBlocks(first, marks)
  {
    var a := MarkAll(marks);
    var b := MarkAll(others);
    first, second := a.checkedRanges, b.checkedRanges;
    CanonicalIsUnique(first, second);
  }

  /** Marking every missing range leaves nothing missing. */
  method FillGaps(tracker: RangeTracker, requested: BlockRange) returns (missing: seq<BlockRange>)
    requires tracker.Valid()
    modifies tracker
    ensures tracker.Valid() && missing == []
    ensures forall x :: Covers(tracker.checkedRanges, x) <==> Covers(old(tracker.checkedRanges), x) || requested.Has(x)
  {
    var gaps := tracker.FindMissingRanges(requested);
    for n := 0 to |gaps|
      invariant tracker.Valid()
      invariant forall x :: Covers(tracker.checkedRanges, x)
                       <==> Covers(old(tracker.checkedRanges), x) || Covers(gaps[..n], x)
    {
      var _ := tracker.MarkCheckedRange(gaps[n]);
      assert gaps[..n + 1] == gaps[..n] + [gaps[n]];
      forall x
        ensures Covers(gaps[..n + 1], x) <==> Covers(gaps[..n], x) || gaps[n].Has(x)
      {
        CoversAppend(gaps[..n], gaps[n], x);
      }
    }
    assert gaps[..|gaps|] == gaps;
    missing := tracker.FindMissingRanges(requested);
    if missing != [] {
      assert missing[0].Has(missing[0].fromBlock);
      assert Covers(missing, missing[0].fromBlock);
    }
  }
}
