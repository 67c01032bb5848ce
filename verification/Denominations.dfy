/** Fixed denominations: their normal form, and the greedy split.
    Models packages/core/src/denominations.ts. */
module Denominations {
  import opened Wrappers
  import opened Collections
  import opened Powers

  datatype Policy = Policy(denominations: seq<int>, maxNoteCount: Option<int>)

  datatype SplitError =
    | AmountNotPositive
    | NoDenominations
    | DenominationNotPositive
    | TooManyNotes
    | DustRemainder(remainder: int)

  // Normalised denominations.

  predicate Descending(s: seq<int>) {
    forall i, j :: 0 <= i < j < |s| ==> s[i] > s[j]
  }

  predicate AllPositive(s: seq<int>) {
    forall i :: 0 <= i < |s| ==> s[i] > 0
  }

  /** Puts a number in its place in a descending list, once. */
  function InsertDescending(x: int, s: seq<int>): (r: seq<int>)
    ensures forall y :: y in r <==> y == x || y in s
  {
    if s == [] || x > s[0] then [x] + s
    else if x == s[0] then s
    else [s[0]] + InsertDescending(x, s[1..])
  }

  /** The distinct numbers of a list, in descending order. */
  function Normalized(s: seq<int>): (r: seq<int>)
    ensures forall y :: y in r <==> y in s
  {
    if s == [] then [] else InsertDescending(s[0], Normalized(s[1..]))
  }

  lemma {:induction false} InsertKeepsDescending(x: int, s: seq<int>)
    requires Descending(s)
    ensures Descending(InsertDescending(x, s))
  {
    if s == [] || x >= s[0] {
    } else {
      var rest := InsertDescending(x, s[1..]);
      InsertKeepsDescending(x, s[1..]);
      forall i | 0 <= i < |rest|
        ensures s[0] > rest[i]
      {
        assert rest[i] in rest;
        assert rest[i] == x || rest[i] in s[1..];
      }
      DescendingCons(s[0], rest);
    }
  }

  lemma DescendingCons(x: int, s: seq<int>)
    requires Descending(s) && forall i :: 0 <= i < |s| ==> x > s[i]
    ensures Descending([x] + s)
  {
  }

  lemma {:induction false} NormalizedIsDescending(s: seq<int>)
    ensures Descending(Normalized(s))
  {
    if s == [] {
    } else {
      NormalizedIsDescending(s[1..]);
      InsertKeepsDescending(s[0], Normalized(s[1..]));
    }
  }

  /** There is one descending list of given numbers. */
  lemma {:induction false} DescendingIsUnique(s: seq<int>, t: seq<int>)
    requires Descending(s) && Descending(t) && forall x :: x in s <==> x in t
    ensures s == t
  {
    if s == [] || t == [] {
      SameElementsEmpty(s, t);
    } else {
      assert s[0] in s && t[0] in t;
      assert s[0] in t && t[0] in s;
      assert s[0] == t[0];
      forall x
        ensures x in s[1..] <==> x in t[1..]
      {
        assert x in s[1..] <==> x in s && x != s[0];
        assert x in t[1..] <==> x in t && x != t[0];
      }
      DescendingIsUnique(s[1..], t[1..]);
      assert s == [s[0]] + s[1..] && t == [t[0]] + t[1..];
    }
  }

  lemma SameElementsEmpty(s: seq<int>, t: seq<int>)
    requires forall x :: x in s <==> x in t
    ensures s == [] <==> t == []
  {
    if s != [] {
      var x := s[0];
      assert x in s;
    }
    if t != [] {
      var x := t[0];
      assert x in t;
    }
  }

  /** The numbers of a list in descending order, kept as often as they occur. */
  function InsertByOrder(x: int, s: seq<int>): seq<int> {
    if s == [] || x >= s[0] then [x] + s else [s[0]] + InsertByOrder(x, s[1..])
  }

  /** `[...].sort((a, b) => (a > b ? -1 : a < b ? 1 : 0))`. */
  function SortDescending(s: seq<int>): seq<int> {
    if s == [] then [] else InsertByOrder(s[0], SortDescending(s[1..]))
  }

  lemma {:induction false} SortOfDistinct(s: seq<int>)
    requires forall i, j :: 0 <= i < j < |s| ==> s[i] != s[j]
    ensures SortDescending(s) == Normalized(s)
  {
    if s == [] {
    } else {
      SortOfDistinct(s[1..]);
      assert s[0] !in s[1..];
      InsertOfNew(s[0], Normalized(s[1..]));
    }
  }

  lemma {:induction false} InsertOfNew(x: int, s: seq<int>)
    requires x !in s
    ensures InsertByOrder(x, s) == InsertDescending(x, s)
  {
    if s == [] {
    } else {
      assert x != s[0] && x !in s[1..];
      if x < s[0] {
        InsertOfNew(x, s[1..]);
      }
    }
  }

  /** What normalizing a list of denominations gives, or why it throws. */
  function NormalizeOutcome(denominations: seq<int>): Result<seq<int>, SplitError> {
    if denominations == [] then Failure(NoDenominations)
    else if AllPositive(denominations) then Success(Normalized(denominations))
    else Failure(DenominationNotPositive)
  }

  method NormalizeDenominations(denominations: seq<int>) returns (r: Result<seq<int>, SplitError>)
    ensures r == NormalizeOutcome(denominations)
  {
    if denominations == [] {
      return Failure(NoDenominations);
    }
    var seen: set<int>, normalized: seq<int> := {}, [];
    for i := 0 to |denominations|
      invariant AllPositive(denominations[..i])
      invariant forall x :: x in seen <==> x in denominations[..i]
      invariant forall x :: x in normalized <==> x in denominations[..i]
      invariant forall j, k :: 0 <= j < k < |normalized| ==> normalized[j] != normalized[k]
    {
      var denomination := denominations[i];
      if denomination <= 0 {
        return Failure(DenominationNotPositive);
      }
      assert denominations[..i + 1] == denominations[..i] + [denomination];
      if denomination !in seen {
        seen := seen + {denomination};
        normalized := normalized + [denomination];
      }
    }
    assert denominations[..] == denominations && denominations[..|denominations|] == denominations;
    SortOfDistinct(normalized);
    NormalizedIsDescending(normalized);
    NormalizedIsDescending(denominations);
    DescendingIsUnique(Normalized(normalized), Normalized(denominations));
    return Success(SortDescending(normalized));
  }

  // The greedy split.

  function Repeated(count: nat, note: int): (r: seq<int>)
    ensures |r| == count
  {
    if count == 0 then [] else [note] + Repeated(count - 1, note)
  }

  function Sum(notes: seq<int>): int {
    if notes == [] then 0 else notes[0] + Sum(notes[1..])
  }

  /** As many of the first denomination as fit, then the rest of the denominations. */
  function Greedy(amount: nat, denominations: seq<int>): seq<int>
    requires AllPositive(denominations)
    decreases |denominations|
  {
    if denominations == [] then []
    else
      QuotientBounds(amount, denominations[0]);
      Repeated(amount / denominations[0], denominations[0]) + Greedy(amount % denominations[0], denominations[1..])
  }

  /** What the greedy split leaves over. */
  function Dust(amount: nat, denominations: seq<int>): nat
    requires AllPositive(denominations)
    decreases |denominations|
  {
    if denominations == [] then amount else Dust(amount % denominations[0], denominations[1..])
  }

  lemma {:induction false} SumConcat(a: seq<int>, b: seq<int>)
    ensures Sum(a + b) == Sum(a) + Sum(b)
  {
    if a == [] {
      assert a + b == b;
    } else {
      SumConcat(a[1..], b);
      assert (a + b)[1..] == a[1..] + b;
    }
  }

  lemma {:induction false} SumRepeated(count: nat, note: int)
    ensures Sum(Repeated(count, note)) == count * note
  {
    if count > 0 {
      SumRepeated(count - 1, note);
      assert Repeated(count, note)[1..] == Repeated(count - 1, note);
      assert count * note == (count - 1) * note + note;
    }
  }

  /** The notes of one denomination are worth what they take off the amount. */
  lemma TakenWorth(amount: nat, d: int)
    requires d > 0
    ensures amount / d >= 0 && Sum(Repeated(amount / d, d)) == amount - amount % d
  {
    QuotientBounds(amount, d);
    SumRepeated(amount / d, d);
  }

  /** Nothing is lost: the notes and the dust make up the amount. */
  lemma {:induction false} GreedyConserves(amount: nat, denominations: seq<int>)
    requires AllPositive(denominations)
    ensures Sum(Greedy(amount, denominations)) + Dust(amount, denominations) == amount
    decreases |denominations|
  {
    if denominations == [] {
    } else {
      var d, rest := denominations[0], denominations[1..];
      var r := amount % d;
      TakenWorth(amount, d);
      GreedyConserves(r, rest);
      SumConcat(Repeated(amount / d, d), Greedy(r, rest));
    }
  }

  predicate Exceeds(count: nat, maxNoteCount: Option<int>) {
    count > 0 && maxNoteCount.Some? && count > maxNoteCount.value
  }

  /** The result of splitting, or why it throws. */
  function SplitOutcome(amount: int, policy: Policy): Result<seq<int>, SplitError> {
    if amount <= 0 then Failure(AmountNotPositive)
    else
      match NormalizeOutcome(policy.denominations)
      case Failure(e) => Failure(e)
      case Success(d) =>
        NormalizedArePositive(policy.denominations);
        if Exceeds(|Greedy(amount, d)|, policy.maxNoteCount) then Failure(TooManyNotes)
        else if Dust(amount, d) != 0 then Failure(DustRemainder(Dust(amount, d)))
        else Success(Greedy(amount, d))
  }

  lemma NormalizedArePositive(s: seq<int>)
    ensures AllPositive(s) ==> AllPositive(Normalized(s))
  {
    if AllPositive(s) {
      forall i | 0 <= i < |Normalized(s)|
        ensures Normalized(s)[i] > 0
      {
        assert Normalized(s)[i] in s;
      }
    }
  }

  method SplitIntoFixedDenominations(amount: int, policy: Policy) returns (r: Result<seq<int>, SplitError>)
    ensures r == SplitOutcome(amount, policy)
  {
    if amount <= 0 {
      return Failure(AmountNotPositive);
    }
    var normal := NormalizeDenominations(policy.denominations);
    if normal.Failure? {
      return Failure(normal.error);
    }
    var d := normal.value;
    NormalizedArePositive(policy.denominations);
    var notes: seq<int>, remaining: nat := [], amount;
    var i := 0;
    while i < |d|
      invariant i <= |d| && AllPositive(d[i..])
      invariant Greedy(amount, d) == notes + Greedy(remaining, d[i..])
      invariant Dust(amount, d) == Dust(remaining, d[i..])
      invariant !Exceeds(|notes|, policy.maxNoteCount)
    {
      ghost var rest := d[i + 1..];
      assert d[i..] == [d[i]] + rest && d[i..][1..] == rest;
      ghost var done := notes;
      while remaining >= d[i]
        invariant Greedy(amount, d) == notes + Greedy(remaining, d[i..])
        invariant Dust(amount, d) == Dust(remaining, d[i..])
        invariant !Exceeds(|notes|, policy.maxNoteCount)
        decreases remaining
      {
        TakeOne(remaining, d[i..]);
        ConcatAssociates(notes, [d[i]], Greedy(remaining - d[i], d[i..]));
        notes := notes + [d[i]];
        remaining := remaining - d[i];
        if policy.maxNoteCount.Some? && |notes| > policy.maxNoteCount.value {
          return Failure(TooManyNotes);
        }
      }
      TakeNone(remaining, d[i..]);
      i := i + 1;
    }
    assert notes + [] == notes;
    if remaining != 0 {
      return Failure(DustRemainder(remaining));
    }
    return Success(notes);
  }

  /** Taking one note of the first denomination. */
  lemma TakeOne(amount: nat, denominations: seq<int>)
    requires AllPositive(denominations) && denominations != [] && amount >= denominations[0]
    ensures Greedy(amount, denominations) == [denominations[0]] + Greedy(amount - denominations[0], denominations)
    ensures Dust(amount, denominations) == Dust(amount - denominations[0], denominations)
  {
    var d := denominations[0];
    var q, r := (amount - d) / d, (amount - d) % d;
    QuotientBounds(amount - d, d);
    QuotientIs(amount, d, q + 1, r);
    ConcatAssociates([d], Repeated(q, d), Greedy(r, denominations[1..]));
  }

  lemma TakeNone(amount: nat, denominations: seq<int>)
    requires AllPositive(denominations) && denominations != [] && amount < denominations[0]
    ensures Greedy(amount, denominations) == Greedy(amount, denominations[1..])
    ensures Dust(amount, denominations) == Dust(amount, denominations[1..])
  {
    QuotientIs(amount, denominations[0], 0, amount);
    assert [] + Greedy(amount, denominations[1..]) == Greedy(amount, denominations[1..]);
  }

  /** When a split succeeds, and why it throws. */
  lemma SplitsIff(amount: int, policy: Policy)
    ensures var r, d := SplitOutcome(amount, policy), Normalized(policy.denominations);
      var valid := policy.denominations != [] && forall i :: 0 <= i < |policy.denominations| ==> policy.denominations[i] > 0;
      && (r == Failure(AmountNotPositive) <==> amount <= 0)
      && (r == Failure(NoDenominations) <==> amount > 0 && policy.denominations == [])
      && (r == Failure(DenominationNotPositive) <==> amount > 0 && policy.denominations != [] && !valid)
      && (amount > 0 && valid ==>
            && AllPositive(d)
            && var many := |Greedy(amount, d)| > 0 && policy.maxNoteCount.Some? && |Greedy(amount, d)| > policy.maxNoteCount.value;
              if many then r == Failure(TooManyNotes)
              else if Dust(amount, d) != 0 then r == Failure(DustRemainder(amount - Sum(Greedy(amount, d))))
              else r == Success(Greedy(amount, d)))
  {
    NormalizedArePositive(policy.denominations);
    if AllPositive(Normalized(policy.denominations)) && amount > 0 {
      GreedyConserves(amount, Normalized(policy.denominations));
    }
  }
}
