/** Small facts about the built-in collections. */
module Collections {

  lemma Inhabitant<T(!new)>(s: set<T>) returns (some: T)
    requires s != {}
    ensures some in s
  {
    some :| some in s;
  }

  lemma ConcatAssociates<T>(a: seq<T>, b: seq<T>, c: seq<T>)
    ensures (a + b) + c == a + (b + c)
  {
  }

  lemma MiddleSlice<T>(a: seq<T>, b: seq<T>, c: seq<T>)
    ensures (a + (b + c))[|a|..|a| + |b|] == b
  {
  }
}
