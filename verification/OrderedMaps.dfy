/** JavaScript's insertion-ordered Map, and what "most recently used" means for a log of uses. */
module OrderedMaps {

  datatype OrderedMap<K(==,!new), V> = OrderedMap(order: seq<K>, entries: map<K, V>) {

    /** The order lists every key once. */
    ghost predicate WellFormed() {
      Distinct(order) && forall k :: k in order <==> k in entries
    }

    function Delete(key: K): OrderedMap<K, V> {
      OrderedMap(Without(order, key), entries - {key})
    }

    /** Setting a present key keeps its place; a new key goes to the end. */
    function Set(key: K, value: V): OrderedMap<K, V> {
      OrderedMap(if key in entries then order else order + [key], entries[key := value])
    }
  }

  ghost predicate Distinct<K>(s: seq<K>) {
    forall i, j :: 0 <= i < j < |s| ==> s[i] != s[j]
  }

  function Without<K(==,!new)>(s: seq<K>, key: K): (r: seq<K>)
    ensures forall k :: k in r <==> k in s && k != key
  {
    if s == [] then []
    else if s[0] == key then Without(s[1..], key)
    else [s[0]] + Without(s[1..], key)
  }

  /** The last n elements, or all of them when there are fewer. */
  function LastOf<K>(s: seq<K>, n: nat): seq<K> {
    if |s| <= n then s else s[|s| - n..]
  }

  /** The distinct keys of a log of uses, ordered by their last use. */
  function MostRecent<K(==,!new)>(log: seq<K>): seq<K> {
    if log == [] then []
    else Without(MostRecent(log[..|log| - 1]), log[|log| - 1]) + [log[|log| - 1]]
  }

  lemma {:induction false} WithoutDistinct<K(!new)>(s: seq<K>, key: K)
    requires Distinct(s)
    ensures Distinct(Without(s, key))
  {
    if s == [] {
    } else {
      WithoutDistinct(s[1..], key);
      assert s[0] !in s[1..];
      assert s == [s[0]] + s[1..];
    }
  }

  lemma {:induction false} WithoutSplits<K(!new)>(a: seq<K>, b: seq<K>, key: K)
    ensures Without(a + b, key) == Without(a, key) + Without(b, key)
  {
    if a == [] {
      assert a + b == b;
    } else {
      WithoutSplits(a[1..], b, key);
      assert (a + b)[1..] == a[1..] + b && (a + b)[0] == a[0];
    }
  }

  lemma DeleteFirst<K(!new), V>(m: OrderedMap<K, V>)
    requires m.WellFormed() && m.order != []
    ensures m.Delete(m.order[0]).order == m.order[1..] && m.Delete(m.order[0]).WellFormed()
  {
    var first, rest := m.order[0], m.order[1..];
    assert Distinct(rest) && first !in rest;
    WithoutAbsent(rest, first);
  }

  /** Deleting a key and setting it again only moves it to the end. */
  lemma TouchKeepsEntries<K(!new), V>(m: OrderedMap<K, V>, key: K)
    requires m.WellFormed() && key in m.entries
    ensures var m' := m.Delete(key).Set(key, m.entries[key]);
            m'.WellFormed() && m'.entries == m.entries && m'.order == Without(m.order, key) + [key]
  {
    WithoutDistinct(m.order, key);
  }

  lemma {:induction false} MostRecentDistinct<K(!new)>(log: seq<K>)
    ensures Distinct(MostRecent(log))
    ensures forall k :: k in MostRecent(log) <==> k in log
  {
    if log != [] {
      var before, last := log[..|log| - 1], log[|log| - 1];
      MostRecentDistinct(before);
      WithoutDistinct(MostRecent(before), last);
      assert last !in Without(MostRecent(before), last);
      assert log == before + [last];
    }
  }

  lemma MostRecentAppend<K(!new)>(log: seq<K>, key: K)
    ensures MostRecent(log + [key]) == Without(MostRecent(log), key) + [key]
  {
  }

  /** The recency order splits into what the cache has dropped and what it holds. */
  lemma CacheSplits<K(!new)>(log: seq<K>, capacity: nat) returns (older: seq<K>, cached: seq<K>)
    ensures MostRecent(log) == older + cached && cached == LastOf(MostRecent(log), capacity)
    ensures |cached| < capacity ==> older == []
    ensures Distinct(cached) && forall k :: k in cached ==> k !in older
  {
    var recent := MostRecent(log);
    cached := LastOf(recent, capacity);
    older := recent[..|recent| - |cached|];
    MostRecentDistinct(log);
  }

  lemma LastOfLonger<K>(a: seq<K>, b: seq<K>, n: nat)
    requires |b| >= n || a == []
    ensures LastOf(a + b, n) == LastOf(b, n)
  {
  }

  /** Re-using a cached key moves it to the end of the cache and of the recency order alike. */
  lemma TouchedCache<K(!new)>(log: seq<K>, key: K, capacity: nat)
    requires key in LastOf(MostRecent(log), capacity)
    ensures LastOf(MostRecent(log + [key]), capacity) == Without(LastOf(MostRecent(log), capacity), key) + [key]
  {
    var older, cached := CacheSplits(log, capacity);
    MostRecentAppend(log, key);
    WithoutSplits(older, cached, key);
    WithoutAbsent(older, key);
    RemovalShortens(cached, key);
    var moved := Without(cached, key) + [key];
    assert MostRecent(log + [key]) == older + moved;
    LastOfLonger(older, moved, capacity);
  }

  lemma {:induction false} WithoutAbsent<K(!new)>(s: seq<K>, key: K)
    requires key !in s
    ensures Without(s, key) == s
  {
    if s != [] {
      WithoutAbsent(s[1..], key);
    }
  }

  lemma {:induction false} RemovalShortens<K(!new)>(s: seq<K>, key: K)
    requires Distinct(s) && key in s
    ensures |Without(s, key)| == |s| - 1
  {
    if s[0] == key {
      WithoutAbsent(s[1..], key);
    } else {
      RemovalShortens(s[1..], key);
    }
  }

  /** Using an uncached key appends it; what falls out of the cache is its oldest key. */
  lemma MissedCache<K(!new)>(log: seq<K>, key: K, capacity: nat)
    requires key !in LastOf(MostRecent(log), capacity)
    ensures LastOf(MostRecent(log + [key]), capacity) == LastOf(LastOf(MostRecent(log), capacity) + [key], capacity)
  {
    var older, cached := CacheSplits(log, capacity);
    MostRecentAppend(log, key);
    WithoutSplits(older, cached, key);
    WithoutAbsent(cached, key);
    var grown := cached + [key];
    assert MostRecent(log + [key]) == Without(older, key) + grown;
    LastOfLonger(Without(older, key), grown, capacity);
  }

  /** When a key was used last: its last place in the log. */
  function LastUse<K(==)>(log: seq<K>, key: K): (i: int)
    ensures -1 <= i < |log| && (i >= 0 ==> log[i] == key) && forall j :: i < j < |log| ==> log[j] != key
  {
    if log == [] then -1 else if log[|log| - 1] == key then |log| - 1 else LastUse(log[..|log| - 1], key)
  }

  ghost predicate AscendingBy<K(!new)>(s: seq<K>, rank: K -> int) {
    forall i, j :: 0 <= i < j < |s| ==> rank(s[i]) < rank(s[j])
  }

  lemma {:induction false} WithoutAscending<K(!new)>(s: seq<K>, key: K, rank: K -> int)
    requires AscendingBy(s, rank)
    ensures AscendingBy(Without(s, key), rank)
  {
    if s != [] {
      WithoutAscending(s[1..], key, rank);
      var rest := Without(s[1..], key);
      forall j | 0 <= j < |rest|
        ensures rank(s[0]) < rank(rest[j])
      {
        assert rest[j] in rest;
        var i :| 0 <= i < |s[1..]| && s[1..][i] == rest[j];
        assert s[i + 1] == rest[j];
      }
    }
  }

  /** The recency order lists the used keys by their last use. */
  lemma {:induction false} MostRecentByLastUse<K(!new)>(log: seq<K>)
    ensures AscendingBy(MostRecent(log), k => LastUse(log, k))
  {
    if log != [] {
      var before, last := log[..|log| - 1], log[|log| - 1];
      MostRecentByLastUse(before);
      WithoutAscending(MostRecent(before), last, k => LastUse(before, k));
      var rest := Without(MostRecent(before), last);
      forall i, j | 0 <= i < j < |rest|
        ensures LastUse(log, rest[i]) < LastUse(log, rest[j])
      {
        assert rest[i] in rest && rest[j] in rest;
      }
      forall i | 0 <= i < |rest|
        ensures LastUse(log, rest[i]) < |log| - 1
      {
        assert rest[i] in rest;
      }
    }
  }
}
