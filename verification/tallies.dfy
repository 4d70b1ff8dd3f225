/** Counters kept in dictionaries, and the sum of their values. */
module Tallies {

  // The sum of all counters.
  ghost function Total<K>(m: map<K, nat>): nat
    decreases |m|
  {
    if m == map[] then 0
    else
      var k :| k in m;
      m[k] + Total(m - {k})
  }

  // Any key can be taken out first.
  lemma {:induction false} TakeOut<K>(m: map<K, nat>, k: K)
    requires k in m
    ensures Total(m) == m[k] + Total(m - {k})
    decreases |m|
  {
    var j :| j in m && Total(m) == m[j] + Total(m - {j});
    if j != k {
      TakeOut(m - {j}, k);
      TakeOut(m - {k}, j);
      assert m - {j} - {k} == m - {k} - {j};
    }
  }

  /** One more in one counter is one more in the sum. */
  lemma {:induction false} Bumped<K>(m: map<K, nat>, k: K)
    ensures Total(m[k := Of(m, k) + 1]) == Total(m) + 1
  {
    var n := m[k := Of(m, k) + 1];
    TakeOut(n, k);
    if k in m {
      TakeOut(m, k);
      assert n - {k} == m - {k};
    } else {
      assert n - {k} == m;
    }
  }

  function Of<K>(m: map<K, nat>, k: K): nat {
    if k in m then m[k] else 0
  }

  // How often the events of a history have this key.
  function Count<K(==)>(keys: seq<K>, k: K): nat {
    if keys == [] then 0 else Count(keys[..|keys| - 1], k) + if keys[|keys| - 1] == k then 1 else 0
  }

  lemma CountMore<K>(keys: seq<K>, j: K, k: K)
    ensures Count(keys + [j], k) == Count(keys, k) + if j == k then 1 else 0
  {
    assert (keys + [j])[..|keys|] == keys;
  }

  /** The dictionary counts exactly the keys of the history. */
  ghost predicate Counts<K(!new)>(m: map<K, nat>, keys: seq<K>) {
    && (forall k: K :: Of(m, k) == Count(keys, k))
    && (forall k: K :: k in m ==> m[k] > 0)
    && Total(m) == |keys|
  }

  lemma {:induction false} NothingCounted<K(!new)>()
    ensures Counts<K>(map[], [])
  {
  }

  lemma {:induction false} OneMore<K(!new)>(m: map<K, nat>, keys: seq<K>, k: K)
    requires Counts(m, keys)
    ensures Counts(m[k := Of(m, k) + 1], keys + [k])
  {
    hide Count, Total;
    Bumped(m, k);
    var n := m[k := Of(m, k) + 1];
    forall j: K ensures Of(n, j) == Count(keys + [k], j) {
      CountMore(keys, k, j);
    }
  }
}
