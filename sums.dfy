/**
 * Sums of counts, over count tables (maps) and over sequences of counts,
 * and the one fact about set sizes the selection argument needs.
 */
module Sums {

  /** Some element of a non-empty set (a fixed choice, so that MapSum is a function). */
  ghost function Pick<K>(s: set<K>): K
    requires s != {}
  {
    var k :| k in s; k
  }

  /** The sum of the values of a count table. */
  ghost function MapSum<K>(m: map<K, nat>): nat
    decreases m.Keys
  {
    if m == map[] then 0
    else
      var k := Pick(m.Keys);
      m[k] + MapSum(m - {k})
  }

  /** Taking any one key out of a table takes exactly its count out of the sum. */
  lemma {:induction false} MapSumRemove<K>(m: map<K, nat>, k: K)
    requires k in m
    ensures MapSum(m) == m[k] + MapSum(m - {k})
    decreases m.Keys
  {
    var j := Pick(m.Keys);
    if j != k {
      MapSumRemove(m - {j}, k);
      MapSumRemove(m - {k}, j);
      assert m - {j} - {k} == m - {k} - {j};
    }
  }

  /** Adding a new key adds its count to the sum. */
  lemma MapSumAdd<K>(m: map<K, nat>, k: K, v: nat)
    requires k !in m
    ensures MapSum(m[k := v]) == MapSum(m) + v
  {
    MapSumRemove(m[k := v], k);
    assert m[k := v] - {k} == m;
  }

  /** Raising one count by one (the `v_count[w]++` of the counting loop) raises the sum by one. */
  lemma MapSumIncrement<K>(m: map<K, nat>, k: K)
    ensures MapSum(m[k := if k in m then m[k] + 1 else 1]) == MapSum(m) + 1
  {
    if k in m {
      MapSumRemove(m, k);
      MapSumAdd(m - {k}, k, m[k] + 1);
      assert (m - {k})[k := m[k] + 1] == m[k := m[k] + 1];
    } else {
      MapSumAdd(m, k, 1);
    }
  }

  /** The sum of a sequence of counts, accumulated from the front as the source's loops do. */
  function Sum(s: seq<nat>): nat
  {
    if s == [] then 0 else Sum(s[..|s| - 1]) + s[|s| - 1]
  }

  /** A subset is no larger than its superset. */
  lemma {:induction false} SubsetCardinality<T>(a: set<T>, b: set<T>)
    requires a <= b
    ensures |a| <= |b|
    decreases a
  {
    if a != {} {
      var x :| x in a;
      SubsetCardinality(a - {x}, b - {x});
    }
  }
}
