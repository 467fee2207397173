/**
 * Sums of natural-number maps over a set of keys.  Python sums the values of a
 * dictionary in whatever order the dictionary yields them; the sum below picks
 * an arbitrary key at each step, and SumRemove shows that the choice does not
 * matter.
 */
module MapSums {

  ghost function Sum<K>(m: map<K, nat>, keys: set<K>): nat
    requires keys <= m.Keys
    decreases keys
  {
    if keys == {} then 0
    else
      var k :| k in keys;
      m[k] + Sum(m, keys - {k})
  }

  /** The sum of a whole map. */
  ghost function Total<K>(m: map<K, nat>): nat
  {
    Sum(m, m.Keys)
  }

  /** Any key may be taken out first: the order of summation does not matter. */
  lemma {:induction false} SumRemove<K>(m: map<K, nat>, keys: set<K>, k: K)
    requires keys <= m.Keys && k in keys
    ensures Sum(m, keys) == m[k] + Sum(m, keys - {k})
    decreases keys
  {
    var j :| j in keys && Sum(m, keys) == m[j] + Sum(m, keys - {j});
    if j != k {
      SumRemove(m, keys - {j}, k);
      SumRemove(m, keys - {k}, j);
      assert keys - {j} - {k} == keys - {k} - {j};
    }
  }

  /** A positive sum has a positive summand. */
  lemma {:induction false} SumPositive<K>(m: map<K, nat>, keys: set<K>)
    requires keys <= m.Keys && Sum(m, keys) > 0
    ensures exists k :: k in keys && m[k] > 0
    decreases keys
  {
    var k :| k in keys && Sum(m, keys) == m[k] + Sum(m, keys - {k});
    if m[k] == 0 {
      SumPositive(m, keys - {k});
    }
  }

  /** Two maps that agree on the summed keys have the same sum. */
  lemma {:induction false} SumAgree<K>(m: map<K, nat>, m': map<K, nat>, keys: set<K>)
    requires keys <= m.Keys && keys <= m'.Keys
    requires forall k :: k in keys ==> m[k] == m'[k]
    ensures Sum(m, keys) == Sum(m', keys)
    decreases keys
  {
    if keys != {} {
      var k :| k in keys && Sum(m, keys) == m[k] + Sum(m, keys - {k});
      SumRemove(m', keys, k);
      SumAgree(m, m', keys - {k});
    }
  }

  /** Raising one entry by `n` (creating it at 0 if absent) raises the total by `n`. */
  lemma AddToEntry<K>(m: map<K, nat>, k: K, n: nat)
    ensures Total(m[k := (if k in m then m[k] else 0) + n]) == Total(m) + n
  {
    var m' := m[k := (if k in m then m[k] else 0) + n];
    var rest := m.Keys - {k};
    assert m'.Keys - {k} == rest;
    SumRemove(m', m'.Keys, k);
    SumAgree(m, m', rest);
    if k in m {
      SumRemove(m, m.Keys, k);
    } else {
      assert m.Keys == rest;
    }
  }

  /** `m` with entry `k` raised by `n`, created at 0 when absent. */
  function AddTo<K>(m: map<K, nat>, k: K, n: nat): (r: map<K, nat>)
    ensures r.Keys == m.Keys + {k}
    ensures r[k] == (if k in m then m[k] else 0) + n
    ensures forall j :: j in m && j != k ==> r[j] == m[j]
    ensures Total(r) == Total(m) + n
  {
    AddToEntry(m, k, n);
    m[k := (if k in m then m[k] else 0) + n]
  }

  /** No entry exceeds the total. */
  lemma EntryAtMostTotal<K>(m: map<K, nat>, k: K)
    requires k in m
    ensures m[k] <= Total(m)
  {
    SumRemove(m, m.Keys, k);
  }

  /** Removing one key lowers the total by exactly that key's value. */
  lemma RemoveEntry<K>(m: map<K, nat>, k: K)
    requires k in m
    ensures Total(m - {k}) == Total(m) - m[k]
  {
    SumRemove(m, m.Keys, k);
    assert (m - {k}).Keys == m.Keys - {k};
    SumAgree(m, m - {k}, m.Keys - {k});
  }
}
