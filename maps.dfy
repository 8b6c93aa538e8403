/**
 * Small facts about maps that several proofs use as explicit steps.
 */
module Maps {
  /** Taking one more key out of the set of pending keys adds that key's entry back. */
  lemma RestrictOneMore<K, V>(m: map<K, V>, todo: set<K>, k: K)
    requires k in todo && todo <= m.Keys
    ensures m - (todo - {k}) == (m - todo)[k := m[k]]
  {
    var l, r := m - (todo - {k}), (m - todo)[k := m[k]];
    assert l.Keys == r.Keys;
  }

  /** The map with the same keys whose values are `f` applied to `m`'s. */
  function MapValues<K, V, W>(m: map<K, V>, f: V -> W): (r: map<K, W>)
    ensures r.Keys == m.Keys
    ensures forall k :: k in r ==> r[k] == f(m[k])
  {
    map k | k in m :: f(m[k])
  }

  /** Updating one key and then mapping is mapping and then updating that key. */
  lemma MapValuesUpdate<K, V, W>(m: map<K, V>, f: V -> W, k: K, v: V)
    ensures MapValues(m[k := v], f) == MapValues(m, f)[k := f(v)]
  {
    var l, r := MapValues(m[k := v], f), MapValues(m, f)[k := f(v)];
    assert l.Keys == r.Keys;
    forall n | n in l
      ensures l[n] == r[n]
    {
      if n != k {
        assert m[k := v][n] == m[n];
      }
    }
  }
}
