/** Maps with a key taken out. */
module Maps {

  function Removed<K, V>(m: map<K, V>, k: K): map<K, V> {
    map u | u in m && u != k :: m[u]
  }

  lemma RemovedNew<K, V>(m: map<K, V>, k: K, v: V)
    requires k !in m
    ensures Removed(m[k := v], k) == m
  {
  }
}
