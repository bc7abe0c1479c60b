/** Sizes of sets, and maps taken apart key by key. */
module Sets {
  lemma Disjoint<T>(a: set<T>, b: set<T>)
    requires a !! b
    ensures |a + b| == |a| + |b|
  {
  }

  lemma {:induction false} NoLarger<T>(a: set<T>, b: set<T>)
    requires a <= b
    ensures |a| <= |b|
    ensures |a| == |b| ==> a == b
  {
    assert b == a + (b - a);
    Disjoint(a, b - a);
  }

  /** `rest` is what is left of `m`. */
  ghost predicate LeftOf<K, V>(rest: map<K, V>, m: map<K, V>) {
    rest.Keys <= m.Keys && forall k | k in rest :: rest[k] == m[k]
  }

  lemma LeftAll<K, V>(m: map<K, V>)
    ensures LeftOf(m, m) && m - m.Keys == map[]
  {
  }

  lemma TakeOne<K, V>(m: map<K, V>, rest: map<K, V>, k: K)
    requires LeftOf(rest, m) && k in rest
    ensures LeftOf(rest - {k}, m) && k !in m - rest.Keys
    ensures (m - rest.Keys)[k := rest[k]] == m - (rest - {k}).Keys
    ensures |rest - {k}| < |rest|
  {
    assert rest.Keys == (rest - {k}).Keys + {k};
  }
}
