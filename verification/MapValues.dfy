/** The values of a map as a multiset, and loops that visit a map in any order. */
module MapValues {
  import opened Buckets

  /** The values under some keys, each as often as keys hold it. */
  ghost function ValuesIn<V>(m: map<string, V>, keys: set<string>): multiset<V>
    requires keys <= m.Keys
    decreases |keys|
  {
    if keys == {} then multiset{} else multiset{m[Least(keys)]} + ValuesIn(m, keys - {Least(keys)})
  }

  ghost function ValuesOf<V>(m: map<string, V>): multiset<V> {
    ValuesIn(m, m.Keys)
  }

  /** Any key may be taken out first. */
  lemma {:induction false} TakeOut<V>(m: map<string, V>, keys: set<string>, k: string)
    requires k in keys && keys <= m.Keys
    ensures ValuesIn(m, keys) == multiset{m[k]} + ValuesIn(m, keys - {k})
    decreases |keys|
  {
    var l := Least(keys);
    if k != l {
      TakeOut(m, keys - {l}, k);
      assert IsLeast(l, keys - {k});
      ExtremesAreUnique(keys - {k});
      assert keys - {l} - {k} == keys - {k} - {l};
    }
  }

  lemma {:induction false} SameValuesIn<V>(m: map<string, V>, n: map<string, V>, keys: set<string>)
    requires keys <= m.Keys && keys <= n.Keys
    requires forall k :: k in keys ==> m[k] == n[k]
    ensures ValuesIn(m, keys) == ValuesIn(n, keys)
    decreases |keys|
  {
    if keys != {} {
      SameValuesIn(m, n, keys - {Least(keys)});
    }
  }

  lemma ValuesOfPut<V>(m: map<string, V>, k: string, v: V)
    requires k !in m
    ensures ValuesOf(m[k := v]) == ValuesOf(m) + multiset{v}
  {
    var n := m[k := v];
    TakeOut(n, n.Keys, k);
    assert n.Keys - {k} == m.Keys;
    SameValuesIn(n, m, m.Keys);
  }

  lemma {:induction false} ValuesInSize<V>(m: map<string, V>, keys: set<string>)
    requires keys <= m.Keys
    ensures |ValuesIn(m, keys)| == |keys|
    ensures forall v :: v in ValuesIn(m, keys) <==> exists k :: k in keys && m[k] == v
    decreases |keys|
  {
    if keys != {} {
      ValuesInSize(m, keys - {Least(keys)});
    }
  }

  lemma ValuesOfSize<V>(m: map<string, V>)
    ensures |ValuesOf(m)| == |m|
    ensures forall v :: v in ValuesOf(m) <==> exists k :: k in m && m[k] == v
  {
    ValuesInSize(m, m.Keys);
  }

  /** Values in key order. */
  lemma {:induction false} CollectHasValues<V>(m: map<string, V>, keys: set<string>)
    requires keys <= m.Keys
    ensures multiset(Collect(m, keys)) == ValuesIn(m, keys)
    decreases |keys|
  {
    if keys != {} {
      CollectHasValues(m, keys - {Least(keys)});
    }
  }
}
