/** Sums over the values of a map. */
module MapSums {
  ghost function Pick<K, V>(m: map<K, V>): (k: K)
    requires m != map[]
    ensures k in m
  {
    var k :| k in m;
    k
  }

  ghost function Sum<K, V>(m: map<K, V>, f: V -> nat): nat
    decreases |m|
  {
    if m == map[] then 0
    else
      var k := Pick(m);
      Smaller(m, k);
      f(m[k]) + Sum(m - {k}, f)
  }

  lemma Smaller<K, V>(m: map<K, V>, k: K)
    requires k in m
    ensures |m - {k}| < |m|
  {
    assert (m - {k}).Keys == m.Keys - {k};
  }

  /** Any one entry can be taken out of a sum. */
  lemma {:induction false} SumAt<K, V>(m: map<K, V>, k: K, f: V -> nat)
    requires k in m
    ensures Sum(m, f) == f(m[k]) + Sum(m - {k}, f)
    decreases |m|
  {
    var c := Pick(m);
    if c != k {
      Smaller(m, c);
      Smaller(m, k);
      SumAt(m - {c}, k, f);
      SumAt(m - {k}, c, f);
      assert (m - {c}) - {k} == (m - {k}) - {c};
    }
  }

  lemma SumUpdate<K, V>(m: map<K, V>, k: K, v: V, f: V -> nat)
    requires k in m
    ensures Sum(m[k := v], f) + f(m[k]) == Sum(m, f) + f(v)
  {
    SumAt(m, k, f);
    SumAt(m[k := v], k, f);
    assert m[k := v] - {k} == m - {k};
  }
}
