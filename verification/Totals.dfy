/** Sums over finite maps, independent of the order of summation. */
module Totals {

  ghost function AnyKey<K>(m: map<K, nat>): (k: K)
    requires m != map[]
    ensures k in m
  {
    var k :| k in m; k
  }

  ghost function Total<K>(m: map<K, nat>): nat
    decreases m.Keys
  {
    if m == map[] then 0 else
      var k := AnyKey(m);
      m[k] + Total(m - {k})
  }

  /** Any key can be taken out first. */
  lemma {:induction false} TotalRemove<K>(m: map<K, nat>, k: K)
    requires k in m
    ensures Total(m) == m[k] + Total(m - {k})
    decreases m.Keys
  {
    var j := AnyKey(m);
    if j != k {
      TotalRemove(m - {j}, k);
      TotalRemove(m - {k}, j);
      assert m - {j} - {k} == m - {k} - {j};
    }
  }

  lemma TotalInsert<K>(m: map<K, nat>, k: K, v: nat)
    ensures Total(m[k := v]) == v + Total(m - {k})
    ensures Total(m[k := v]) == v + Total(m) - (if k in m then m[k] else 0)
  {
    TotalRemove(m[k := v], k);
    assert m[k := v] - {k} == m - {k};
    if k in m {
      TotalRemove(m, k);
    } else {
      assert m - {k} == m;
    }
  }

  lemma {:induction false} TotalSplit<K>(m: map<K, nat>, ks: set<K>)
    ensures Total(m) == Total(m - ks) + Total(map k | k in m && k in ks :: m[k])
    decreases m.Keys
  {
    var inside := map k | k in m && k in ks :: m[k];
    if m == map[] {
      assert m - ks == map[] && inside == map[];
    } else {
      var j := AnyKey(m);
      var m1 := m - {j};
      TotalSplit(m1, ks);
      TotalRemove(m, j);
      if j in ks {
        assert m1 - ks == m - ks;
        assert (map k | k in m1 && k in ks :: m1[k]) == inside - {j};
        TotalRemove(inside, j);
      } else {
        assert m1 - ks == m - ks - {j};
        assert (map k | k in m1 && k in ks :: m1[k]) == inside;
        TotalRemove(m - ks, j);
      }
    }
  }
}
