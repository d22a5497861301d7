// Sums over finite maps: the ledgers of the attachment store.
module MapSums {

  ghost function Total<K>(m: map<K, nat>): nat
    decreases |m|
  {
    if m == map[] then 0
    else
      var k :| k in m;
      SizeWithout(m, k);
      m[k] + Total(m - {k})
  }

  lemma SizeWithout<K, V>(m: map<K, V>, k: K)
    requires k in m
    ensures |m| == |m - {k}| + 1
  {}

  // Any one entry can be taken out of the sum first.
  lemma {:induction false} TotalWithout<K>(m: map<K, nat>, k: K)
    requires k in m
    ensures Total(m) == m[k] + Total(m - {k})
    decreases |m|
  {
    var j :| j in m && Total(m) == m[j] + Total(m - {j});
    if j != k {
      SizeWithout(m, j);
      SizeWithout(m, k);
      TotalWithout(m - {j}, k);
      TotalWithout(m - {k}, j);
      assert m - {j} - {k} == m - {k} - {j};
    }
  }

  lemma TotalSet<K>(m: map<K, nat>, k: K, v: nat)
    ensures Total(m[k := v]) == v + Total(m - {k})
    ensures Total(m - {k}) == Total(m) - if k in m then m[k] else 0
  {
    TotalWithout(m[k := v], k);
    assert m[k := v] - {k} == m - {k};
    if k in m { TotalWithout(m, k); } else { assert m - {k} == m; }
  }

  lemma {:induction false} TotalOfPart<K>(m: map<K, nat>, gone: set<K>)
    ensures Total(m - gone) <= Total(m)
    decreases gone
  {
    if gone == {} {
      assert m - gone == m;
    } else {
      var k :| k in gone;
      TotalOfPart(m, gone - {k});
      var rest := m - (gone - {k});
      assert m - gone == rest - {k};
      TotalSet(rest, k, 0);
    }
  }
}
