/** Finite sums over the values of a map.

    Both ledger invariants are sums over maps: the holders' balances of one
    token add up to its total supply, and the curve areas of all tokens add
    up to the custody reserve. */
module Sums {

  /** The value stored at `k`, or 0 when `k` has no entry (entries are created lazily). */
  function Lookup<K>(m: map<K, nat>, k: K): nat
  {
    if k in m then m[k] else 0
  }

  /** Updating one entry changes what Lookup sees there and nowhere else. */
  lemma LookupUpdate<K>(m: map<K, nat>, k: K, v: nat)
    ensures Lookup(m[k := v], k) == v
    ensures forall o :: o != k ==> Lookup(m[k := v], o) == Lookup(m, o)
  {
  }

  /** The sum of all values of `m`. */
  ghost function Sum<K>(m: map<K, nat>): nat
    decreases |m|
  {
    if |m| == 0 then 0
    else
      var k :| k in m;
      assert |(m - {k}).Keys| == |m.Keys - {k}|;
      m[k] + Sum(m - {k})
  }

  /** The entry `Sum` splits off first. */
  lemma Pick<K>(m: map<K, nat>) returns (j: K)
    requires |m| > 0
    ensures j in m && Sum(m) == m[j] + Sum(m - {j})
  {
    j :| j in m && Sum(m) == m[j] + Sum(m - {j});
  }

  /** Any entry can be split off the sum, not only the one `Sum` happens to pick. */
  lemma {:induction false} SumRemove<K>(m: map<K, nat>, k: K)
    requires k in m
    ensures Sum(m) == m[k] + Sum(m - {k})
    decreases |m|
  {
    var j := Pick(m);
    if j != k {
      var mj, mk := m - {j}, m - {k};
      var both := mj - {k};
      assert |mj.Keys| == |m.Keys - {j}|;
      assert |mk.Keys| == |m.Keys - {k}|;
      assert k in mj && mj[k] == m[k];
      assert j in mk && mk[j] == m[j];
      SumRemove(mj, k);
      SumRemove(mk, j);
      assert mk - {j} == both;
    }
  }

  /** Overwriting one entry changes the sum by the difference of the two values. */
  lemma SumUpdate<K>(m: map<K, nat>, k: K, v: nat)
    ensures Sum(m[k := v]) + Lookup(m, k) == Sum(m) + v
  {
    SumRemove(m[k := v], k);
    assert m[k := v] - {k} == m - {k};
    if k in m {
      SumRemove(m, k);
    } else {
      assert m - {k} == m;
    }
  }

  /** No single entry exceeds the sum. */
  lemma SumBoundsEntry<K>(m: map<K, nat>, k: K)
    ensures Lookup(m, k) <= Sum(m)
  {
    if k in m {
      SumRemove(m, k);
    }
  }

  lemma SumSingleton<K>(k: K, v: nat)
    ensures Sum(map[k := v]) == v
  {
    SumUpdate(map[], k, v);
  }

  lemma SumPair<K>(j: K, k: K, v: nat, w: nat)
    requires j != k
    ensures Sum(map[j := v, k := w]) == v + w
  {
    SumSingleton(j, v);
    SumUpdate(map[j := v], k, w);
  }
}
