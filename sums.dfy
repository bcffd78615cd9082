/**
 * Sums over the values of a map, independent of the order in which the
 * keys are visited; the graphs' counters and aggregates are such sums.
 */
module Sums {

  /** The sum of f[k] over the keys in `keys`, picking the keys in any order. */
  ghost function SumOver<K>(f: map<K, int>, keys: set<K>): int
    requires keys <= f.Keys
    decreases keys
  {
    if keys == {} then 0
    else
      var k :| k in keys;
      f[k] + SumOver(f, keys - {k})
  }

  /** The sum of all values of a map. */
  ghost function Sum<K>(f: map<K, int>): int
  {
    SumOver(f, f.Keys)
  }

  /** Any key can be taken out first: the sum does not depend on the order. */
  lemma {:induction false} SumOverRemove<K>(f: map<K, int>, keys: set<K>, k: K)
    requires keys <= f.Keys && k in keys
    ensures SumOver(f, keys) == f[k] + SumOver(f, keys - {k})
    decreases keys
  {
    var j :| j in keys && SumOver(f, keys) == f[j] + SumOver(f, keys - {j});
    if j != k {
      SumOverRemove(f, keys - {j}, k);
      SumOverRemove(f, keys - {k}, j);
      assert keys - {j} - {k} == keys - {k} - {j};
    }
  }

  /** Two maps that agree on `keys` have the same sum over `keys`. */
  lemma {:induction false} SumOverAgree<K>(f: map<K, int>, g: map<K, int>, keys: set<K>)
    requires keys <= f.Keys && keys <= g.Keys
    requires forall k :: k in keys ==> f[k] == g[k]
    ensures SumOver(f, keys) == SumOver(g, keys)
    decreases keys
  {
    if keys != {} {
      var k :| k in keys;
      SumOverRemove(f, keys, k);
      SumOverRemove(g, keys, k);
      SumOverAgree(f, g, keys - {k});
    }
  }

  /** A sum of non-negative values is non-negative. */
  lemma {:induction false} SumOverNonNegative<K>(f: map<K, int>, keys: set<K>)
    requires keys <= f.Keys
    requires forall k :: k in keys ==> f[k] >= 0
    ensures SumOver(f, keys) >= 0
    decreases keys
  {
    if keys != {} {
      var k :| k in keys;
      SumOverRemove(f, keys, k);
      SumOverNonNegative(f, keys - {k});
    }
  }

  /** Replacing one value changes the sum by the difference. */
  lemma SumUpdate<K>(f: map<K, int>, k: K, v: int)
    requires k in f
    ensures Sum(f[k := v]) == Sum(f) - f[k] + v
  {
    var g := f[k := v];
    assert g.Keys == f.Keys;
    SumOverRemove(f, f.Keys, k);
    SumOverRemove(g, g.Keys, k);
    SumOverAgree(f, g, f.Keys - {k});
  }

  /** Adding a new key adds its value to the sum. */
  lemma SumInsert<K>(f: map<K, int>, k: K, v: int)
    requires k !in f
    ensures Sum(f[k := v]) == Sum(f) + v
  {
    var g := f[k := v];
    assert g.Keys - {k} == f.Keys;
    SumOverRemove(g, g.Keys, k);
    SumOverAgree(f, g, f.Keys);
  }

  /** Dropping a key subtracts its value from the sum. */
  lemma SumRemoveKey<K>(f: map<K, int>, k: K)
    requires k in f
    ensures Sum(f - {k}) == Sum(f) - f[k]
  {
    var g := f - {k};
    assert g.Keys == f.Keys - {k};
    SumOverRemove(f, f.Keys, k);
    SumOverAgree(f, g, f.Keys - {k});
  }
}
