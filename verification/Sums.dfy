/** Sums over the values of a map, which do not depend on the order of summation. */
module Sums {

  ghost function SumOver<K, V>(m: map<K, V>, f: V -> int): int {
    if m == map[] then 0
    else
      var k :| k in m;
      f(m[k]) + SumOver(m - {k}, f)
  }

  lemma {:induction false} SumSplits<K, V>(m: map<K, V>, f: V -> int, k: K)
    requires k in m
    ensures SumOver(m, f) == f(m[k]) + SumOver(m - {k}, f)
    decreases |m|
  {
    var c :| c in m && SumOver(m, f) == f(m[c]) + SumOver(m - {c}, f);
    if c != k {
      SumSplits(m - {c}, f, k);
      SumSplits(m - {k}, f, c);
      assert m - {c} - {k} == m - {k} - {c};
    }
  }

  lemma SumUpdates<K, V>(m: map<K, V>, f: V -> int, k: K, v: V)
    ensures SumOver(m[k := v], f) + (if k in m then f(m[k]) else 0) == SumOver(m, f) + f(v)
  {
    SumSplits(m[k := v], f, k);
    if k in m {
      SumSplits(m, f, k);
      assert m[k := v] - {k} == m - {k};
    } else {
      assert m[k := v] - {k} == m;
    }
  }

  /** A sum of non-negative values is not negative. */
  lemma {:induction false} SumIsNonNegative<K, V>(m: map<K, V>, f: V -> int)
    requires forall k | k in m :: f(m[k]) >= 0
    ensures SumOver(m, f) >= 0
    decreases |m|
  {
    if m != map[] {
      var k :| k in m;
      SumSplits(m, f, k);
      SumIsNonNegative(m - {k}, f);
    }
  }
}
