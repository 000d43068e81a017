/**
  The sum of the values of a finite map: the total weight of a site's error
  codes, and the number of failures recorded in an error histogram.
 */
module MapSums {

  ghost function MapSum<K>(m: map<K, int>): int
    decreases |m|
  {
    if m == map[] then 0
    else
      var k :| k in m;
      m[k] + MapSum(m - {k})
  }

  /** The sum does not depend on which key is taken out first. */
  lemma {:induction false} MapSumRemove<K>(m: map<K, int>, k: K)
    requires k in m
    ensures MapSum(m) == m[k] + MapSum(m - {k})
    decreases |m|
  {
    var j :| j in m && MapSum(m) == m[j] + MapSum(m - {j});
    if j != k {
      var mj, mk := m - {j}, m - {k};
      assert |mj| == |m| - 1 && |mk| == |m| - 1;
      MapSumRemove(mj, k);
      MapSumRemove(mk, j);
      assert mj - {k} == mk - {j};
    }
  }

  /** Setting a key changes the sum by the difference between the new and the old value. */
  lemma MapSumUpdate<K>(m: map<K, int>, k: K, v: int)
    ensures MapSum(m[k := v]) == MapSum(m) - (if k in m then m[k] else 0) + v
  {
    var m' := m[k := v];
    MapSumRemove(m', k);
    assert m' - {k} == m - {k};
    if k in m {
      MapSumRemove(m, k);
    } else {
      assert m - {k} == m;
    }
  }

  lemma {:induction false} MapSumNonNegative<K>(m: map<K, int>)
    requires forall k :: k in m ==> m[k] >= 0
    ensures MapSum(m) >= 0
    decreases |m|
  {
    if m != map[] {
      var k :| k in m;
      MapSumRemove(m, k);
      MapSumNonNegative(m - {k});
    }
  }

  /** With non-negative values, the sum is zero exactly when every value is zero. */
  lemma {:induction false} MapSumZeroIff<K>(m: map<K, int>)
    requires forall k :: k in m ==> m[k] >= 0
    ensures MapSum(m) == 0 <==> forall k :: k in m ==> m[k] == 0
    decreases |m|
  {
    if m != map[] {
      var k :| k in m;
      MapSumRemove(m, k);
      MapSumNonNegative(m - {k});
      MapSumZeroIff(m - {k});
      if MapSum(m) == 0 {
        forall j | j in m ensures m[j] == 0 {
          if j != k { assert j in m - {k}; }
        }
      }
    }
  }

  /** With positive values, the sum is positive exactly when the map is not empty. */
  lemma MapSumPositive<K>(m: map<K, int>)
    requires forall k :: k in m ==> m[k] >= 1
    ensures MapSum(m) >= 0
    ensures MapSum(m) > 0 <==> m != map[]
  {
    MapSumNonNegative(m);
    if m != map[] {
      var k :| k in m;
      MapSumRemove(m, k);
      MapSumNonNegative(m - {k});
    }
  }

  lemma NonEmptyHasKey<K>(m: map<K, int>) returns (k: K)
    requires m != map[]
    ensures k in m
  {
    k :| k in m;
  }
}
