/** Sums over the keys of a hash map, in whatever order the map yields them:
    the phenotype aggregates, the association score and the histogram
    totals are all of this kind. */
module Sums {

  /** The sum of w over keys, picking keys in an arbitrary order. */
  ghost function SumOf<K>(w: map<K, real>, keys: set<K>): (r: real)
    requires keys <= w.Keys
    decreases keys
  {
    if keys == {} then 0.0
    else
      var k :| k in keys;
      w[k] + SumOf(w, keys - {k})
  }

  /** Any key may be taken out first: the sum does not depend on the order. */
  lemma {:induction false} SumRemove<K>(w: map<K, real>, keys: set<K>, k: K)
    requires keys <= w.Keys && k in keys
    ensures SumOf(w, keys) == w[k] + SumOf(w, keys - {k})
    decreases keys
  {
    var j :| j in keys && SumOf(w, keys) == w[j] + SumOf(w, keys - {j});
    if j != k {
      SumRemove(w, keys - {j}, k);
      SumRemove(w, keys - {k}, j);
      assert keys - {j} - {k} == keys - {k} - {j};
    }
  }

  /** The sum over a disjoint union is the sum of the sums. */
  lemma {:induction false} SumUnion<K>(w: map<K, real>, a: set<K>, b: set<K>)
    requires a <= w.Keys && b <= w.Keys && a !! b
    ensures SumOf(w, a + b) == SumOf(w, a) + SumOf(w, b)
    decreases a
  {
    if a != {} {
      var k :| k in a;
      SumRemove(w, a, k);
      SumRemove(w, a + b, k);
      assert a + b - {k} == (a - {k}) + b;
      SumUnion(w, a - {k}, b);
      calc {
        SumOf(w, a + b);
        w[k] + SumOf(w, a + b - {k});
        w[k] + SumOf(w, (a - {k}) + b);
        w[k] + SumOf(w, a - {k}) + SumOf(w, b);
        SumOf(w, a) + SumOf(w, b);
      }
    } else {
      assert a + b == b;
    }
  }

  /** A sum of non-negative terms is non-negative. */
  lemma {:induction false} SumNonNegative<K>(w: map<K, real>, keys: set<K>)
    requires keys <= w.Keys
    requires forall k :: k in keys ==> w[k] >= 0.0
    ensures SumOf(w, keys) >= 0.0
    decreases keys
  {
    if keys != {} {
      var k :| k in keys;
      SumRemove(w, keys, k);
      SumNonNegative(w, keys - {k});
    }
  }

  /** A sum of non-positive terms is non-positive. */
  lemma {:induction false} SumNonPositive<K>(w: map<K, real>, keys: set<K>)
    requires keys <= w.Keys
    requires forall k :: k in keys ==> w[k] <= 0.0
    ensures SumOf(w, keys) <= 0.0
    decreases keys
  {
    if keys != {} {
      var k :| k in keys;
      SumRemove(w, keys, k);
      SumNonPositive(w, keys - {k});
    }
  }

  /** The total of the counts of a histogram, in arbitrary key order. */
  ghost function CountSum<K>(h: map<K, nat>, keys: set<K>): (r: nat)
    requires keys <= h.Keys
    decreases keys
  {
    if keys == {} then 0
    else
      var k :| k in keys;
      h[k] + CountSum(h, keys - {k})
  }

  lemma {:induction false} CountSumRemove<K>(h: map<K, nat>, keys: set<K>, k: K)
    requires keys <= h.Keys && k in keys
    ensures CountSum(h, keys) == h[k] + CountSum(h, keys - {k})
    decreases keys
  {
    var j :| j in keys && CountSum(h, keys) == h[j] + CountSum(h, keys - {j});
    if j != k {
      CountSumRemove(h, keys - {j}, k);
      CountSumRemove(h, keys - {k}, j);
      assert keys - {j} - {k} == keys - {k} - {j};
    }
  }

  /** Two histograms that agree on the keys summed have the same total. */
  lemma {:induction false} CountSumAgree<K>(h: map<K, nat>, g: map<K, nat>, keys: set<K>)
    requires keys <= h.Keys && keys <= g.Keys
    requires forall k :: k in keys ==> h[k] == g[k]
    ensures CountSum(h, keys) == CountSum(g, keys)
    decreases keys
  {
    if keys != {} {
      var k :| k in keys;
      CountSumRemove(h, keys, k);
      CountSumRemove(g, keys, k);
      CountSumAgree(h, g, keys - {k});
    }
  }

  /** Counting one more occurrence of v raises the total by one. */
  lemma CountSumBump<K>(h: map<K, nat>, v: K)
    ensures var g := h[v := (if v in h then h[v] else 0) + 1];
      CountSum(g, g.Keys) == CountSum(h, h.Keys) + 1
  {
    var g := h[v := (if v in h then h[v] else 0) + 1];
    CountSumRemove(g, g.Keys, v);
    assert g.Keys - {v} == h.Keys - {v};
    CountSumAgree(g, h, h.Keys - {v});
    if v in h {
      CountSumRemove(h, h.Keys, v);
    } else {
      assert h.Keys - {v} == h.Keys;
    }
  }
}
