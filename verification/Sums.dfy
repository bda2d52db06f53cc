/** Order-free sums over finite maps.

    `Total` adds a map's values in an arbitrary order; `Remove` shows that the order does not
    matter, and the other lemmas are the few consequences the ledger proofs use. */
module Sums {

  ghost function Total<K(!new)>(m: map<K, int>): int
  {
    if m == map[] then 0
    else
      var k :| k in m;
      m[k] + Total(m - {k})
  }

  lemma {:induction false} Remove<K(!new)>(m: map<K, int>, k: K)
    requires k in m
    ensures Total(m) == m[k] + Total(m - {k})
    decreases |m|
  {
    var p :| p in m && Total(m) == m[p] + Total(m - {p});
    if p != k {
      Remove(m - {p}, k);
      Remove(m - {k}, p);
      assert (m - {p}) - {k} == (m - {k}) - {p};
    }
  }

  lemma Put<K(!new)>(m: map<K, int>, k: K, v: int)
    ensures Total(m[k := v]) == Total(m) - (if k in m then m[k] else 0) + v
  {
    Remove(m[k := v], k);
    assert m[k := v] - {k} == m - {k};
    if k in m {
      Remove(m, k);
    } else {
      assert m - {k} == m;
    }
  }

  lemma {:induction false} Bounds<K(!new)>(m: map<K, int>)
    requires forall k | k in m :: m[k] >= 0
    ensures Total(m) >= 0
    ensures forall k | k in m :: m[k] <= Total(m)
    decreases |m|
  {
    if m != map[] {
      var p :| p in m && Total(m) == m[p] + Total(m - {p});
      Bounds(m - {p});
      assert forall k | k in m && k != p :: m[k] == (m - {p})[k];
    }
  }

  lemma {:induction false} Linear<K(!new)>(a: map<K, int>, b: map<K, int>, c: map<K, int>)
    requires a.Keys == b.Keys == c.Keys
    requires forall k | k in a :: c[k] == a[k] + b[k]
    ensures Total(c) == Total(a) + Total(b)
    decreases |a|
  {
    if a == map[] {
      assert b == map[] && c == map[];
    } else {
      var p :| p in a;
      Remove(a, p);
      Remove(b, p);
      Remove(c, p);
      assert (a - {p}).Keys == (b - {p}).Keys == (c - {p}).Keys;
      Linear(a - {p}, b - {p}, c - {p});
    }
  }

  lemma {:induction false} Zero<K(!new)>(m: map<K, int>)
    requires forall k | k in m :: m[k] == 0
    ensures Total(m) == 0
    decreases |m|
  {
    if m != map[] {
      var p :| p in m && Total(m) == m[p] + Total(m - {p});
      Zero(m - {p});
    }
  }

  lemma {:induction false} Grows<K(!new)>(a: map<K, int>, b: map<K, int>)
    requires forall k | k in a :: k in b && b[k] == a[k]
    requires forall k | k in b :: b[k] >= 0
    ensures Total(a) <= Total(b)
    decreases |a|
  {
    if a == map[] {
      Bounds(b);
    } else {
      var p :| p in a && Total(a) == a[p] + Total(a - {p});
      Remove(b, p);
      Grows(a - {p}, b - {p});
    }
  }
}
