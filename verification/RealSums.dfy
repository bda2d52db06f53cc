/** Order-free sums of exact decimals, and how they compare with the sum of their floors. */
module RealSums {
  import Sums

  ghost function Sum<K(!new)>(m: map<K, real>): real
  {
    if m == map[] then 0.0
    else
      var k :| k in m;
      m[k] + Sum(m - {k})
  }

  lemma {:induction false} Remove<K(!new)>(m: map<K, real>, k: K)
    requires k in m
    ensures Sum(m) == m[k] + Sum(m - {k})
    decreases |m|
  {
    var p :| p in m && Sum(m) == m[p] + Sum(m - {p});
    if p != k {
      Remove(m - {p}, k);
      Remove(m - {k}, p);
      assert (m - {p}) - {k} == (m - {k}) - {p};
    }
  }

  lemma Put<K(!new)>(m: map<K, real>, k: K, v: real)
    ensures Sum(m[k := v]) == Sum(m) - (if k in m then m[k] else 0.0) + v
  {
    Remove(m[k := v], k);
    assert m[k := v] - {k} == m - {k};
    if k in m {
      Remove(m, k);
    } else {
      assert m - {k} == m;
    }
  }

  lemma Nothing<K(!new)>()
    ensures Sum<K>(map[]) == 0.0
  {
  }

  lemma {:induction false} Below<K(!new)>(a: map<K, real>, b: map<K, real>)
    requires a.Keys <= b.Keys
    requires forall k | k in a :: a[k] <= b[k]
    requires forall k | k in b && k !in a :: 0.0 <= b[k]
    ensures Sum(a) <= Sum(b)
    decreases |b|
  {
    if b == map[] {
      assert a == map[];
    } else {
      var p :| p in b && Sum(b) == b[p] + Sum(b - {p});
      Below(a - {p}, b - {p});
      if p in a {
        Remove(a, p);
      } else {
        assert a - {p} == a;
      }
    }
  }

  lemma NonNegative<K(!new)>(m: map<K, real>)
    requires forall k | k in m :: 0.0 <= m[k]
    ensures 0.0 <= Sum(m)
    ensures forall k | k in m :: m[k] <= Sum(m)
  {
    Below(map[], m);
    forall k | k in m ensures m[k] <= Sum(m) {
      Remove(m, k);
      Below(map[], m - {k});
    }
  }

  /** A map made of two disjoint parts. */
  ghost predicate Joins<K(!new)>(a: map<K, real>, b: map<K, real>, c: map<K, real>)
  {
    && (forall k | k in c :: k in a || k in b)
    && (forall k | k in a :: k in c && k !in b && c[k] == a[k])
    && (forall k | k in b :: k in c && k !in a && c[k] == b[k])
  }

  lemma {:induction false} Merge<K(!new)>(a: map<K, real>, b: map<K, real>, c: map<K, real>)
    requires Joins(a, b, c)
    ensures Sum(c) == Sum(a) + Sum(b)
    decreases |a|
  {
    hide Sum;
    Nothing<K>();
    if a == map[] {
      assert c == b;
    } else {
      var p :| p in a;
      Remove(a, p);
      Remove(c, p);
      Merge(a - {p}, b, c - {p});
    }
  }

  ghost function Floors<K(!new)>(m: map<K, real>): map<K, int>
  {
    map k | k in m :: m[k].Floor
  }

  /** Each floor loses less than one unit. */
  lemma {:induction false} FloorsLose<K(!new)>(m: map<K, real>)
    ensures Sums.Total(Floors(m)) as real <= Sum(m)
    ensures Sum(m) <= (Sums.Total(Floors(m)) + |m|) as real
    ensures m != map[] ==> Sum(m) < (Sums.Total(Floors(m)) + |m|) as real
    decreases |m|
  {
    if m == map[] {
      assert Floors(m) == map[];
    } else {
      var p :| p in m && Sum(m) == m[p] + Sum(m - {p});
      FloorsLose(m - {p});
      Sums.Remove(Floors(m), p);
      assert Floors(m) - {p} == Floors(m - {p});
      assert |m - {p}| == |m| - 1 by { assert (m - {p}).Keys == m.Keys - {p}; }
    }
  }

  function Reals<K>(m: map<K, int>): map<K, real>
  {
    map k | k in m :: m[k] as real
  }

  lemma {:induction false} SumOfReals<K(!new)>(m: map<K, int>)
    ensures Sum(Reals(m)) == Sums.Total(m) as real
    decreases |m|
  {
    if m == map[] {
      assert Reals(m) == map[];
    } else {
      var p :| p in m && Sums.Total(m) == m[p] + Sums.Total(m - {p});
      Remove(Reals(m), p);
      assert Reals(m) - {p} == Reals(m - {p});
      SumOfReals(m - {p});
    }
  }
}
