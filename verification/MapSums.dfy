/** Maps from names to counts, and the sum of their counts. */
module MapSums {

  type Counts = map<string, nat>

  function Get(m: Counts, k: string): nat {
    if k in m then m[k] else 0
  }

  /** Sum of all counts. */
  ghost function Sum(m: Counts): nat
    decreases |m|
  {
    if m == map[] then 0
    else
      var k :| k in m;
      m[k] + Sum(m - {k})
  }

  lemma {:induction false} SumRemove(m: Counts, k: string)
    requires k in m
    ensures Sum(m) == m[k] + Sum(m - {k})
    decreases |m|
  {
    var j :| j in m && Sum(m) == m[j] + Sum(m - {j});
    if j != k {
      SumRemove(m - {j}, k);
      SumRemove(m - {k}, j);
      assert m - {j} - {k} == m - {k} - {j};
    }
  }

  lemma SumPut(m: Counts, k: string, v: nat)
    ensures Sum(m[k := v]) + Get(m, k) == Sum(m) + v
  {
    SumRemove(m[k := v], k);
    assert m[k := v] - {k} == m - {k};
    if k in m {
      SumRemove(m, k);
    } else {
      assert m - {k} == m;
    }
  }

  /** `all` is the disjoint union of `a` and `b`. */
  ghost predicate Splits(all: Counts, a: Counts, b: Counts) {
    && (forall k :: k in all <==> k in a || k in b)
    && (forall k :: k in a ==> k !in b && all[k] == a[k])
    && (forall k :: k in b ==> all[k] == b[k])
  }

  lemma {:induction false} SumSplit(all: Counts, a: Counts, b: Counts)
    requires Splits(all, a, b)
    ensures Sum(all) == Sum(a) + Sum(b)
    decreases |a|
  {
    if a == map[] {
      assert all == b;
    } else {
      var k :| k in a;
      SumRemove(a, k);
      SumRemove(all, k);
      SumSplit(all - {k}, a - {k}, b);
    }
  }

  lemma {:induction false} SumAtLeast(m: Counts, c: nat)
    requires forall k :: k in m ==> c <= m[k]
    ensures |m| * c <= Sum(m)
    decreases |m|
  {
    if m != map[] {
      var k :| k in m;
      var rest := m - {k};
      SumRemove(m, k);
      SumAtLeast(rest, c);
      assert |rest| == |m| - 1 by { assert rest.Keys == m.Keys - {k}; }
      Distribute(|rest|, c);
    }
  }

  lemma Distribute(n: nat, c: nat)
    ensures (n + 1) * c == n * c + c
  {
  }

  /** Sums add up name by name. */
  lemma {:induction false} SumPointwise(a: Counts, b: Counts, c: Counts)
    requires a.Keys == c.Keys && b.Keys == c.Keys
    requires forall k :: k in c ==> c[k] == a[k] + b[k]
    ensures Sum(c) == Sum(a) + Sum(b)
    decreases |c|
  {
    if c == map[] {
      assert a == map[] && b == map[];
    } else {
      var k :| k in c;
      SumRemove(a, k);
      SumRemove(b, k);
      SumRemove(c, k);
      SumPointwise(a - {k}, b - {k}, c - {k});
    }
  }

  lemma SubsetOfSameSize<T>(a: set<T>, b: set<T>)
    requires a <= b && |a| == |b|
    ensures a == b
  {
    if x :| x in b && x !in a {
      assert a <= b - {x};
      SubsetSize(a, b - {x});
    }
  }

  lemma SubsetSize<T>(a: set<T>, b: set<T>)
    requires a <= b
    ensures |a| <= |b|
  {
    if a != {} {
      var x :| x in a;
      SubsetSize(a - {x}, b - {x});
    }
  }
}
