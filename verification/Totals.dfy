/** Sums over the values of a map. */
module Totals {
  /** The sum of `f` over the values of `m`, in any order. */
  ghost function Total<V(!new)>(m: map<nat, V>, f: V -> int): int
    decreases m.Keys
  {
    if m == map[] then 0
    else
      var k :| k in m;
      f(m[k]) + Total(m - {k}, f)
  }

  lemma {:induction false} TotalWithout<V(!new)>(m: map<nat, V>, k: nat, f: V -> int)
    requires k in m
    ensures Total(m, f) == f(m[k]) + Total(m - {k}, f)
    decreases m.Keys
  {
    var j :| j in m && Total(m, f) == f(m[j]) + Total(m - {j}, f);
    if j != k {
      TotalWithout(m - {j}, k, f);
      TotalWithout(m - {k}, j, f);
      assert m - {j} - {k} == m - {k} - {j};
    }
  }

  /** A new or changed value. */
  lemma TotalWith<V(!new)>(m: map<nat, V>, k: nat, v: V, f: V -> int)
    ensures Total(m[k := v], f) == Total(m, f) + f(v) - if k in m then f(m[k]) else 0
  {
    TotalWithout(m[k := v], k, f);
    assert m[k := v] - {k} == m - {k};
    if k in m {
      TotalWithout(m, k, f);
    } else {
      assert m - {k} == m;
    }
  }

  /** A linear bound that holds of every value holds of the sums. */
  lemma {:induction false} TotalBound<V(!new)>(
    m: map<nat, V>, f: V -> int, g: V -> int, h: V -> int, a: int, b: int, c: int)
    requires forall k :: k in m ==> a * f(m[k]) <= b * g(m[k]) + c * h(m[k])
    ensures a * Total(m, f) <= b * Total(m, g) + c * Total(m, h)
    decreases m.Keys
  {
    if m != map[] {
      var k :| k in m;
      var rest := m - {k};
      TotalBound(rest, f, g, h, a, b, c);
      TotalWithout(m, k, f);
      TotalWithout(m, k, g);
      TotalWithout(m, k, h);
      Scaled(a, f(m[k]), Total(rest, f));
      Scaled(b, g(m[k]), Total(rest, g));
      Scaled(c, h(m[k]), Total(rest, h));
    }
  }

  lemma Scaled(a: int, x: int, y: int)
    ensures a * (x + y) == a * x + a * y
  {
  }

  /** A value that splits in two everywhere splits in the sums. */
  lemma {:induction false} TotalSplits<V(!new)>(m: map<nat, V>, f: V -> int, g: V -> int, h: V -> int)
    requires forall k :: k in m ==> f(m[k]) == g(m[k]) + h(m[k])
    ensures Total(m, f) == Total(m, g) + Total(m, h)
    decreases m.Keys
  {
    if m != map[] {
      var k :| k in m;
      TotalSplits(m - {k}, f, g, h);
      TotalWithout(m, k, f);
      TotalWithout(m, k, g);
      TotalWithout(m, k, h);
    }
  }

  lemma {:induction false} TotalSame<V(!new)>(m: map<nat, V>, f: V -> int, g: V -> int)
    requires forall k :: k in m ==> f(m[k]) == g(m[k])
    ensures Total(m, f) == Total(m, g)
    decreases m.Keys
  {
    if m != map[] {
      var k :| k in m;
      TotalSame(m - {k}, f, g);
      TotalWithout(m, k, f);
      TotalWithout(m, k, g);
    }
  }

  lemma {:induction false} TotalAtLeastZero<V(!new)>(m: map<nat, V>, f: V -> int)
    requires forall k :: k in m ==> f(m[k]) >= 0
    ensures Total(m, f) >= 0
    decreases m.Keys
  {
    if m != map[] {
      var k :| k in m;
      TotalAtLeastZero(m - {k}, f);
      TotalWithout(m, k, f);
    }
  }

  lemma TotalZero<V(!new)>(m: map<nat, V>, f: V -> int)
    requires forall k :: k in m ==> f(m[k]) == 0
    ensures Total(m, f) == 0
  {
    TotalSplits(m, f, f, f);
  }

  /** No value exceeds the sum of values that are not negative. */
  lemma MemberAtMostTotal<V(!new)>(m: map<nat, V>, k: nat, f: V -> int)
    requires k in m && forall j :: j in m ==> f(m[j]) >= 0
    ensures 0 <= f(m[k]) <= Total(m, f)
  {
    TotalWithout(m, k, f);
    TotalAtLeastZero(m - {k}, f);
  }
}
