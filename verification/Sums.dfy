/** Sums of an integer measure over a finite set or the values of a map. */
module Sums {

  ghost function Sum<T(!new)>(f: T -> int, s: set<T>): int {
    if s == {} then 0 else var x :| x in s; f(x) + Sum(f, s - {x})
  }

  lemma {:induction false} SumRemove<T(!new)>(f: T -> int, s: set<T>, x: T)
    requires x in s
    ensures Sum(f, s) == f(x) + Sum(f, s - {x})
    decreases s
  {
    var y :| y in s && Sum(f, s) == f(y) + Sum(f, s - {y});
    if y != x {
      SumRemove(f, s - {y}, x);
      SumRemove(f, s - {x}, y);
      assert s - {y} - {x} == s - {x} - {y};
    }
  }

  lemma SumAdd<T(!new)>(f: T -> int, s: set<T>, x: T)
    requires x !in s
    ensures Sum(f, s + {x}) == Sum(f, s) + f(x)
  {
    SumRemove(f, s + {x}, x);
    assert s + {x} - {x} == s;
  }

  lemma {:induction false} SumDisjoint<T(!new)>(f: T -> int, a: set<T>, b: set<T>)
    requires a !! b
    ensures Sum(f, a + b) == Sum(f, a) + Sum(f, b)
    decreases b
  {
    if b == {} {
      assert a + b == a;
    } else {
      var x :| x in b;
      SumRemove(f, b, x);
      SumDisjoint(f, a, b - {x});
      SumAdd(f, a + (b - {x}), x);
      assert a + (b - {x}) + {x} == a + b;
    }
  }

  /** Two measures that agree on a set have the same sum over it. */
  lemma {:induction false} SumSame<T(!new)>(f: T -> int, g: T -> int, s: set<T>)
    requires forall x :: x in s ==> f(x) == g(x)
    ensures Sum(f, s) == Sum(g, s)
    decreases s
  {
    if s != {} {
      var x :| x in s;
      SumRemove(f, s, x);
      SumRemove(g, s, x);
      SumSame(f, g, s - {x});
    }
  }

  lemma {:induction false} SumNonNegative<T(!new)>(f: T -> int, s: set<T>)
    requires forall x :: x in s ==> f(x) >= 0
    ensures Sum(f, s) >= 0
    decreases s
  {
    if s != {} {
      var x :| x in s;
      SumRemove(f, s, x);
      SumNonNegative(f, s - {x});
    }
  }

  /** The sum of a measure over a map's values. */
  ghost function Values<K(!new), V(!new)>(f: V -> int, m: map<K, V>): int {
    if m == map[] then 0 else var k :| k in m; f(m[k]) + Values(f, m - {k})
  }

  lemma {:induction false} ValuesWithout<K(!new), V(!new)>(f: V -> int, m: map<K, V>, k: K)
    requires k in m
    ensures Values(f, m) == f(m[k]) + Values(f, m - {k})
    decreases |m|
  {
    var j :| j in m && Values(f, m) == f(m[j]) + Values(f, m - {j});
    if j != k {
      ValuesWithout(f, m - {j}, k);
      ValuesWithout(f, m - {k}, j);
      assert m - {j} - {k} == m - {k} - {j};
    }
  }

  lemma ValuesUpdate<K(!new), V(!new)>(f: V -> int, m: map<K, V>, k: K, v: V)
    ensures Values(f, m[k := v]) == Values(f, m) + f(v) - (if k in m then f(m[k]) else 0)
  {
    ValuesWithout(f, m[k := v], k);
    if k in m {
      ValuesWithout(f, m, k);
      assert m[k := v] - {k} == m - {k};
    } else {
      assert m[k := v] - {k} == m;
    }
  }

  lemma {:induction false} ValuesAtLeast<K(!new), V(!new)>(f: V -> int, m: map<K, V>, none: bool)
    requires forall k :: k in m ==> f(m[k]) >= 0 && (none ==> f(m[k]) == 0)
    ensures Values(f, m) >= 0 && (none ==> Values(f, m) == 0)
    decreases |m|
  {
    if m != map[] {
      var k :| k in m && Values(f, m) == f(m[k]) + Values(f, m - {k});
      ValuesAtLeast(f, m - {k}, none);
    }
  }
}
