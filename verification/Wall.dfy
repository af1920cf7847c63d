/** The estimated wall time of tests run on a number of threads
    (`wall` of scripts/landing-it.py), durations in milliseconds. */
module Wall {

  function Total(ds: seq<int>): int {
    if ds == [] then 0 else Total(ds[..|ds| - 1]) + ds[|ds| - 1]
  }

  function Longest(ds: seq<int>): int
    requires ds != []
  {
    var last := ds[|ds| - 1];
    if |ds| == 1 then last
    else var m := Longest(ds[..|ds| - 1]); if m < last then last else m
  }

  /** A count below 1 is taken as 1. */
  function Threads(threads: int): int {
    if threads < 1 then 1 else threads
  }

  function Wall(ds: seq<int>, threads: int): real {
    if ds == [] then 0.0
    else
      var even := Total(ds) as real / Threads(threads) as real;
      if even < Longest(ds) as real then Longest(ds) as real else even
  }

  ghost predicate NonNegative(ds: seq<int>) {
    forall i :: 0 <= i < |ds| ==> ds[i] >= 0
  }

  // ----- n-fold sums, so that no product of unknowns is needed

  ghost function Times(n: nat, x: real): real {
    if n == 0 then 0.0 else Times(n - 1, x) + x
  }

  lemma {:induction false} TimesIsProduct(n: nat, x: real)
    ensures Times(n, x) == n as real * x
  {
    if n > 0 {
      TimesIsProduct(n - 1, x);
    }
  }

  lemma {:induction false} TimesGrows(n: nat, a: real, b: real)
    requires a <= b
    ensures Times(n, a) <= Times(n, b)
    ensures a < b && n > 0 ==> Times(n, a) < Times(n, b)
  {
    if n > 0 {
      TimesGrows(n - 1, a, b);
    }
  }

  lemma TimesBelow(n: nat, a: real, b: real)
    requires n > 0 && Times(n, a) <= Times(n, b)
    ensures a <= b
  {
    if b < a {
      TimesGrows(n, b, a);
    }
  }

  lemma {:induction false} TimesSum(n: nat, a: real, b: real)
    ensures Times(n, a + b) == Times(n, a) + Times(n, b)
  {
    if n > 0 {
      TimesSum(n - 1, a, b);
    }
  }

  lemma {:induction false} TimesZero(n: nat)
    ensures Times(n, 0.0) == 0.0
  {
    if n > 0 {
      TimesZero(n - 1);
    }
  }

  lemma Quotient(a: real, n: nat, t: real)
    requires n > 0
    ensures a / n as real <= t <==> a <= Times(n, t)
  {
    var q := a / n as real;
    assert q * n as real == a;
    TimesIsProduct(n, q);
    if q <= t {
      TimesGrows(n, q, t);
    } else {
      TimesGrows(n, t, q);
    }
  }

  // ----- schedules: test i runs on thread who[i]

  ghost predicate Schedule(ds: seq<int>, who: seq<nat>, n: nat) {
    |who| == |ds| && forall i :: 0 <= i < |who| ==> who[i] < n
  }

  /** How long thread `k` works. */
  ghost function Load(ds: seq<int>, who: seq<nat>, k: nat): int
    requires |who| == |ds|
  {
    if ds == [] then 0
    else Load(ds[..|ds| - 1], who[..|ds| - 1], k) + if who[|ds| - 1] == k then ds[|ds| - 1] else 0
  }

  ghost function LoadsBelow(ds: seq<int>, who: seq<nat>, n: nat): int
    requires |who| == |ds|
  {
    if n == 0 then 0 else LoadsBelow(ds, who, n - 1) + Load(ds, who, n - 1)
  }

  /** Each test in turn goes to a thread no other is freer than. */
  ghost predicate Greedy(ds: seq<int>, who: seq<nat>, n: nat)
    requires Schedule(ds, who, n)
  {
    ds == [] || (
      var (before, placed) := (ds[..|ds| - 1], who[..|ds| - 1]);
      && Greedy(before, placed, n)
      && forall k: nat :: k < n ==> Load(before, placed, who[|ds| - 1]) <= Load(before, placed, k))
  }

  // ----- the parts of the bound

  lemma {:induction false} LongestIsLargest(ds: seq<int>)
    requires ds != []
    ensures Longest(ds) in ds
    ensures forall i :: 0 <= i < |ds| ==> ds[i] <= Longest(ds)
  {
    if |ds| > 1 {
      LongestIsLargest(ds[..|ds| - 1]);
      assert ds == ds[..|ds| - 1] + [ds[|ds| - 1]];
    }
  }

  lemma {:induction false} LoadsBelowStep(ds: seq<int>, who: seq<nat>, n: nat)
    requires ds != [] && |who| == |ds|
    ensures LoadsBelow(ds, who, n) == LoadsBelow(ds[..|ds| - 1], who[..|ds| - 1], n)
                                      + if who[|ds| - 1] < n then ds[|ds| - 1] else 0
  {
    if n > 0 {
      LoadsBelowStep(ds, who, n - 1);
    }
  }

  /** A schedule runs every test once. */
  lemma {:induction false} LoadsAddUp(ds: seq<int>, who: seq<nat>, n: nat)
    requires Schedule(ds, who, n)
    ensures LoadsBelow(ds, who, n) == Total(ds)
  {
    if ds == [] {
      NoLoad(n);
    } else {
      LoadsBelowStep(ds, who, n);
      LoadsAddUp(ds[..|ds| - 1], who[..|ds| - 1], n);
    }
  }

  lemma {:induction false} NoLoad(n: nat)
    ensures LoadsBelow([], [], n) == 0
  {
    if n > 0 {
      NoLoad(n - 1);
    }
  }

  lemma {:induction false} LoadsAtMost(ds: seq<int>, who: seq<nat>, n: nat, t: real)
    requires |who| == |ds|
    requires forall k: nat :: k < n ==> Load(ds, who, k) as real <= t
    ensures LoadsBelow(ds, who, n) as real <= Times(n, t)
  {
    if n > 0 {
      LoadsAtMost(ds, who, n - 1, t);
    }
  }

  lemma {:induction false} LoadsAtLeast(ds: seq<int>, who: seq<nat>, n: nat, low: int)
    requires |who| == |ds|
    requires forall k: nat :: k < n ==> low <= Load(ds, who, k)
    ensures Times(n, low as real) <= LoadsBelow(ds, who, n) as real
  {
    if n > 0 {
      LoadsAtLeast(ds, who, n - 1, low);
    }
  }

  lemma {:induction false} LoadHoldsTest(ds: seq<int>, who: seq<nat>, i: nat)
    requires |who| == |ds| && i < |ds| && NonNegative(ds)
    ensures Load(ds, who, who[i]) >= ds[i]
  {
    var m := |ds| - 1;
    if i < m {
      LoadHoldsTest(ds[..m], who[..m], i);
    } else {
      LoadNonNegative(ds[..m], who[..m], who[i]);
    }
  }

  lemma {:induction false} LoadNonNegative(ds: seq<int>, who: seq<nat>, k: nat)
    requires |who| == |ds| && NonNegative(ds)
    ensures Load(ds, who, k) >= 0
  {
    if ds != [] {
      LoadNonNegative(ds[..|ds| - 1], who[..|ds| - 1], k);
    }
  }

  /** The estimate is the least time that holds the even share and the longest test. */
  lemma WallAtMost(ds: seq<int>, threads: int, t: real)
    requires ds != []
    ensures Wall(ds, threads) <= t <==>
            Total(ds) as real <= Times(Threads(threads), t) && Longest(ds) as real <= t
  {
    Quotient(Total(ds) as real, Threads(threads), t);
  }

  /** Written out: a time holds the estimate exactly when it holds each test and, as often
      as there are threads, all of them; a count of threads below 1 is taken as 1, and
      nothing takes no time. */
  lemma WallExact(ds: seq<int>, threads: int, t: real)
    ensures ds == [] ==> Wall(ds, threads) == 0.0
    ensures ds != [] ==>
              (Wall(ds, threads) <= t <==>
               && Total(ds) as real <= Times(if threads < 1 then 1 else threads, t)
               && forall i :: 0 <= i < |ds| ==> ds[i] as real <= t)
  {
    if ds != [] {
      WallAtMost(ds, threads, t);
      LongestIsLargest(ds);
    }
  }

  lemma WallHolds(ds: seq<int>, threads: int, n: nat)
    requires ds != [] && NonNegative(ds) && n == Threads(threads)
    ensures Total(ds) as real <= Times(n, Wall(ds, threads))
    ensures 0.0 <= Longest(ds) as real <= Wall(ds, threads)
  {
    WallAtMost(ds, threads, Wall(ds, threads));
    LongestIsLargest(ds);
  }

  // ----- the bound

  /** No schedule on the threads finishes before the estimate: a time by which
      every thread is done is at least `Wall`. */
  lemma WallIsLowerBound(ds: seq<int>, who: seq<nat>, threads: int, done: real)
    requires NonNegative(ds) && Schedule(ds, who, Threads(threads))
    requires forall k: nat :: k < Threads(threads) ==> Load(ds, who, k) as real <= done
    ensures Wall(ds, threads) <= done
  {
    var n := Threads(threads);
    if ds == [] {
      assert Load(ds, who, 0) == 0;
    } else {
      LoadsAddUp(ds, who, n);
      LoadsAtMost(ds, who, n, done);
      LongestIsLargest(ds);
      var i :| 0 <= i < |ds| && ds[i] == Longest(ds);
      LoadHoldsTest(ds, who, i);
      WallAtMost(ds, threads, done);
    }
  }

  /** When a test goes to a freest thread, that thread has at most the even share
      so far: a greedy schedule ends by the even share plus (n - 1)/n of the
      longest test. */
  lemma {:induction false} GreedyLoad(ds: seq<int>, who: seq<nat>, n: nat, k: nat)
    requires ds != [] && NonNegative(ds) && Schedule(ds, who, n) && Greedy(ds, who, n) && k < n
    ensures Times(n, Load(ds, who, k) as real) <= Total(ds) as real + Times(n - 1, Longest(ds) as real)
  {
    var m := |ds| - 1;
    var before, placed, last := ds[..m], who[..m], ds[m];
    LongestIsLargest(ds);
    if who[m] == k {
      var load := Load(before, placed, k);
      LoadsAtLeast(before, placed, n, load);
      LoadsAddUp(before, placed, n);
      TimesSum(n, load as real, last as real);
      TimesGrows(n - 1, last as real, Longest(ds) as real);
    } else if m > 0 {
      GreedyLoad(before, placed, n, k);
      LongestIsLargest(before);
      TimesGrows(n - 1, Longest(before) as real, Longest(ds) as real);
    } else {
      TimesGrows(n - 1, 0.0, Longest(ds) as real);
      TimesZero(n);
      TimesZero(n - 1);
    }
  }

  /** A greedy schedule on n threads finishes within twice the estimate. */
  lemma GreedyIsWithinTwice(ds: seq<int>, who: seq<nat>, threads: int, n: nat, k: nat)
    requires n == Threads(threads) && k < n
    requires NonNegative(ds) && Schedule(ds, who, n) && Greedy(ds, who, n)
    ensures Load(ds, who, k) as real <= 2.0 * Wall(ds, threads)
  {
    if ds != [] {
      var w := Wall(ds, threads);
      GreedyLoad(ds, who, n, k);
      WallHolds(ds, threads, n);
      TimesGrows(n - 1, Longest(ds) as real, w);
      TimesSum(n, w, w);
      TimesBelow(n, Load(ds, who, k) as real, w + w);
    }
  }

  // ----- adding tests

  lemma {:induction false} TotalWithout(ds: seq<int>, j: nat)
    requires j < |ds|
    ensures Total(ds) == ds[j] + Total(ds[..j] + ds[j + 1..])
  {
    var m := |ds| - 1;
    if j == m {
      assert ds[..j] + ds[j + 1..] == ds[..m];
    } else {
      TotalWithout(ds[..m], j);
      var rest := ds[..j] + ds[j + 1..];
      assert rest[..m - 1] == ds[..m][..j] + ds[..m][j + 1..];
    }
  }

  lemma {:induction false} TotalNonNegative(ds: seq<int>)
    requires NonNegative(ds)
    ensures Total(ds) >= 0
  {
    if ds != [] {
      TotalNonNegative(ds[..|ds| - 1]);
    }
  }

  lemma MultisetWithout(ds: seq<int>, j: nat)
    requires j < |ds|
    ensures multiset(ds[..j] + ds[j + 1..]) == multiset(ds) - multiset{ds[j]}
  {
    assert ds == ds[..j] + [ds[j]] + ds[j + 1..];
    assert multiset(ds) == multiset(ds[..j] + [ds[j]] + ds[j + 1..]);
  }

  /** `large` without one of its elements, the last of `small`. */
  lemma OneLess(small: seq<int>, large: seq<int>) returns (less: seq<int>)
    requires small != [] && multiset(small) <= multiset(large)
    ensures var last := small[|small| - 1];
            && multiset(large) == multiset(less) + multiset{last}
            && multiset(small) == multiset(small[..|small| - 1]) + multiset{last}
            && Total(large) == last + Total(less)
  {
    var m := |small| - 1;
    assert small[m] in multiset(small) && small[m] in multiset(large);
    var j :| 0 <= j < |large| && large[j] == small[m];
    less := large[..j] + large[j + 1..];
    MultisetWithout(small, m);
    assert small[..m] + small[m + 1..] == small[..m];
    MultisetWithout(large, j);
    TotalWithout(large, j);
  }

  lemma Cancels(a: multiset<int>, b: multiset<int>, x: int)
    requires a + multiset{x} <= b + multiset{x}
    ensures a <= b
  {
    forall k ensures a[k] <= b[k] {
      assert (a + multiset{x})[k] <= (b + multiset{x})[k];
    }
  }

  /** What `large` has beyond `small`, in some order. */
  lemma {:induction false} Beyond(small: seq<int>, large: seq<int>) returns (rest: seq<int>)
    requires multiset(small) <= multiset(large)
    ensures multiset(rest) == multiset(large) - multiset(small)
    ensures Total(large) == Total(small) + Total(rest)
  {
    if small == [] {
      rest := large;
    } else {
      var less := OneLess(small, large);
      Cancels(multiset(small[..|small| - 1]), multiset(less), small[|small| - 1]);
      rest := Beyond(small[..|small| - 1], less);
    }
  }

  lemma LongestGrows(small: seq<int>, large: seq<int>)
    requires multiset(small) <= multiset(large) && small != []
    ensures large != [] && Longest(small) <= Longest(large)
  {
    LongestIsLargest(small);
    assert Longest(small) in multiset(small) && Longest(small) in multiset(large);
    LongestIsLargest(large);
  }

  lemma NonNegativePart(part: seq<int>, all: seq<int>)
    requires multiset(part) <= multiset(all) && NonNegative(all)
    ensures NonNegative(part)
  {
    forall i | 0 <= i < |part| ensures part[i] >= 0 {
      assert part[i] in multiset(part) && part[i] in multiset(all);
    }
  }

  /** Adding tests, in any order, never lowers the estimate. */
  lemma WallGrows(small: seq<int>, large: seq<int>, threads: int)
    requires multiset(small) <= multiset(large) && NonNegative(large)
    ensures Wall(small, threads) <= Wall(large, threads)
  {
    var rest := Beyond(small, large);
    NonNegativePart(rest, large);
    TotalNonNegative(rest);
    if small == [] {
      if large != [] {
        LongestIsLargest(large);
      }
    } else {
      LongestGrows(small, large);
      WallAtMost(large, threads, Wall(large, threads));
      WallAtMost(small, threads, Wall(large, threads));
    }
  }

  /** The order of the tests does not matter. */
  lemma WallOfPermutation(a: seq<int>, b: seq<int>, threads: int)
    requires multiset(a) == multiset(b)
    ensures Wall(a, threads) == Wall(b, threads)
  {
    var rest := Beyond(a, b);
    assert |rest| == |multiset(rest)| == 0;
    assert |a| == |multiset(a)| == |multiset(b)| == |b|;
    if a != [] {
      LongestGrows(a, b);
      LongestGrows(b, a);
    }
  }
}
