/** What parts without a problem say of the run, that their order does not
    matter, and that a run split into parts comes back whole
    (`make_part` and `merge_parts` of scripts/it-coverage-map.py). */
module CoverageRuns {
  import opened Wrappers
  import opened Sorting
  import opened CoverageParts

  // ----- parts without a problem

  /** Part `i` is the only one of index `n`. */
  ghost predicate OnlyPart(parts: seq<Part>, n: int, i: nat) {
    i < |parts| && parts[i].index == n && forall j :: 0 <= j < |parts| && parts[j].index == n ==> j == i
  }

  ghost predicate InOnePart(parts: seq<Part>, n: int) {
    exists i :: OnlyPart(parts, n, i)
  }

  ghost predicate OneRun(parts: seq<Part>, commit: string, platform: string, listed: set<TestId>) {
    forall i :: 0 <= i < |parts|
      ==> parts[i].commit == commit && parts[i].platform == platform && ListedIn(parts[i]) == listed
  }

  /** The parts are one whole run: each index is one part's, all have one commit,
      platform and list, a test ran in one part, and the tests run are those listed. */
  lemma WholeRun(parts: seq<Part>, count: int, commit: string)
    requires Sound(parts, count, commit) && count >= 1
    ensures parts != [] && OneRun(parts, commit, parts[0].platform, ListedIn(parts[0]))
    ensures forall n :: 1 <= n <= count ==> InOnePart(parts, n)
    ensures forall t, i, j :: 0 <= i < |parts| && 0 <= j < |parts| && RanIn(parts[i], t) && RanIn(parts[j], t) ==> i == j
    ensures forall t :: HasRun(parts, t) <==> t in ListedIn(parts[0])
    ensures forall t :: HasCoverage(parts, t) ==> HasRun(parts, t)
  {
    assert HasIndex(parts, 1);
    forall i | 0 <= i < |parts|
      ensures parts[i].commit == commit && parts[i].platform == parts[0].platform && ListedIn(parts[i]) == ListedIn(parts[0])
    {
      assert PartOk(parts[i], count, commit) && (i != 0 ==> PairOk(parts[i], parts[0]));
    }
    forall n | 1 <= n <= count ensures InOnePart(parts, n) {
      assert HasIndex(parts, n);
      var i :| 0 <= i < |parts| && parts[i].index == n;
      forall j | 0 <= j < |parts| && parts[j].index == n ensures j == i {
        assert j != i ==> PairOk(parts[j], parts[i]);
      }
      assert OnlyPart(parts, n, i);
    }
    forall t, i, j | 0 <= i < |parts| && 0 <= j < |parts| && RanIn(parts[i], t) && RanIn(parts[j], t) ensures i == j {
      assert i != j ==> PairOk(parts[i], parts[j]);
    }
    forall t ensures HasRun(parts, t) <==> t in ListedIn(parts[0]) {
      assert t in ListedIn(parts[0]) ==> Lists(parts, t);
      assert HasRun(parts, t) ==> Lists(parts, t);
    }
    forall t | HasCoverage(parts, t) ensures HasRun(parts, t) {
      assert Lists(parts, t);
    }
  }

  ghost predicate IndexesInRange(parts: seq<Part>, count: int) {
    forall i :: 0 <= i < |parts| ==> 1 <= parts[i].index <= count
  }

  ghost predicate DifferentIndexes(parts: seq<Part>) {
    forall i, j :: 0 <= i < j < |parts| ==> parts[i].index != parts[j].index
  }

  ghost function IndexesOf(parts: seq<Part>): set<int> {
    set i | 0 <= i < |parts| :: parts[i].index
  }

  lemma {:induction false} AsManyIndexes(parts: seq<Part>)
    requires DifferentIndexes(parts)
    ensures |IndexesOf(parts)| == |parts|
  {
    if parts != [] {
      var n := |parts| - 1;
      var fewer := parts[..n];
      AsManyIndexes(fewer);
      forall x | x in IndexesOf(parts) ensures x in IndexesOf(fewer) + {parts[n].index} {
        var i :| 0 <= i < |parts| && parts[i].index == x;
        assert i < n ==> fewer[i].index == x;
      }
      forall x | x in IndexesOf(fewer) ensures x in IndexesOf(parts) && x != parts[n].index {
        var i :| 0 <= i < n && fewer[i].index == x;
        assert parts[i].index == x;
      }
      assert IndexesOf(parts) == IndexesOf(fewer) + {parts[n].index};
    }
  }

  lemma {:induction false} IndexesCount(count: nat)
    ensures |Indexes(count)| == count
  {
    if count > 0 {
      IndexesCount(count - 1);
    }
  }

  /** The merge does not look for an index past the count: there are as many parts as
      the count says exactly when no part has such an index. */
  lemma PartsAsCounted(parts: seq<Part>, count: int, commit: string)
    requires Sound(parts, count, commit) && count >= 1
    ensures |parts| >= count
    ensures |parts| == count <==> IndexesInRange(parts, count)
  {
    assert DifferentIndexes(parts) by {
      forall i, j | 0 <= i < j < |parts| ensures parts[i].index != parts[j].index {
        assert PairOk(parts[i], parts[j]);
      }
    }
    assert forall n :: 1 <= n <= count ==> HasIndex(parts, n);
    hide Sound;
    AsManyIndexes(parts);
    IndexesCount(count);
    IndexesWanted(parts, count);
  }

  lemma IndexesWanted(parts: seq<Part>, count: int)
    requires forall n :: 1 <= n <= count ==> HasIndex(parts, n)
    ensures |IndexesOf(parts)| >= |Indexes(count)|
    ensures |IndexesOf(parts)| == |Indexes(count)| <==> IndexesInRange(parts, count)
  {
    var all, wanted := IndexesOf(parts), Indexes(count);
    forall n | n in wanted ensures n in all {
      assert HasIndex(parts, n);
    }
    assert all == wanted + (all - wanted);
    assert |all| == |wanted| + |all - wanted|;
    forall n ensures n in all <==> HasIndex(parts, n) {
    }
    if IndexesInRange(parts, count) {
      assert all - wanted == {};
    }
    if all - wanted == {} {
      forall i | 0 <= i < |parts| ensures 1 <= parts[i].index <= count {
        assert HasIndex(parts, parts[i].index);
      }
    }
  }

  function EmptyPart(index: int, commit: string, platform: string): Part {
    Part(PART_VERSION, commit, platform, index, 1, [], [], [])
  }

  /** A run of one part is taken with a second part of index 7. */
  lemma IndexPastTheCount(commit: string, platform: string)
    ensures Sound([EmptyPart(1, commit, platform), EmptyPart(7, commit, platform)], 1, commit)
  {
    var parts := [EmptyPart(1, commit, platform), EmptyPart(7, commit, platform)];
    assert parts[0].index == 1;
    assert ListedIn(parts[0]) == ListedIn(parts[1]) == {};
    forall t ensures !Lists(parts, t) && !HasRun(parts, t) && !HasCoverage(parts, t) {
    }
  }

  // ----- the order of the parts

  /** `b` has the parts of `a`, part `i` of `b` being part `to[i]` of `a`, and `back` undoing `to`. */
  ghost predicate Reordered(a: seq<Part>, b: seq<Part>, to: seq<nat>, back: seq<nat>) {
    && |a| == |b| == |to| == |back|
    && (forall i :: 0 <= i < |a| ==> to[i] < |a| && back[to[i]] == i && b[i] == a[to[i]])
    && (forall i :: 0 <= i < |a| ==> back[i] < |a| && to[back[i]] == i && a[i] == b[back[i]])
  }

  lemma SoundReordered(a: seq<Part>, b: seq<Part>, to: seq<nat>, back: seq<nat>, count: int, commit: string)
    requires Reordered(a, b, to, back) && Sound(a, count, commit)
    ensures Sound(b, count, commit)
  {
    forall i | 0 <= i < |b| ensures PartOk(b[i], count, commit) {
      assert PartOk(a[to[i]], count, commit);
    }
    forall i, j | 0 <= i < |b| && 0 <= j < |b| && i != j ensures PairOk(b[i], b[j]) {
      assert PairOk(a[to[i]], a[to[j]]);
    }
    forall i, j | 0 <= i < |b| && 0 <= j < |b| ensures b[i].platform == b[j].platform {
      assert a[to[i]].platform == a[to[j]].platform;
    }
    forall n | 1 <= n <= count ensures HasIndex(b, n) {
      assert HasIndex(a, n);
      var i :| 0 <= i < |a| && a[i].index == n;
      assert b[back[i]].index == n;
    }
    forall t ensures Lists(a, t) == Lists(b, t) && HasRun(a, t) == HasRun(b, t) && HasCoverage(a, t) == HasCoverage(b, t) {
      SaidReordered(a, b, to, back, t);
    }
  }

  lemma SaidReordered(a: seq<Part>, b: seq<Part>, to: seq<nat>, back: seq<nat>, t: TestId)
    requires Reordered(a, b, to, back)
    ensures Lists(a, t) == Lists(b, t) && HasRun(a, t) == HasRun(b, t) && HasCoverage(a, t) == HasCoverage(b, t)
  {
    SaidAfter(a, b, to, back, t);
    SaidAfter(b, a, back, to, t);
  }

  lemma SaidAfter(a: seq<Part>, b: seq<Part>, to: seq<nat>, back: seq<nat>, t: TestId)
    requires Reordered(a, b, to, back)
    ensures (Lists(a, t) ==> Lists(b, t)) && (HasRun(a, t) ==> HasRun(b, t)) && (HasCoverage(a, t) ==> HasCoverage(b, t))
  {
    if i :| 0 <= i < |a| && t in ListedIn(a[i]) {
      assert t in ListedIn(b[back[i]]);
    }
    if i :| 0 <= i < |a| && RanIn(a[i], t) {
      assert RanIn(b[back[i]], t);
    }
    if i :| 0 <= i < |a| && CoveredIn(a[i], t) {
      assert CoveredIn(b[back[i]], t);
    }
  }

  /** Having no problem does not depend on the order of the parts. */
  lemma SoundAnyOrder(a: seq<Part>, b: seq<Part>, to: seq<nat>, back: seq<nat>, count: int, commit: string)
    requires Reordered(a, b, to, back)
    ensures Sound(a, count, commit) <==> Sound(b, count, commit)
  {
    if Sound(a, count, commit) {
      SoundReordered(a, b, to, back, count, commit);
    }
    if Sound(b, count, commit) {
      SoundReordered(b, a, back, to, count, commit);
    }
  }

  /** Parts say one map of results. */
  lemma ResultsOnce(parts: seq<Part>, r: map<TestId, Result>, s: map<TestId, Result>)
    requires ResultsOf(parts, r) && ResultsOf(parts, s)
    ensures r == s
  {
    forall t | t in r ensures t in s && r[t] == s[t] {
      assert HasRun(parts, t);
      var i :| 0 <= i < |parts| && RanIn(parts[i], t);
      var a :| 0 <= a < |parts[i].results| && parts[i].results[a].test == t;
      assert HasResult(r, parts[i].results[a]) && HasResult(s, parts[i].results[a]);
    }
    assert forall t :: t in s ==> HasRun(parts, t);
  }

  /** Nor do the results. */
  lemma ResultsAnyOrder(a: seq<Part>, b: seq<Part>, to: seq<nat>, back: seq<nat>,
                        r: map<TestId, Result>, s: map<TestId, Result>)
    requires Reordered(a, b, to, back) && ResultsOf(a, r) && ResultsOf(b, s)
    ensures r == s
  {
    forall t ensures t in r <==> HasRun(b, t) {
      SaidReordered(a, b, to, back, t);
    }
    forall i, k | 0 <= i < |b| && 0 <= k < |b[i].results| ensures HasResult(r, b[i].results[k]) {
      assert HasResult(r, a[to[i]].results[k]);
    }
    ResultsOnce(b, r, s);
  }

  /** The files a part gives a test. */
  ghost predicate Gives(p: Part, t: TestId, files: set<string>) {
    EndsWith(p, |p.covered|, t, files)
  }

  /** No two parts give one test different files. */
  ghost predicate Agree(parts: seq<Part>) {
    forall i, j, t, f, g :: 0 <= i < |parts| && 0 <= j < |parts| && Gives(parts[i], t, f) && Gives(parts[j], t, g) ==> f == g
  }

  lemma EndsLater(p: Part, n: nat, t: TestId, f: set<string>)
    requires 0 < n <= |p.covered| && EndsWith(p, n - 1, t, f) && p.covered[n - 1].test != t
    ensures EndsWith(p, n, t, f)
  {
    var a :| 0 <= a < n - 1 && p.covered[a].test == t && p.covered[a].files == f
             && forall b :: a < b < n - 1 ==> p.covered[b].test != t;
    assert forall b :: a < b < n ==> p.covered[b].test != t;
  }

  lemma {:induction false} GivesSome(p: Part, t: TestId, n: nat)
    requires n <= |p.covered| && CoveredUpTo(p, n, t)
    ensures exists f :: EndsWith(p, n, t, f)
  {
    var a :| 0 <= a < n && p.covered[a].test == t;
    if p.covered[n - 1].test == t {
      assert EndsWith(p, n, t, p.covered[n - 1].files);
    } else {
      assert a < n - 1;
      GivesSome(p, t, n - 1);
      var f :| EndsWith(p, n - 1, t, f);
      EndsLater(p, n, t, f);
    }
  }

  lemma {:induction false} GivesLast(parts: seq<Part>, k: nat, n: nat, t: TestId)
    returns (i: nat, a: nat)
    requires k <= |parts| && n == |parts| && CoversBefore(parts, k, t) && !CoversFrom(parts, k, t)
    ensures IsEntry(parts, i, a, t) && LastEntry(parts, i, a) && Gives(parts[i], t, parts[i].covered[a].files)
    decreases k
  {
    if CoveredIn(parts[k - 1], t) {
      i := k - 1;
      GivesSome(parts[i], t, |parts[i].covered|);
      var f :| EndsWith(parts[i], |parts[i].covered|, t, f);
      a :| 0 <= a < |parts[i].covered| && parts[i].covered[a].test == t && parts[i].covered[a].files == f
           && forall b :: a < b < |parts[i].covered| ==> parts[i].covered[b].test != t;
      forall j: nat, b: nat | Later(i, a, j, b) ensures !IsEntry(parts, j, b, t) {
        if k <= j < |parts| {
          assert !CoveredIn(parts[j], t);
        }
      }
    } else {
      i, a := GivesLast(parts, k - 1, n, t);
    }
  }

  ghost predicate CoversBefore(parts: seq<Part>, k: nat, t: TestId) {
    exists i :: 0 <= i < k <= |parts| && CoveredIn(parts[i], t)
  }

  ghost predicate CoversFrom(parts: seq<Part>, k: nat, t: TestId) {
    exists i :: k <= i < |parts| && CoveredIn(parts[i], t)
  }

  /** The merged coverage of a test is what its last part gives it. */
  lemma CoverageGiven(parts: seq<Part>, e: map<TestId, set<string>>, t: TestId) returns (i: nat)
    requires CoverageOf(parts, e) && t in e
    ensures i < |parts| && Gives(parts[i], t, e[t])
    ensures forall j :: i < j < |parts| ==> !CoveredIn(parts[j], t)
  {
    assert HasCoverage(parts, t) && !CoversFrom(parts, |parts|, t);
    assert CoversBefore(parts, |parts|, t);
    var a;
    i, a := GivesLast(parts, |parts|, |parts|, t);
    assert HasFiles(e, parts[i].covered[a]);
    forall j | i < j < |parts| ensures !CoveredIn(parts[j], t) {
      if CoveredIn(parts[j], t) {
        var b :| 0 <= b < |parts[j].covered| && parts[j].covered[b].test == t;
        assert Later(i, a, j, b) && IsEntry(parts, j, b, t);
      }
    }
  }

  lemma GivenOnce(p: Part, t: TestId, f: set<string>, g: set<string>)
    requires Gives(p, t, f) && Gives(p, t, g)
    ensures f == g && CoveredIn(p, t)
  {
  }

  /** Nor does the coverage, when no two parts give a test different files. */
  lemma CoverageAnyOrder(a: seq<Part>, b: seq<Part>, to: seq<nat>, back: seq<nat>,
                         e: map<TestId, set<string>>, f: map<TestId, set<string>>)
    requires Reordered(a, b, to, back) && CoverageOf(a, e) && CoverageOf(b, f) && Agree(a)
    ensures e == f
  {
    hide CoverageOf, Agree, Reordered, HasCoverage, Lists, HasRun;
    forall t ensures t in e <==> t in f {
      SaidReordered(a, b, to, back, t);
      CoverageTests(a, e, t);
      CoverageTests(b, f, t);
    }
    forall t | t in e ensures e[t] == f[t] {
      SameGiven(a, b, to, back, e, f, t);
    }
  }

  lemma CoverageTests(parts: seq<Part>, e: map<TestId, set<string>>, t: TestId)
    requires CoverageOf(parts, e)
    ensures t in e <==> HasCoverage(parts, t)
  {
  }

  lemma SameGiven(a: seq<Part>, b: seq<Part>, to: seq<nat>, back: seq<nat>,
                  e: map<TestId, set<string>>, f: map<TestId, set<string>>, t: TestId)
    requires Reordered(a, b, to, back) && CoverageOf(a, e) && CoverageOf(b, f) && Agree(a) && t in e && t in f
    ensures e[t] == f[t]
  {
    var i := CoverageGiven(a, e, t);
    var j := CoverageGiven(b, f, t);
    assert b[j] == a[to[j]];
    hide CoverageOf, Gives;
    assert Gives(a[i], t, e[t]) && Gives(a[to[j]], t, f[t]);
  }

  function Exchange(n: nat, i: nat): (to: seq<nat>)
    requires i < n
    ensures |to| == n && forall k :: 0 <= k < n ==> to[k] < n && to[to[k]] == k
    ensures to[n - 1] == i
  {
    seq(n, k requires 0 <= k < n => if k == i then n - 1 else if k == n - 1 then i else k)
  }

  /** The parts with part `i` in the last place. */
  function PutLast(parts: seq<Part>, i: nat): (b: seq<Part>)
    requires i < |parts|
    ensures Reordered(parts, b, Exchange(|parts|, i), Exchange(|parts|, i)) && b[|parts| - 1] == parts[i]
  {
    var to := Exchange(|parts|, i);
    seq(|parts|, k requires 0 <= k < |parts| => parts[to[k]])
  }

  /** One run's parts merged in two orders. */
  method MergeTwice(a: seq<Part>, b: seq<Part>, ghost to: seq<nat>, ghost back: seq<nat>, count: int, commit: string)
    returns (first: seq<Problem>, second: seq<Problem>, same: bool, sameCoverage: bool)
    requires Reordered(a, b, to, back)
    ensures first == [] <==> second == []
    ensures first == [] ==> same
    ensures first == [] && Agree(a) ==> sameCoverage
  {
    hide Reordered, Sound, ResultsOf, CoverageOf, Agree;
    var listedA, resultsA, exportsA, platformA;
    first, listedA, resultsA, exportsA, platformA := MergeParts(a, count, commit);
    var listedB, resultsB, exportsB, platformB;
    second, listedB, resultsB, exportsB, platformB := MergeParts(b, count, commit);
    same := listedA == listedB && resultsA == resultsB && platformA == platformB;
    sameCoverage := exportsA == exportsB;
    SoundAnyOrder(a, b, to, back, count, commit);
    if first == [] {
      ResultsAnyOrder(a, b, to, back, resultsA, resultsB);
      SameFirstPart(a, b, to, back);
      if Agree(a) {
        CoverageAnyOrder(a, b, to, back, exportsA, exportsB);
      }
    }
  }

  lemma SameFirstPart(a: seq<Part>, b: seq<Part>, to: seq<nat>, back: seq<nat>)
    requires Reordered(a, b, to, back)
    ensures |a| == |b| && (a != [] ==> exists i :: 0 <= i < |a| && a[i] == b[0])
  {
    if a != [] {
      assert b[0] == a[to[0]];
    }
  }

  /** The condition is needed: a test two parts give different files has either,
      as one or the other part is last. */
  lemma CoverageByOrder(parts: seq<Part>, i: nat, j: nat, t: TestId, f: set<string>, g: set<string>,
                        e: map<TestId, set<string>>, d: map<TestId, set<string>>)
    requires i < |parts| && j < |parts| && Gives(parts[i], t, f) && Gives(parts[j], t, g) && f != g
    requires CoverageOf(PutLast(parts, i), e) && CoverageOf(PutLast(parts, j), d)
    ensures t in e && t in d && e[t] == f && d[t] == g
  {
    LastPartWins(PutLast(parts, i), t, f, e);
    LastPartWins(PutLast(parts, j), t, g, d);
  }

  /** Two parts of one run, the first with the test's result, each with coverage of it. */
  function CoveredTwice(commit: string, platform: string, t: TestId): seq<Part> {
    [Part(PART_VERSION, commit, platform, 1, 2, [t], [Ran(t, Result(None, "passed"))], [Cover(t, {"a"})]),
     Part(PART_VERSION, commit, platform, 2, 2, [t], [], [Cover(t, {"b"})])]
  }

  /** Such parts have no problem, and yet give the test different files. */
  lemma CoveredTwiceIsTaken(commit: string, platform: string, t: TestId)
    ensures Sound(CoveredTwice(commit, platform, t), 2, commit) && !Agree(CoveredTwice(commit, platform, t))
  {
    var parts := CoveredTwice(commit, platform, t);
    var p, q := parts[0], parts[1];
    assert p.results[0].test == t && p.covered[0].test == t && q.covered[0].test == t;
    assert RanIn(p, t) && forall x :: RanIn(p, x) ==> x == t;
    assert forall x :: CoveredIn(p, x) || CoveredIn(q, x) ==> x == t;
    assert p.listed[0] == t && ListedIn(p) == ListedIn(q) == {t};
    assert HasRun(parts, t) && Lists(parts, t);
    assert forall x :: HasRun(parts, x) || HasCoverage(parts, x) || Lists(parts, x) ==> x == t;
    assert HasIndex(parts, 1) && HasIndex(parts, 2);
    assert PairOk(p, q) && PairOk(q, p);
    assert Gives(p, t, {"a"}) && Gives(q, t, {"b"});
    assert "a" in {"a"} && "a" !in {"b"};
  }

  lemma LastPartWins(parts: seq<Part>, t: TestId, f: set<string>, e: map<TestId, set<string>>)
    requires parts != [] && Gives(parts[|parts| - 1], t, f) && CoverageOf(parts, e)
    ensures t in e && e[t] == f
  {
    var n := |parts| - 1;
    assert CoveredIn(parts[n], t);
    assert HasCoverage(parts, t);
    var i := CoverageGiven(parts, e, t);
    assert i == n;
    GivenOnce(parts[n], t, f, e[t]);
  }

  /** Parts say one map of coverage. */
  lemma CoverageOnce(parts: seq<Part>, e: map<TestId, set<string>>, f: map<TestId, set<string>>)
    requires CoverageOf(parts, e) && CoverageOf(parts, f)
    ensures e == f
  {
    assert forall t :: t in e <==> HasCoverage(parts, t);
    forall t | t in e ensures t in f && e[t] == f[t] {
      var i := CoverageGiven(parts, e, t);
      var j := CoverageGiven(parts, f, t);
      GivenOnce(parts[i], t, e[t], e[t]);
      GivenOnce(parts[j], t, f[t], f[t]);
      assert i == j;
      GivenOnce(parts[i], t, e[t], f[t]);
    }
  }

  // ----- a run split into parts

  /** The material of a table: the tests listed, their results and their coverage. */
  datatype Run = Run(listed: set<TestId>, results: map<TestId, Result>, exports: map<TestId, set<string>>)

  /** The pieces are partitions of `whole`: all have its list, each result and each
      covered test is of some piece, and no test ran in two. */
  ghost predicate Split(whole: Run, pieces: seq<Run>) {
    && (forall i :: 0 <= i < |pieces| ==> PieceOf(whole, pieces[i]))
    && (forall t :: t in whole.results ==> exists i :: 0 <= i < |pieces| && t in pieces[i].results)
    && (forall t :: t in whole.exports ==> exists i :: 0 <= i < |pieces| && t in pieces[i].exports)
    && (forall i, j :: 0 <= i < j < |pieces| ==> pieces[i].results.Keys !! pieces[j].results.Keys)
  }

  ghost predicate PieceOf(whole: Run, piece: Run) {
    piece.listed == whole.listed && Within(piece.results, whole.results) && Within(piece.exports, whole.exports)
  }

  ghost predicate Within<K(!new), V>(a: map<K, V>, b: map<K, V>) {
    forall t :: t in a ==> t in b && b[t] == a[t]
  }

  /** Every listed test ran and no other, and every piece that ran tests has coverage. */
  ghost predicate Full(whole: Run, pieces: seq<Run>) {
    && whole.results.Keys == whole.listed && whole.exports.Keys <= whole.listed
    && forall i :: 0 <= i < |pieces| ==> Covered(pieces[i])
  }

  ghost predicate Covered(piece: Run) {
    piece.results.Keys != {} ==> piece.exports.Keys != {}
  }

  ghost predicate PartsOf(parts: seq<Part>, pieces: seq<Run>, commit: string, platform: string) {
    |parts| == |pieces| && forall i :: 0 <= i < |pieces| ==> PartOf(parts[i], pieces[i], commit, i + 1, |pieces|, platform)
  }

  ghost predicate PartOf(p: Part, piece: Run, commit: string, index: int, count: int, platform: string) {
    IsPart(p, piece.listed, piece.results, piece.exports, commit, index, count, platform)
  }

  /** What a part made of a piece says. */
  lemma PartSays(p: Part, piece: Run, commit: string, index: int, count: int, platform: string)
    requires PartOf(p, piece, commit, index, count, platform)
    ensures ListedIn(p) == piece.listed
    ensures forall t :: RanIn(p, t) <==> t in piece.results
    ensures forall a :: 0 <= a < |p.results| ==> HasResult(piece.results, p.results[a])
    ensures forall a, b :: 0 <= a < b < |p.results| ==> p.results[a].test != p.results[b].test
    ensures p.results == [] <==> piece.results.Keys == {}
  {
    var keys :| ListsKeys(keys, piece.results.Keys)
                && p.results == seq(|keys|, i requires 0 <= i < |keys| => Ran(keys[i], piece.results[keys[i]]));
    assert forall a :: 0 <= a < |keys| ==> p.results[a] == Ran(keys[a], piece.results[keys[a]]);
    forall t | t in piece.results ensures RanIn(p, t) {
      var a :| 0 <= a < |keys| && keys[a] == t;
      assert p.results[a].test == t;
    }
    if p.results == [] {
      assert forall t :: t !in piece.results.Keys;
    }
    assert p.results != [] ==> p.results[0].test in piece.results.Keys;
  }

  lemma PartCovers(p: Part, piece: Run, commit: string, index: int, count: int, platform: string)
    requires PartOf(p, piece, commit, index, count, platform)
    ensures forall t :: CoveredIn(p, t) <==> t in piece.exports
    ensures forall a :: 0 <= a < |p.covered| ==> HasFiles(piece.exports, p.covered[a])
    ensures p.covered == [] <==> piece.exports.Keys == {}
  {
    var keys :| ListsKeys(keys, piece.exports.Keys)
                && p.covered == seq(|keys|, i requires 0 <= i < |keys| => Cover(keys[i], piece.exports[keys[i]]));
    assert forall a :: 0 <= a < |keys| ==> p.covered[a] == Cover(keys[a], piece.exports[keys[a]]);
    forall t | t in piece.exports ensures CoveredIn(p, t) {
      var a :| 0 <= a < |keys| && keys[a] == t;
      assert p.covered[a].test == t;
    }
    if p.covered == [] {
      assert forall t :: t !in piece.exports.Keys;
    }
    assert p.covered != [] ==> p.covered[0].test in piece.exports.Keys;
  }

  lemma SplitTests(whole: Run, pieces: seq<Run>, parts: seq<Part>, commit: string, platform: string, t: TestId)
    requires Split(whole, pieces) && PartsOf(parts, pieces, commit, platform)
    ensures HasRun(parts, t) <==> t in whole.results
    ensures HasCoverage(parts, t) <==> t in whole.exports
    ensures parts != [] ==> (Lists(parts, t) <==> t in whole.listed)
  {
    hide RanIn, CoveredIn, IsPart, ListedIn;
    forall i | 0 <= i < |pieces|
      ensures RanIn(parts[i], t) <==> t in pieces[i].results
      ensures CoveredIn(parts[i], t) <==> t in pieces[i].exports
      ensures ListedIn(parts[i]) == whole.listed && PieceOf(whole, pieces[i])
    {
      assert PartOf(parts[i], pieces[i], commit, i + 1, |pieces|, platform);
      PartSays(parts[i], pieces[i], commit, i + 1, |pieces|, platform);
      PartCovers(parts[i], pieces[i], commit, i + 1, |pieces|, platform);
    }
    if parts != [] && t in whole.listed {
      assert t in ListedIn(parts[0]);
    }
  }

  lemma SplitTogether(whole: Run, pieces: seq<Run>, parts: seq<Part>, commit: string, platform: string)
    requires Split(whole, pieces) && PartsOf(parts, pieces, commit, platform)
    ensures Together(parts, |pieces|, commit) <==> forall i :: 0 <= i < |pieces| ==> Covered(pieces[i])
    ensures |parts| == |pieces| && OnePlatform(parts) && forall n :: 1 <= n <= |pieces| ==> HasIndex(parts, n)
  {
    hide Split, RanIn, CoveredIn, IsPart;
    forall i | 0 <= i < |pieces| ensures PartOk(parts[i], |pieces|, commit) <==> Covered(pieces[i]) {
      assert PartOf(parts[i], pieces[i], commit, i + 1, |pieces|, platform);
      PartSays(parts[i], pieces[i], commit, i + 1, |pieces|, platform);
      PartCovers(parts[i], pieces[i], commit, i + 1, |pieces|, platform);
      PartHead(parts[i], pieces[i], commit, i + 1, |pieces|, platform);
    }
    forall i, j | 0 <= i < |pieces| && 0 <= j < |pieces| && i != j ensures PairOk(parts[i], parts[j]) {
      SplitPair(whole, pieces, parts, commit, platform, i, j);
    }
    forall i | 0 <= i < |pieces| ensures parts[i].platform == platform && parts[i].index == i + 1 {
      assert PartOf(parts[i], pieces[i], commit, i + 1, |pieces|, platform);
      PartHead(parts[i], pieces[i], commit, i + 1, |pieces|, platform);
    }
    forall n | 1 <= n <= |pieces| ensures HasIndex(parts, n) {
      assert parts[n - 1].index == n;
    }
  }

  lemma PartHead(p: Part, piece: Run, commit: string, index: int, count: int, platform: string)
    requires PartOf(p, piece, commit, index, count, platform)
    ensures p.version == PART_VERSION && p.commit == commit && p.platform == platform && p.index == index && p.count == count
  {
  }

  lemma SplitPair(whole: Run, pieces: seq<Run>, parts: seq<Part>, commit: string, platform: string, i: nat, j: nat)
    requires Split(whole, pieces) && PartsOf(parts, pieces, commit, platform)
    requires i < |pieces| && j < |pieces| && i != j
    ensures PairOk(parts[i], parts[j])
  {
    assert PartOf(parts[i], pieces[i], commit, i + 1, |pieces|, platform);
    assert PartOf(parts[j], pieces[j], commit, j + 1, |pieces|, platform);
    PartSays(parts[i], pieces[i], commit, i + 1, |pieces|, platform);
    PartSays(parts[j], pieces[j], commit, j + 1, |pieces|, platform);
    assert PieceOf(whole, pieces[i]) && PieceOf(whole, pieces[j]);
    assert pieces[i].results.Keys !! pieces[j].results.Keys;
  }

  /** The merge takes the parts of a split run exactly when every listed test ran, no
      other did or has coverage, and each piece that ran tests has coverage. */
  lemma SplitIsSound(whole: Run, pieces: seq<Run>, parts: seq<Part>, commit: string, platform: string)
    requires pieces != [] && Split(whole, pieces) && PartsOf(parts, pieces, commit, platform)
    ensures Sound(parts, |pieces|, commit) <==> Full(whole, pieces)
  {
    hide Split, PartsOf, Together, OnePlatform, HasIndex, HasRun, HasCoverage, Lists, Covered;
    SplitTogether(whole, pieces, parts, commit, platform);
    forall t
      ensures (HasRun(parts, t) <==> t in whole.results) && (HasCoverage(parts, t) <==> t in whole.exports)
      ensures Lists(parts, t) <==> t in whole.listed
    {
      SplitTests(whole, pieces, parts, commit, platform, t);
    }
    if Complete(parts, |pieces|) {
      assert forall t :: t in whole.results.Keys <==> t in whole.listed;
    }
  }

  /** And it gives back the run's own results and coverage. */
  lemma SplitGivesBack(whole: Run, pieces: seq<Run>, parts: seq<Part>, commit: string, platform: string)
    requires Split(whole, pieces) && PartsOf(parts, pieces, commit, platform)
    ensures ResultsOf(parts, whole.results) && CoverageOf(parts, whole.exports)
    ensures forall i :: 0 <= i < |parts| ==> ListedIn(parts[i]) == whole.listed && parts[i].platform == platform
  {
    forall t ensures (HasRun(parts, t) <==> t in whole.results) && (HasCoverage(parts, t) <==> t in whole.exports) {
      SplitTests(whole, pieces, parts, commit, platform, t);
    }
    forall i | 0 <= i < |pieces|
      ensures forall a :: 0 <= a < |parts[i].results| ==> HasResult(whole.results, parts[i].results[a])
      ensures forall a :: 0 <= a < |parts[i].covered| ==> HasFiles(whole.exports, parts[i].covered[a])
      ensures ListedIn(parts[i]) == whole.listed && parts[i].platform == platform
    {
      PieceSays(whole, pieces[i], parts[i], commit, i + 1, |pieces|, platform);
    }
  }

  lemma PieceSays(whole: Run, piece: Run, p: Part, commit: string, index: int, count: int, platform: string)
    requires PieceOf(whole, piece) && PartOf(p, piece, commit, index, count, platform)
    ensures forall a :: 0 <= a < |p.results| ==> HasResult(whole.results, p.results[a])
    ensures forall a :: 0 <= a < |p.covered| ==> HasFiles(whole.exports, p.covered[a])
    ensures ListedIn(p) == whole.listed && p.platform == platform
  {
    PartSays(p, piece, commit, index, count, platform);
    PartCovers(p, piece, commit, index, count, platform);
    forall a | 0 <= a < |p.results| ensures HasResult(whole.results, p.results[a]) {
      assert HasResult(piece.results, p.results[a]);
    }
    forall a | 0 <= a < |p.covered| ensures HasFiles(whole.exports, p.covered[a]) {
      assert HasFiles(piece.exports, p.covered[a]);
    }
  }
}
