/** The parts of a partitioned coverage run, merged back into one
    (`make_part` and `merge_parts` of scripts/it-coverage-map.py). */
module CoverageParts {
  import opened Wrappers
  import opened Sorting

  datatype TestId = TestId(binary: string, name: string)

  datatype Result = Result(secs: Option<int>, status: string)

  const PART_VERSION := 1

  datatype Ran = Ran(test: TestId, result: Result)

  datatype Cover = Cover(test: TestId, files: set<string>)

  /** A part as it is read back: lists, as the JSON has them. */
  datatype Part = Part(version: int, commit: string, platform: string, index: int, count: int,
                       listed: seq<TestId>, results: seq<Ran>, covered: seq<Cover>)

  // ----- making a part

  /** `results` lists the map, each test once. */
  ghost predicate ListsResults(list: seq<Ran>, results: map<TestId, Result>) {
    exists keys :: ListsKeys(keys, results.Keys)
                   && list == seq(|keys|, i requires 0 <= i < |keys| => Ran(keys[i], results[keys[i]]))
  }

  ghost predicate ListsCoverage(list: seq<Cover>, exports: map<TestId, set<string>>) {
    exists keys :: ListsKeys(keys, exports.Keys)
                   && list == seq(|keys|, i requires 0 <= i < |keys| => Cover(keys[i], exports[keys[i]]))
  }

  ghost predicate ListsKeys(keys: seq<TestId>, s: set<TestId>) {
    Distinct(keys) && (forall i :: 0 <= i < |keys| ==> keys[i] in s) && (forall x :: x in s ==> x in keys)
  }

  /** The part made of one partition's run. */
  ghost predicate IsPart(p: Part, listed: set<TestId>, results: map<TestId, Result>, exports: map<TestId, set<string>>,
                         commit: string, index: int, count: int, platform: string) {
    && p.version == 1 && p.commit == commit && p.platform == platform && p.index == index && p.count == count
    && ListsKeys(p.listed, listed) && ListsResults(p.results, results) && ListsCoverage(p.covered, exports)
  }

  method ListKeys(s: set<TestId>) returns (keys: seq<TestId>)
    ensures ListsKeys(keys, s)
  {
    keys := [];
    var rest := s;
    while rest != {}
      invariant rest <= s && ListsKeys(keys, s - rest)
      decreases rest
    {
      var t := Pick(rest);
      ghost var before := keys;
      keys, rest := keys + [t], rest - {t};
      forall x | x in s - rest ensures x in keys {
        assert x in before || keys[|before|] == x;
      }
    }
    assert s - rest == s;
  }

  /** The results and the covered files of a part, listed by test. */
  method MakePart(listed: set<TestId>, results: map<TestId, Result>, exports: map<TestId, set<string>>,
                  commit: string, index: int, count: int, platform: string) returns (p: Part)
    ensures IsPart(p, listed, results, exports, commit, index, count, platform)
  {
    var tests := ListKeys(listed);
    var ran := ListKeys(results.Keys);
    var covered := ListKeys(exports.Keys);
    p := Part(PART_VERSION, commit, platform, index, count, tests,
              seq(|ran|, i requires 0 <= i < |ran| => Ran(ran[i], results[ran[i]])),
              seq(|covered|, i requires 0 <= i < |covered| => Cover(covered[i], exports[covered[i]])));
  }

  // ----- what the parts say together

  ghost predicate RanIn(p: Part, t: TestId) {
    exists a :: 0 <= a < |p.results| && p.results[a].test == t
  }

  ghost predicate CoveredIn(p: Part, t: TestId) {
    exists a :: 0 <= a < |p.covered| && p.covered[a].test == t
  }

  ghost predicate HasRun(parts: seq<Part>, t: TestId) {
    exists i :: 0 <= i < |parts| && RanIn(parts[i], t)
  }

  ghost predicate HasCoverage(parts: seq<Part>, t: TestId) {
    exists i :: 0 <= i < |parts| && CoveredIn(parts[i], t)
  }

  function ListedIn(p: Part): set<TestId> {
    set t | t in p.listed
  }

  /** A part says nothing wrong by itself. */
  ghost predicate PartOk(p: Part, count: int, commit: string) {
    && p.version == 1 && p.count == count && p.commit == commit
    && (p.results != [] ==> p.covered != [])
    && (forall a, b :: 0 <= a < b < |p.results| ==> p.results[a].test != p.results[b].test)
  }

  /** Two parts of one run: different partitions, one list, no test run in both. */
  ghost predicate PairOk(p: Part, q: Part) {
    p.index != q.index && ListedIn(p) == ListedIn(q) && forall t :: !(RanIn(p, t) && RanIn(q, t))
  }

  ghost predicate Together(parts: seq<Part>, count: int, commit: string) {
    && (forall i :: 0 <= i < |parts| ==> PartOk(parts[i], count, commit))
    && (forall i, j :: 0 <= i < |parts| && 0 <= j < |parts| && i != j ==> PairOk(parts[i], parts[j]))
  }

  ghost predicate OnePlatform(parts: seq<Part>) {
    forall i, j :: 0 <= i < |parts| && 0 <= j < |parts| ==> parts[i].platform == parts[j].platform
  }

  ghost predicate HasIndex(parts: seq<Part>, n: int) {
    exists i :: 0 <= i < |parts| && parts[i].index == n
  }

  ghost predicate Lists(parts: seq<Part>, t: TestId) {
    exists i :: 0 <= i < |parts| && t in ListedIn(parts[i])
  }

  /** No part is missing, every listed test has run, and none is unlisted. */
  ghost predicate Complete(parts: seq<Part>, count: int) {
    && (forall n :: 1 <= n <= count ==> HasIndex(parts, n))
    && (forall t :: Lists(parts, t) ==> HasRun(parts, t))
    && (forall t :: HasRun(parts, t) || HasCoverage(parts, t) ==> Lists(parts, t))
  }

  /** The merge has no problem with the parts. */
  ghost predicate Sound(parts: seq<Part>, count: int, commit: string) {
    Together(parts, count, commit) && OnePlatform(parts) && Complete(parts, count)
  }

  // ----- what the merge takes from them

  ghost predicate ResultsOf(parts: seq<Part>, results: map<TestId, Result>) {
    && (forall t :: t in results <==> HasRun(parts, t))
    && (forall i, a :: 0 <= i < |parts| && 0 <= a < |parts[i].results| ==> HasResult(results, parts[i].results[a]))
  }

  predicate HasResult(results: map<TestId, Result>, r: Ran) {
    r.test in results && results[r.test] == r.result
  }

  predicate HasFiles(exports: map<TestId, set<string>>, c: Cover) {
    c.test in exports && exports[c.test] == c.files
  }

  /** Entry `b` of part `j` comes after entry `a` of part `i`. */
  predicate Later(i: nat, a: nat, j: nat, b: nat) {
    i < j || (i == j && a < b)
  }

  predicate IsEntry(parts: seq<Part>, i: nat, a: nat, t: TestId) {
    i < |parts| && a < |parts[i].covered| && parts[i].covered[a].test == t
  }

  /** No entry after entry `a` of part `i` is of the same test. */
  ghost predicate LastEntry(parts: seq<Part>, i: nat, a: nat)
    requires i < |parts| && a < |parts[i].covered|
  {
    forall j: nat, b: nat :: Later(i, a, j, b) ==> !IsEntry(parts, j, b, parts[i].covered[a].test)
  }

  /** The coverage of a test is what the last entry of it says. */
  ghost predicate CoverageOf(parts: seq<Part>, exports: map<TestId, set<string>>) {
    && (forall t :: t in exports <==> HasCoverage(parts, t))
    && (forall i: nat, a: nat :: i < |parts| && a < |parts[i].covered| && LastEntry(parts, i, a)
          ==> HasFiles(exports, parts[i].covered[a]))
  }

  datatype Problem =
    | WrongVersion(index: int)
    | WrongCount(index: int)
    | Repeated(index: int)
    | WrongCommit(index: int)
    | NoCoverage(index: int)
    | OtherList(index: int)
    | InAnotherPart(index: int, test: TestId)
    | MissingParts(indexes: set<int>)
    | MixedPlatforms
    | NotRun(tests: set<TestId>)
    | Unlisted(tests: set<TestId>)

  // ----- one part's entries

  /** The test of entry `a` is in the results so far or of an entry before it. */
  ghost predicate RunAgain(list: seq<Ran>, before: map<TestId, Result>, a: nat)
    requires a < |list|
  {
    list[a].test in before || exists b :: 0 <= b < a && list[b].test == list[a].test
  }

  /** What is reported of a part's results: each test run again, and nothing else. */
  ghost predicate Again(x: Problem, index: int, list: seq<Ran>, before: map<TestId, Result>) {
    exists a :: 0 <= a < |list| && RunAgain(list, before, a) && x == InAnotherPart(index, list[a].test)
  }

  lemma AgainMore(x: Problem, index: int, list: seq<Ran>, r: Ran, before: map<TestId, Result>)
    ensures Again(x, index, list + [r], before) <==>
            Again(x, index, list, before) || (x == InAnotherPart(index, r.test) && (r.test in before || r.test in TestsOf(list)))
  {
    var more, n := list + [r], |list|;
    assert more[n] == r && forall a :: 0 <= a < n ==> more[a] == list[a];
    assert forall a :: 0 <= a < n ==> (RunAgain(more, before, a) <==> RunAgain(list, before, a));
    assert RunAgain(more, before, n) <==> r.test in before || r.test in TestsOf(list);
    hide RunAgain, TestsOf;
    if Again(x, index, list, before) {
      var a :| 0 <= a < n && RunAgain(list, before, a) && x == InAnotherPart(index, list[a].test);
      assert RunAgain(more, before, a);
    }
    if x == InAnotherPart(index, r.test) && RunAgain(more, before, n) {
      assert Again(x, index, more, before);
    }
  }

  /** The results of a part added to those so far, a test at a time. */
  method AddResults(p: Part, before: map<TestId, Result>) returns (results: map<TestId, Result>, problems: seq<Problem>)
    ensures forall t :: t in results <==> t in before || RanIn(p, t)
    ensures problems == [] <==> (forall a, b :: 0 <= a < b < |p.results| ==> p.results[a].test != p.results[b].test)
                                && forall t :: !(RanIn(p, t) && t in before)
    ensures problems == [] ==> forall r :: r in p.results ==> HasResult(results, r)
    ensures problems == [] ==> forall t :: t in before ==> results[t] == before[t]
    ensures forall x :: x in problems <==> Again(x, p.index, p.results, before)
  {
    results, problems := before, [];
    hide Added, Fresh, HasResult, RanIn, TestsOf, Again;
    NothingAdded(before);
    NothingAgain(p.index, before);
    for a := 0 to |p.results|
      invariant Added(p.results[..a], before, results)
      invariant problems == [] <==> Fresh(p.results[..a], before)
      invariant forall x :: x in problems <==> Again(x, p.index, p.results[..a], before)
    {
      AddedKeys(p.results[..a], before, results);
      var r := p.results[a];
      FreshMore(p.results[..a], r, before);
      AddedMore(p.results[..a], r, before, results);
      forall x {
        AgainMore(x, p.index, p.results[..a], r, before);
      }
      assert p.results[..a + 1] == p.results[..a] + [r];
      if r.test in results {
        problems := problems + [InAnotherPart(p.index, r.test)];
      }
      results := results[r.test := r.result];
    }
    assert p.results[..|p.results|] == p.results;
    AddedSays(p, before, results);
  }

  lemma NothingAgain(index: int, before: map<TestId, Result>)
    ensures forall x :: !Again(x, index, [], before)
  {
  }

  lemma NothingAdded(before: map<TestId, Result>)
    ensures Added([], before, before) && Fresh([], before)
  {
  }

  lemma AddedKeys(list: seq<Ran>, before: map<TestId, Result>, results: map<TestId, Result>)
    requires Added(list, before, results)
    ensures results.Keys == before.Keys + TestsOf(list)
  {
  }

  lemma AddedSays(p: Part, before: map<TestId, Result>, results: map<TestId, Result>)
    requires Added(p.results, before, results)
    ensures forall t :: t in results <==> t in before || RanIn(p, t)
    ensures Fresh(p.results, before) <==> (forall a, b :: 0 <= a < b < |p.results| ==> p.results[a].test != p.results[b].test)
                                          && forall t :: !(RanIn(p, t) && t in before)
    ensures Fresh(p.results, before) ==> forall r :: r in p.results ==> HasResult(results, r)
    ensures Fresh(p.results, before) ==> forall t :: t in before ==> results[t] == before[t]
  {
    forall t ensures t in TestsOf(p.results) <==> RanIn(p, t) {
    }
  }

  function TestsOf(list: seq<Ran>): set<TestId> {
    set r | r in list :: r.test
  }

  /** The tests of the list are different from one another and not in `before`. */
  ghost predicate Fresh(list: seq<Ran>, before: map<TestId, Result>) {
    && (forall a, b :: 0 <= a < b < |list| ==> list[a].test != list[b].test)
    && (forall t :: t in TestsOf(list) ==> t !in before)
  }

  /** What is left of `before` with the list's results added. */
  ghost predicate Added(list: seq<Ran>, before: map<TestId, Result>, results: map<TestId, Result>) {
    && results.Keys == before.Keys + TestsOf(list)
    && (Fresh(list, before) ==> (forall r :: r in list ==> HasResult(results, r))
                                && forall t :: t in before ==> results[t] == before[t])
  }

  lemma AddedMore(list: seq<Ran>, r: Ran, before: map<TestId, Result>, results: map<TestId, Result>)
    requires Added(list, before, results)
    ensures Added(list + [r], before, results[r.test := r.result])
  {
    FreshMore(list, r, before);
    if Fresh(list + [r], before) {
      hide Fresh;
      assert forall x :: x in list ==> x.test in TestsOf(list);
    }
  }

  lemma FreshMore(list: seq<Ran>, r: Ran, before: map<TestId, Result>)
    ensures TestsOf(list + [r]) == TestsOf(list) + {r.test}
    ensures Fresh(list + [r], before) <==> Fresh(list, before) && r.test !in before && r.test !in TestsOf(list)
  {
    var more := list + [r];
    assert more[|list|] == r && forall a :: 0 <= a < |list| ==> more[a] == list[a];
    forall t | t in TestsOf(list) ensures t in TestsOf(more) {
      var x :| x in list && x.test == t;
      assert x in more;
    }
    assert r in more;
    if Fresh(more, before) {
      forall x | x in list ensures x.test != r.test {
        var a :| 0 <= a < |list| && list[a] == x;
        assert more[a].test != more[|list|].test;
      }
    }
  }

  /** A part's entries for `t` up to `n` end with one of these files. */
  ghost predicate EndsWith(p: Part, n: nat, t: TestId, files: set<string>) {
    exists a :: 0 <= a < n <= |p.covered| && p.covered[a].test == t && p.covered[a].files == files
                && forall b :: a < b < n ==> p.covered[b].test != t
  }

  ghost predicate CoveredUpTo(p: Part, n: nat, t: TestId) {
    exists a :: 0 <= a < n <= |p.covered| && p.covered[a].test == t
  }

  /** The coverage of a part put over what is there. */
  method AddCoverage(p: Part, before: map<TestId, set<string>>) returns (exports: map<TestId, set<string>>)
    ensures forall t :: t in exports <==> t in before || CoveredIn(p, t)
    ensures forall t :: t in before && !CoveredIn(p, t) ==> exports[t] == before[t]
    ensures forall t :: CoveredIn(p, t) ==> EndsWith(p, |p.covered|, t, exports[t])
  {
    exports := before;
    for n := 0 to |p.covered|
      invariant forall t :: t in exports <==> t in before || CoveredUpTo(p, n, t)
      invariant forall t :: t in before && !CoveredUpTo(p, n, t) ==> exports[t] == before[t]
      invariant forall t :: CoveredUpTo(p, n, t) ==> EndsWith(p, n, t, exports[t])
    {
      var c := p.covered[n];
      ghost var was := exports;
      exports := exports[c.test := c.files];
      forall t ensures CoveredUpTo(p, n + 1, t) <==> CoveredUpTo(p, n, t) || t == c.test {
        if t == c.test {
          assert p.covered[n].test == t;
        }
      }
      forall t | CoveredUpTo(p, n + 1, t) ensures EndsWith(p, n + 1, t, exports[t]) {
        if t == c.test {
          assert p.covered[n].files == exports[t];
        } else {
          assert EndsWith(p, n, t, was[t]);
        }
      }
    }
  }

  lemma CoverageStep(parts: seq<Part>, p: Part, before: map<TestId, set<string>>, exports: map<TestId, set<string>>)
    requires CoverageOf(parts, before)
    requires forall t :: t in exports <==> t in before || CoveredIn(p, t)
    requires forall t :: t in before && !CoveredIn(p, t) ==> exports[t] == before[t]
    requires forall t :: CoveredIn(p, t) ==> EndsWith(p, |p.covered|, t, exports[t])
    ensures CoverageOf(parts + [p], exports)
  {
    var more, n := parts + [p], |parts|;
    assert more[n] == p && forall i :: 0 <= i < n ==> more[i] == parts[i];
    forall t ensures HasCoverage(more, t) <==> HasCoverage(parts, t) || CoveredIn(p, t) {
      HasCoverageMore(parts, p, t);
    }
    forall i: nat, a: nat | i < |more| && a < |more[i].covered| && LastEntry(more, i, a)
      ensures HasFiles(exports, more[i].covered[a])
    {
      var c := more[i].covered[a];
      if i < n {
        EarlierEntry(parts, p, i, a);
        assert c.test in before && exports[c.test] == before[c.test];
      } else {
        assert CoveredIn(p, c.test);
        LastOfPart(parts, p, a, exports[c.test]);
      }
    }
  }

  lemma HasCoverageMore(parts: seq<Part>, p: Part, t: TestId)
    ensures HasCoverage(parts + [p], t) <==> HasCoverage(parts, t) || CoveredIn(p, t)
  {
    var more := parts + [p];
    assert more[|parts|] == p && forall i :: 0 <= i < |parts| ==> more[i] == parts[i];
  }

  /** The last entry of a test, in an earlier part, is the last of the earlier parts,
      and the new part has none. */
  lemma EarlierEntry(parts: seq<Part>, p: Part, i: nat, a: nat)
    requires i < |parts| && a < |parts[i].covered| && LastEntry(parts + [p], i, a)
    ensures LastEntry(parts, i, a) && !CoveredIn(p, parts[i].covered[a].test)
    ensures HasCoverage(parts, parts[i].covered[a].test)
  {
    var more, t := parts + [p], parts[i].covered[a].test;
    assert more[|parts|] == p && forall k :: 0 <= k < |parts| ==> more[k] == parts[k];
    forall j: nat, b: nat | Later(i, a, j, b) ensures !IsEntry(parts, j, b, t) {
      assert !IsEntry(more, j, b, t);
    }
    forall b: nat | b < |p.covered| ensures p.covered[b].test != t {
      assert Later(i, a, |parts|, b);
      assert !IsEntry(more, |parts|, b, t);
    }
    assert CoveredIn(parts[i], t);
  }

  lemma LastOfPart(parts: seq<Part>, p: Part, a: nat, files: set<string>)
    requires a < |p.covered| && (parts + [p])[|parts|] == p && LastEntry(parts + [p], |parts|, a)
    requires EndsWith(p, |p.covered|, p.covered[a].test, files)
    ensures p.covered[a].files == files
  {
    var more, n, t := parts + [p], |parts|, p.covered[a].test;
    var last :| 0 <= last < |p.covered| && p.covered[last].test == t && p.covered[last].files == files
                && forall b :: last < b < |p.covered| ==> p.covered[b].test != t;
    if a < last {
      assert Later(n, a, n, last) && IsEntry(more, n, last, t);
    }
  }

  // ----- the merge

  lemma HasRunMore(parts: seq<Part>, p: Part, t: TestId)
    ensures HasRun(parts + [p], t) <==> HasRun(parts, t) || RanIn(p, t)
  {
    var more := parts + [p];
    assert more[|parts|] == p && forall i :: 0 <= i < |parts| ==> more[i] == parts[i];
  }

  /** What a new part has to be to go with the earlier ones. */
  ghost predicate Fits(parts: seq<Part>, p: Part, count: int, commit: string) {
    PartOk(p, count, commit) && forall i :: 0 <= i < |parts| ==> PairOk(parts[i], p)
  }

  lemma TogetherMore(parts: seq<Part>, p: Part, count: int, commit: string)
    ensures Together(parts + [p], count, commit) <==> Together(parts, count, commit) && Fits(parts, p, count, commit)
  {
    var more, n := parts + [p], |parts|;
    assert more[n] == p && forall i :: 0 <= i < n ==> more[i] == parts[i];
    if Together(more, count, commit) {
      forall i | 0 <= i < n ensures PartOk(parts[i], count, commit) && PairOk(parts[i], p) {
        assert PartOk(more[i], count, commit) && PairOk(more[i], more[n]);
      }
      forall i, j | 0 <= i < n && 0 <= j < n && i != j ensures PairOk(parts[i], parts[j]) {
        assert PairOk(more[i], more[j]);
      }
      assert PartOk(more[n], count, commit);
    }
    if Together(parts, count, commit) && Fits(parts, p, count, commit) {
      forall i, j | 0 <= i < |more| && 0 <= j < |more| && i != j ensures PairOk(more[i], more[j]) {
        if i < n && j < n {
          assert PairOk(parts[i], parts[j]);
        } else if i < n {
          assert PairOk(parts[i], p);
        } else {
          assert PairOk(parts[j], p);
        }
      }
    }
  }

  /** What the merge keeps of the parts so far, while they go together. */
  ghost predicate Kept(parts: seq<Part>, seen: set<int>, listed: Option<set<TestId>>, results: map<TestId, Result>) {
    && (forall n :: n in seen <==> HasIndex(parts, n))
    && (listed.None? <==> parts == [])
    && (forall i :: 0 <= i < |parts| ==> listed == Some(ListedIn(parts[i])))
    && ResultsOf(parts, results)
  }

  lemma FitsAsSeen(parts: seq<Part>, p: Part, count: int, commit: string, seen: set<int>,
                   listed: Option<set<TestId>>, results: map<TestId, Result>)
    requires Kept(parts, seen, listed, results)
    ensures Fits(parts, p, count, commit) <==>
            && PartOk(p, count, commit) && p.index !in seen && (listed.Some? ==> listed.value == ListedIn(p))
            && (forall t :: !(RanIn(p, t) && t in results))
  {
    if p.index in seen {
      var i :| 0 <= i < |parts| && parts[i].index == p.index;
      assert !PairOk(parts[i], p);
    }
    if listed.Some? && listed.value != ListedIn(p) {
      assert !PairOk(parts[0], p);
    }
    if t :| RanIn(p, t) && t in results {
      var i :| 0 <= i < |parts| && RanIn(parts[i], t);
      assert !PairOk(parts[i], p);
    }
    if && PartOk(p, count, commit) && p.index !in seen && (listed.Some? ==> listed.value == ListedIn(p))
       && (forall t :: !(RanIn(p, t) && t in results)) {
      forall i | 0 <= i < |parts| ensures PairOk(parts[i], p) {
        assert HasIndex(parts, parts[i].index);
        forall t ensures !(RanIn(parts[i], t) && RanIn(p, t)) {
          assert RanIn(parts[i], t) ==> HasRun(parts, t);
        }
      }
    }
  }

  lemma KeptMore(parts: seq<Part>, p: Part, seen: set<int>, listed: Option<set<TestId>>,
                 before: map<TestId, Result>, results: map<TestId, Result>)
    requires Kept(parts, seen, listed, before)
    requires listed.Some? ==> listed.value == ListedIn(p)
    requires forall t :: t in results <==> t in before || RanIn(p, t)
    requires forall r :: r in p.results ==> HasResult(results, r)
    requires forall t :: t in before ==> results[t] == before[t]
    ensures Kept(parts + [p], seen + {p.index}, Some(ListedIn(p)), results)
  {
    var more, n := parts + [p], |parts|;
    assert more[n] == p && forall i :: 0 <= i < n ==> more[i] == parts[i];
    forall k ensures HasIndex(more, k) <==> HasIndex(parts, k) || k == p.index {
      if k == p.index {
        assert more[n].index == k;
      }
      if HasIndex(parts, k) {
        var i :| 0 <= i < n && parts[i].index == k;
        assert more[i].index == k;
      }
    }
    forall t ensures HasRun(more, t) <==> t in results {
      HasRunMore(parts, p, t);
    }
    forall i, a | 0 <= i < |more| && 0 <= a < |more[i].results| ensures HasResult(results, more[i].results[a]) {
      if i < n {
        assert HasResult(before, parts[i].results[a]);
      } else {
        assert p.results[a] in p.results;
      }
    }
  }

  /** What is wrong with a part by itself and against what was seen. */
  ghost predicate WrongIn(x: Problem, p: Part, count: int, commit: string, seen: set<int>, listed: Option<set<TestId>>) {
    || (x == WrongCount(p.index) && p.count != count)
    || (x == Repeated(p.index) && p.index in seen)
    || (x == WrongCommit(p.index) && p.commit != commit)
    || (x == NoCoverage(p.index) && p.results != [] && p.covered == [])
    || (x == OtherList(p.index) && listed.Some? && listed.value != ListedIn(p))
  }

  /** The checks of one part by itself and against what was seen. */
  method CheckPart(p: Part, count: int, commit: string, seen: set<int>, listed: Option<set<TestId>>)
    returns (problems: seq<Problem>)
    requires p.version == PART_VERSION
    ensures problems == [] <==>
            && p.count == count && p.index !in seen && p.commit == commit && (p.results != [] ==> p.covered != [])
            && (listed.Some? ==> listed.value == ListedIn(p))
    ensures forall x :: x in problems <==> WrongIn(x, p, count, commit, seen, listed)
  {
    problems := [];
    if p.count != count {
      problems := problems + [WrongCount(p.index)];
    }
    if p.index in seen {
      problems := problems + [Repeated(p.index)];
    }
    if p.commit != commit {
      problems := problems + [WrongCommit(p.index)];
    }
    if p.results != [] && p.covered == [] {
      problems := problems + [NoCoverage(p.index)];
    }
    if listed.Some? && listed.value != ListedIn(p) {
      problems := problems + [OtherList(p.index)];
    }
  }

  datatype Merged = Merged(seen: set<int>, listed: Option<set<TestId>>, platforms: set<string>,
                           results: map<TestId, Result>, exports: map<TestId, set<string>>)

  ghost predicate MergedOf(parts: seq<Part>, m: Merged) {
    && Kept(parts, m.seen, m.listed, m.results) && CoverageOf(parts, m.exports)
    && m.platforms == Platforms(parts)
  }

  /** One turn of the loop over the parts. */
  method MergePart(p: Part, count: int, commit: string, m: Merged, ghost parts: seq<Part>)
    returns (next: Merged, problems: seq<Problem>)
    ensures MergedOf(parts, m) ==> (problems == [] <==> Fits(parts, p, count, commit))
    ensures MergedOf(parts, m) && problems == [] ==> MergedOf(parts + [p], next)
    ensures p.version != 1 ==> next == m && problems == [WrongVersion(p.index)]
    ensures p.version == 1 ==> forall x :: x in problems <==>
              WrongIn(x, p, count, commit, m.seen, m.listed) || Again(x, p.index, p.results, m.results)
    ensures p.version == 1 ==>
              && next.seen == m.seen + {p.index} && next.platforms == m.platforms + {p.platform}
              && next.listed == (if m.listed.Some? then m.listed else Some(ListedIn(p)))
              && (forall t :: t in next.results <==> t in m.results || RanIn(p, t))
              && (forall t :: t in next.exports <==> t in m.exports || CoveredIn(p, t))
  {
    hide WrongIn, Again;
    if p.version != PART_VERSION {
      return m, [WrongVersion(p.index)];
    }
    problems := CheckPart(p, count, commit, m.seen, m.listed);
    var results, repeats := AddResults(p, m.results);
    var exports := AddCoverage(p, m.exports);
    next := Merged(m.seen + {p.index}, if m.listed.None? then Some(ListedIn(p)) else m.listed,
                   m.platforms + {p.platform}, results, exports);
    problems := problems + repeats;
    if MergedOf(parts, m) {
      FitsAsSeen(parts, p, count, commit, m.seen, m.listed, m.results);
      if problems == [] {
        KeptMore(parts, p, m.seen, m.listed, m.results, results);
        CoverageStep(parts, p, m.exports, exports);
        PlatformsMore(parts, p);
      }
    }
  }

  ghost function Platforms(parts: seq<Part>): set<string> {
    set i | 0 <= i < |parts| :: parts[i].platform
  }

  lemma PlatformsMore(parts: seq<Part>, p: Part)
    ensures Platforms(parts + [p]) == Platforms(parts) + {p.platform}
  {
    var more := parts + [p];
    assert more[|parts|] == p && forall i :: 0 <= i < |parts| ==> more[i] == parts[i];
    assert more[|parts|].platform in Platforms(more);
    forall x | x in Platforms(parts) ensures x in Platforms(more) {
      var i :| 0 <= i < |parts| && parts[i].platform == x;
      assert more[i].platform == x;
    }
  }

  /** `range(1, count + 1)` as a set. */
  function Indexes(count: int): (s: set<int>)
    ensures forall n :: n in s <==> 1 <= n <= count
    decreases if count < 0 then 0 else count
  {
    if count <= 0 then {} else Indexes(count - 1) + {count}
  }

  /** What is wrong over all: parts missing, more than one platform, listed tests that did
      not run when no part is missing, tests that ran or are covered and not listed. */
  ghost predicate WrongOverAll(x: Problem, m: Merged, listed: set<TestId>, count: int) {
    || (x.MissingParts? && x.indexes != {} && forall n :: n in x.indexes <==> 1 <= n <= count && n !in m.seen)
    || (x == MixedPlatforms && |m.platforms| > 1)
    || (x.NotRun? && x.tests != {} && (forall n :: 1 <= n <= count ==> n in m.seen)
        && forall t :: t in x.tests <==> t in listed && t !in m.results)
    || (x.Unlisted? && x.tests != {}
        && forall t :: t in x.tests <==> (t in m.results || t in m.exports) && t !in listed)
  }

  lemma WrongExact(m: Merged, listed: set<TestId>, count: int)
    ensures var missing, notRun, unlisted := Indexes(count) - m.seen, listed - m.results.Keys, (m.results.Keys + m.exports.Keys) - listed;
            forall x :: WrongOverAll(x, m, listed, count) <==>
              || (x == MissingParts(missing) && missing != {})
              || (x == MixedPlatforms && |m.platforms| > 1)
              || (x == NotRun(notRun) && notRun != {} && missing == {})
              || (x == Unlisted(unlisted) && unlisted != {})
  {
    var missing, notRun, unlisted := Indexes(count) - m.seen, listed - m.results.Keys, (m.results.Keys + m.exports.Keys) - listed;
    assert missing == {} <==> forall n :: 1 <= n <= count ==> n in m.seen by {
      assert forall n :: n in missing <==> 1 <= n <= count && n !in m.seen;
      if forall n :: 1 <= n <= count ==> n in m.seen {
        assert forall n :: n !in missing;
      }
    }
    forall x ensures WrongOverAll(x, m, listed, count) <==>
              || (x == MissingParts(missing) && missing != {})
              || (x == MixedPlatforms && |m.platforms| > 1)
              || (x == NotRun(notRun) && notRun != {} && missing == {})
              || (x == Unlisted(unlisted) && unlisted != {}) {
      match x
      case MissingParts(s) => assert s == missing <==> forall n :: n in s <==> n in missing;
      case NotRun(s) => assert s == notRun <==> forall t :: t in s <==> t in notRun;
      case Unlisted(s) => assert s == unlisted <==> forall t :: t in s <==> t in unlisted;
      case _ =>
    }
  }

  /** The checks over all the parts. */
  method CheckAll(m: Merged, listed: set<TestId>, count: int, ghost parts: seq<Part>) returns (problems: seq<Problem>)
    requires listed == if m.listed.Some? then m.listed.value else {}
    ensures MergedOf(parts, m) ==> (problems == [] <==> OnePlatform(parts) && Complete(parts, count))
    ensures forall x :: x in problems <==> WrongOverAll(x, m, listed, count)
  {
    hide MergedOf, OnePlatform, Complete, WrongOverAll, Indexes;
    problems := [];
    var missing := Indexes(count) - m.seen;
    if missing != {} {
      problems := problems + [MissingParts(missing)];
    }
    if |m.platforms| > 1 {
      problems := problems + [MixedPlatforms];
    }
    if missing == {} {
      var notRun := listed - m.results.Keys;
      if notRun != {} {
        problems := problems + [NotRun(notRun)];
      }
    }
    var unlisted := (m.results.Keys + m.exports.Keys) - listed;
    if unlisted != {} {
      problems := problems + [Unlisted(unlisted)];
    }
    WrongExact(m, listed, count);
    if MergedOf(parts, m) {
      NothingWrong(m, parts, listed, count);
    }
  }

  lemma NothingWrong(m: Merged, parts: seq<Part>, listed: set<TestId>, count: int)
    requires MergedOf(parts, m) && listed == if m.listed.Some? then m.listed.value else {}
    ensures OnePlatform(parts) && Complete(parts, count) <==>
            && Indexes(count) - m.seen == {} && |m.platforms| <= 1
            && listed - m.results.Keys == {} && (m.results.Keys + m.exports.Keys) - listed == {}
  {
    AllRun(m, parts, listed);
    AllPresent(m, count, parts, Indexes(count) - m.seen);
    AllOnePlatform(m, parts);
    hide MergedOf, OnePlatform;
  }

  lemma AllPresent(m: Merged, count: int, parts: seq<Part>, missing: set<int>)
    requires MergedOf(parts, m) && forall n :: n in missing <==> 1 <= n <= count && n !in m.seen
    ensures missing == {} <==> forall n :: 1 <= n <= count ==> HasIndex(parts, n)
  {
    if missing == {} {
      forall n | 1 <= n <= count ensures HasIndex(parts, n) {
        assert n !in missing;
      }
    } else if forall n :: 1 <= n <= count ==> HasIndex(parts, n) {
      assert forall n :: n !in missing;
    }
  }

  lemma AllRun(m: Merged, parts: seq<Part>, listed: set<TestId>)
    requires MergedOf(parts, m) && listed == if m.listed.Some? then m.listed.value else {}
    ensures listed - m.results.Keys == {} <==> forall t :: Lists(parts, t) ==> HasRun(parts, t)
    ensures (m.results.Keys + m.exports.Keys) - listed == {}
            <==> forall t :: HasRun(parts, t) || HasCoverage(parts, t) ==> Lists(parts, t)
  {
    hide MergedOf, HasRun, HasCoverage, Lists;
    var notRun, unlisted := listed - m.results.Keys, (m.results.Keys + m.exports.Keys) - listed;
    forall t
      ensures t in notRun <==> Lists(parts, t) && !HasRun(parts, t)
      ensures t in unlisted <==> (HasRun(parts, t) || HasCoverage(parts, t)) && !Lists(parts, t)
    {
      ListedAsMerged(m, parts, listed, t);
      RunAsMerged(m, parts, t);
    }
  }

  lemma RunAsMerged(m: Merged, parts: seq<Part>, t: TestId)
    requires MergedOf(parts, m)
    ensures (t in m.results <==> HasRun(parts, t)) && (t in m.exports <==> HasCoverage(parts, t))
  {
    hide HasRun, HasCoverage;
  }

  lemma ListedAsMerged(m: Merged, parts: seq<Part>, listed: set<TestId>, t: TestId)
    requires MergedOf(parts, m) && listed == if m.listed.Some? then m.listed.value else {}
    ensures t in listed <==> Lists(parts, t)
  {
    hide ListedIn, ResultsOf, CoverageOf, HasIndex;
    if parts != [] {
      assert m.listed == Some(ListedIn(parts[0]));
    }
  }

  lemma AllOnePlatform(m: Merged, parts: seq<Part>)
    requires MergedOf(parts, m)
    ensures OnePlatform(parts) <==> |m.platforms| <= 1
  {
    AtMostOne(m.platforms);
    assert forall i :: 0 <= i < |parts| ==> parts[i].platform in m.platforms;
  }

  lemma AtMostOne(s: set<string>)
    ensures |s| <= 1 <==> forall x, y :: x in s && y in s ==> x == y
  {
    if s != {} {
      var x :| x in s;
      assert s == {x} + (s - {x});
      if |s| > 1 {
        var y :| y in s - {x};
      }
    }
  }

  /** `merge_parts`: no problem exactly when the parts are one whole run, and then
      its tests, results, coverage and platform. */
  method MergeParts(parts: seq<Part>, count: int, commit: string)
    returns (problems: seq<Problem>, listed: set<TestId>, results: map<TestId, Result>,
             exports: map<TestId, set<string>>, platform: Option<string>)
    ensures problems == [] <==> Sound(parts, count, commit)
    ensures problems == [] ==> ResultsOf(parts, results) && CoverageOf(parts, exports)
    ensures problems == [] ==> forall i :: 0 <= i < |parts| ==> listed == ListedIn(parts[i]) && platform == Some(parts[i].platform)
    ensures problems == [] && parts == [] ==> listed == {} && platform == None
  {
    problems := [];
    var m := Merged({}, None, {}, map[], map[]);
    NothingMerged(count, commit);
    hide Together, MergedOf, Fits, OnePlatform, Complete;
    assert parts[..0] == [];
    for i := 0 to |parts|
      invariant problems == [] <==> Together(parts[..i], count, commit)
      invariant problems == [] ==> MergedOf(parts[..i], m)
    {
      assert parts[..i + 1] == parts[..i] + [parts[i]];
      TogetherMore(parts[..i], parts[i], count, commit);
      var next, more := MergePart(parts[i], count, commit, m, parts[..i]);
      m, problems := next, problems + more;
    }
    assert parts[..|parts|] == parts;
    listed := if m.listed.Some? then m.listed.value else {};
    results, exports := m.results, m.exports;
    var more := CheckAll(m, listed, count, parts);
    problems := problems + more;
    platform := None;
    if |m.platforms| == 1 {
      var p := Pick(m.platforms);
      platform := Some(p);
    }
    if problems == [] {
      AllOnePlatform(m, parts);
      AtMostOne(m.platforms);
      MergedSays(m, parts);
    }
  }

  lemma NothingMerged(count: int, commit: string)
    ensures Together([], count, commit) && MergedOf([], Merged({}, None, {}, map[], map[]))
  {
  }

  lemma MergedSays(m: Merged, parts: seq<Part>)
    requires MergedOf(parts, m)
    ensures ResultsOf(parts, m.results) && CoverageOf(parts, m.exports) && (m.listed.None? <==> parts == [])
    ensures forall i :: 0 <= i < |parts| ==> m.listed == Some(ListedIn(parts[i])) && parts[i].platform in m.platforms
    ensures parts == [] ==> m.platforms == {}
  {
  }
}
