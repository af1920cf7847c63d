/** Which integration tests a landing runs (`choose` of scripts/landing-it.py).
    Filtersets are modelled by the tests they denote; times are in seconds,
    durations in milliseconds. */
module LandingSelect {
  import opened Wrappers
  import opened LandingHelpers
  import Wall

  const MAX_TABLE_AGE := 7 * 24 * 3600
  const STALE_TABLE_AGE := 48 * 3600

  // ----- tests and the filtersets that pick them

  datatype Kind = Lib | Bin | ProcMacro | IntegrationTest

  datatype Test = Test(binaryId: string, binary: string, kind: Kind, name: string)

  datatype Filter =
    | Binary(id: string)                     // binary_id(=id)
    | InModule(id: string, prefix: string)   // binary_id(=id) & test(/^prefix/)
    | One(id: string, name: string)          // binary_id(=id) & test(=name)
    | Named(name: string)                    // test(=name)

  predicate Matches(f: Filter, t: Test) {
    match f
    case Binary(id) => t.binaryId == id
    case InModule(id, prefix) => t.binaryId == id && prefix <= t.name
    case One(id, name) => t.binaryId == id && t.name == name
    case Named(name) => t.name == name
  }

  /** What IT_FILTER denotes: the test binaries but the e2e. */
  predicate IsIntegration(t: Test) {
    t.kind == IntegrationTest && t.binary != "e2e"
  }

  // ----- the coverage table and what else the choice reads

  datatype Entry = Entry(binaryId: string, name: string, duration: Option<int>)

  datatype Table = Table(generatedAt: int, tests: map<string, Entry>, files: map<Path, seq<string>>,
                         gated: set<Path>)

  datatype TableFile = Missing | Unreadable | Readable(table: Table)

  datatype Case = Case(binaryId: string, name: string, selected: bool)

  /** One finding of the CI failures: whether it is of kind "test", and its name. */
  datatype Finding = Finding(isTest: bool, name: string)

  datatype Inputs = Inputs(
    tree: TestTree, table: TableFile, tableTree: set<Path>, since: Option<set<Path>>, now: int,
    forced: bool, threads: int, listing: seq<Case>, failures: seq<Finding>, keptForTask: seq<Finding>)

  // ----- paths

  datatype Segment = Is(name: string) | Any | Deep

  /** `glob_match` on segments: "*" is one segment, a last "**" any further ones. */
  predicate GlobMatch(p: Path, glob: seq<Segment>) {
    if glob == [] then p == []
    else p != [] && (match glob[0]
                     case Is(name) => p[0] == name && GlobMatch(p[1..], glob[1..])
                     case Any => GlobMatch(p[1..], glob[1..])
                     case Deep => true)
  }

  const COMMON_FILES: seq<seq<Segment>> := [
    [Is("Cargo.lock")], [Is("Cargo.toml")], [Is("crates"), Any, Is("Cargo.toml")],
    [Is("build.rs")], [Is("crates"), Any, Is("build.rs")], [Is("rust-toolchain.toml")],
    [Is(".config"), Is("nextest.toml")], [Is("migrations"), Deep], [Is("migrations-postgres"), Deep],
    [Is("src"), Is("migration_numbers.rs")]]

  predicate CommonFile(p: Path) {
    exists i :: 0 <= i < |COMMON_FILES| && GlobMatch(p, COMMON_FILES[i])
  }

  const REVIEW_AGENTS := One("dagq::it", "review_subagents::this_repository_names_only_agents_it_defines")

  /** The tests that read the file `p` itself. */
  function ReadByTests(p: Path): seq<Filter> {
    (if GlobMatch(p, [Is("plugins"), Deep]) then [Binary("dagq::plugin"), InModule("dagq::it", "installed_plugin::")] else [])
    + (if p == ["scripts", "check-migration-numbers.sh"] then [InModule("dagq::it", "queue_schema::")] else [])
    + (if p == ["dagq.toml"] || GlobMatch(p, [Is(".dagq"), Is("agents"), Deep]) then [REVIEW_AGENTS] else [])
  }

  predicate IsSource(p: Path) {
    && p != [] && EndsWith(p[|p| - 1], ".rs")
    && (|| (|p| >= 2 && p[0] == "src")
        || (|p| >= 4 && p[0] == "crates" && p[1] != "" && p[2] == "src"))
  }

  /** A source file of unit tests only. */
  predicate IsUnitTests(p: Path)
    requires IsSource(p)
  {
    var inner := if p[0] == "src" then p[1..|p| - 1] else p[3..|p| - 1];
    var name := p[|p| - 1];
    name == "tests.rs" || EndsWith(name, "_tests.rs") || "tests" in inner
  }

  function ModulePrefix(parts: seq<string>): string {
    if parts == [] then "" else parts[0] + "::" + ModulePrefix(parts[1..])
  }

  /** `test_file_filter`: the tests the test file `p` defines. */
  function TestFileFilter(p: Path): Option<Filter> {
    if |p| >= 3 && p[0] == "tests" && p[1] == "it" then
      var last := p[|p| - 1];
      if !EndsWith(last, ".rs") || (|p| == 3 && last == ".rs") then None
      else
        var stem := last[..|last| - 3];
        var parts := if stem == "mod" then p[2..|p| - 1] else p[2..|p| - 1] + [stem];
        if parts == ["main"] || parts == [] then None else Some(InModule("dagq::it", ModulePrefix(parts)))
    else if p == ["tests", "plugin.rs"] then Some(Binary("dagq::plugin"))
    else if |p| == 4 && p[0] == "crates" && p[1] != "" && p[2] == "tests" && EndsWith(p[3], ".rs") && |p[3]| > 3 then
      Some(Binary(p[1] + "::" + p[3][..|p[3]| - 3]))
    else None
  }

  function ModuleFilter(k: ModuleKey): Filter {
    match k
    case Plugin => Binary("dagq::plugin")
    case It(name) => InModule("dagq::it", name + "::")
  }

  // ----- the table's rules

  /** A file the table maps to more than a quarter of its tests. */
  predicate BroadFile(table: Table, p: Path) {
    p in table.files && 4 * |table.files[p]| > |table.tests|
  }

  predicate Stale(table: Table, now: int) {
    now - table.generatedAt > STALE_TABLE_AGE
  }

  /** The table's tests that reach the file `p`. */
  function TestsReaching(table: Table, p: Path): set<string> {
    if p in table.files then set k | k in table.files[p] && k in table.tests else {}
  }

  /** `files_to_widen`, for one path. */
  predicate Widened(inp: Inputs, table: Table, p: Path) {
    var since := if inp.since.Some? then inp.since.value else {};
    && IsSource(p) && !IsUnitTests(p) && !BroadFile(table, p)
    && (|| p in table.gated
        || (Stale(table, inp.now) && (|| (p !in table.files && p !in inp.tableTree) || p in since)))
  }

  /** `neighbours`: the entries that stand for a file the table does not know. */
  function Neighbours(table: Table, p: Path): set<Path>
    requires p != []
  {
    var parent := p[..|p| - 1];
    var isMod := p[|p| - 1] == "mod.rs";
    var d := if isMod && parent != [] then parent[..|parent| - 1] else parent;
    set f | f in table.files && f != p && IsSource(f) && !BroadFile(table, f)
            && (|| f[..|f| - 1] == d
                || (isMod && f[..|f| - 1] == parent)
                || (d != [] && (f == d[..|d| - 1] + [d[|d| - 1] + ".rs"] || f == d + ["mod.rs"])))
  }

  function NearTests(table: Table, p: Path): set<string>
    requires p != []
  {
    set f, k | f in Neighbours(table, p) && k in TestsReaching(table, f) :: k
  }

  /** The table's tests that path `p` of the diff selects. */
  function SelectedBy(inp: Inputs, table: Table, p: Path): set<string> {
    (if BroadFile(table, p) then {} else TestsReaching(table, p))
    + (if Widened(inp, table, p) then NearTests(table, p) else {})
  }

  ghost function FromTable(inp: Inputs, table: Table, diff: set<Path>): set<string> {
    set k | k in table.tests && exists p :: p in diff && k in SelectedBy(inp, table, p)
  }

  // ----- the wall-time threshold

  /** A missing duration counts as 0. */
  function Duration(table: Table, k: string): int {
    if k in table.tests && table.tests[k].duration.Some? then table.tests[k].duration.value else 0
  }

  /** The durations of a set of tests, in some order. */
  ghost function Durations(table: Table, keys: set<string>): seq<int> {
    if keys == {} then [] else var k :| k in keys; Durations(table, keys - {k}) + [Duration(table, k)]
  }

  /** The estimate of the selected tests exceeds half of the estimate of all. */
  ghost predicate OverThreshold(table: Table, keys: set<string>, threads: int) {
    Wall.Wall(Durations(table, keys), threads) > 0.5 * Wall.Wall(Durations(table, table.tests.Keys), threads)
  }

  lemma {:induction false} DurationsWithout(table: Table, keys: set<string>, k: string)
    requires k in keys
    ensures multiset(Durations(table, keys)) == multiset(Durations(table, keys - {k})) + multiset{Duration(table, k)}
    decreases keys
  {
    var j :| j in keys && Durations(table, keys) == Durations(table, keys - {j}) + [Duration(table, j)];
    if j != k {
      DurationsWithout(table, keys - {j}, k);
      DurationsWithout(table, keys - {k}, j);
      assert keys - {j} - {k} == keys - {k} - {j};
    }
  }

  lemma {:induction false} DurationsGrow(table: Table, small: set<string>, large: set<string>)
    requires small <= large
    ensures multiset(Durations(table, small)) <= multiset(Durations(table, large))
    decreases small
  {
    if small != {} {
      var k :| k in small;
      DurationsWithout(table, small, k);
      DurationsWithout(table, large, k);
      DurationsGrow(table, small - {k}, large - {k});
    }
  }

  ghost predicate DurationsNonNegative(table: Table) {
    forall k :: k in table.tests ==> Duration(table, k) >= 0
  }

  lemma {:induction false} NonNegativeDurations(table: Table, keys: set<string>)
    requires DurationsNonNegative(table) && keys <= table.tests.Keys
    ensures Wall.NonNegative(Durations(table, keys))
    decreases keys
  {
    if keys != {} {
      var k :| k in keys && Durations(table, keys) == Durations(table, keys - {k}) + [Duration(table, k)];
      NonNegativeDurations(table, keys - {k});
    }
  }

  // ----- running every test

  ghost predicate HasFullReason(inp: Inputs, diff: set<Path>) {
    || inp.forced
    || !inp.table.Readable?
    || inp.now - inp.table.table.generatedAt > MAX_TABLE_AGE
    || exists p :: p in diff && (CommonFile(p) || HelperRunsAll(inp.tree, p))
  }

  ghost predicate RunsAll(inp: Inputs, diff: set<Path>) {
    || HasFullReason(inp, diff)
    || (Stale(inp.table.table, inp.now) && inp.since.None?)
    || OverThreshold(inp.table.table, FromTable(inp, inp.table.table, diff), inp.threads)
  }

  // ----- the tests nextest lists now

  function Key(c: Case): string {
    c.binaryId + "::" + c.name
  }

  /** `current_its`: a later case of the same key replaces an earlier one. */
  function CurrentIts(listing: seq<Case>): (m: map<string, Case>)
    ensures forall k :: k in m ==> m[k] in listing && m[k].selected && Key(m[k]) == k
    ensures forall c :: c in listing && c.selected ==> Key(c) in m
  {
    if listing == [] then map[]
    else
      var last := listing[|listing| - 1];
      var m := CurrentIts(listing[..|listing| - 1]);
      if last.selected then m[Key(last) := last] else m
  }

  method ListCurrentIts(listing: seq<Case>) returns (m: map<string, Case>)
    ensures m == CurrentIts(listing)
  {
    m := map[];
    for i := 0 to |listing|
      invariant m == CurrentIts(listing[..i])
    {
      assert listing[..i + 1][..i] == listing[..i];
      if listing[i].selected {
        m := m[Key(listing[i]) := listing[i]];
      }
    }
    assert listing[..|listing|] == listing;
  }

  /** The filterset of a finding's name: "<binary id> <test>", or a bare test name. */
  function FindingFilter(name: string): Filter {
    var i := FirstSpace(name);
    if i < |name| then One(name[..i], name[i + 1..]) else Named(name)
  }

  function FirstSpace(s: string): (i: nat)
    ensures i <= |s|
    ensures ' ' !in s[..i] && (i < |s| ==> s[i] == ' ')
  {
    if s == "" || s[0] == ' ' then 0 else 1 + FirstSpace(s[1..])
  }

  /** One list of `known_failures`. */
  method FindingFilters(findings: seq<Finding>) returns (filters: set<Filter>)
    ensures forall f :: f in filters <==> FindingNames(findings, f)
  {
    filters := {};
    for i := 0 to |findings|
      invariant forall f :: f in filters <==> FindingNames(findings[..i], f)
    {
      assert findings[..i + 1] == findings[..i] + [findings[i]];
      if findings[i].isTest {
        filters := filters + {FindingFilter(findings[i].name)};
      }
    }
    assert findings[..|findings|] == findings;
  }

  ghost predicate FindingNames(findings: seq<Finding>, f: Filter) {
    exists x :: x in findings && x.isTest && FindingFilter(x.name) == f
  }

  // ----- the choice

  datatype Choice = Choice(full: bool, narrowed: set<Filter>, excluded: set<Filter>)

  /** What the IT stage's filterset picks. */
  ghost predicate Picks(c: Choice, t: Test) {
    && (if c.full then IsIntegration(t) else exists f :: f in c.narrowed && Matches(f, t))
    && !(exists f :: f in c.excluded && Matches(f, t))
  }

  /** A narrowed run has the filterset `f`: a table test the diff reaches, the
      tests of a changed test file, the readers of a changed file, the users of a
      changed helper, a test the table does not know, or a kept finding. */
  ghost predicate Narrows(inp: Inputs, diff: set<Path>, f: Filter)
    requires inp.table.Readable?
  {
    var table := inp.table.table;
    || OneOf(table, FromTable(inp, table, diff), f)
    || (exists p :: p in diff && PathFilter(p, f))
    || ModuleOf(HelperModules(inp.tree, diff), f)
    || UnknownTest(inp, f)
    || FindingNames(inp.keptForTask, f)
  }

  ghost predicate OneOf(table: Table, keys: set<string>, f: Filter)
    requires keys <= table.tests.Keys
  {
    exists k :: k in keys && f == One(table.tests[k].binaryId, table.tests[k].name)
  }

  ghost predicate ModuleOf(modules: set<ModuleKey>, f: Filter) {
    exists k :: k in modules && f == ModuleFilter(k)
  }

  ghost predicate PathFilter(p: Path, f: Filter) {
    TestFileFilter(p) == Some(f) || f in ReadByTests(p)
  }

  ghost predicate PathsFilter(paths: seq<Path>, f: Filter) {
    exists p :: p in paths && PathFilter(p, f)
  }

  ghost predicate PathsSelect(inp: Inputs, table: Table, paths: seq<Path>, k: string) {
    exists p :: p in paths && k in SelectedBy(inp, table, p)
  }

  ghost predicate UnknownTest(inp: Inputs, f: Filter)
    requires inp.table.Readable?
  {
    var listed := CurrentIts(inp.listing);
    exists k :: k in listed && k !in inp.table.table.tests && f == One(listed[k].binaryId, listed[k].name)
  }

  /** The integration test `t` runs for `diff`. */
  ghost predicate Runs(inp: Inputs, diff: set<Path>, t: Test) {
    && IsIntegration(t)
    && (RunsAll(inp, diff) || exists f :: Narrows(inp, diff, f) && Matches(f, t))
    && !(exists f :: FindingNames(inp.failures, f) && Matches(f, t))
  }

  // ----- the loops of the choice

  /** `full_reasons`, as the number of reasons found. */
  method FullReasons(inp: Inputs, diff: seq<Path>) returns (reasons: nat, modules: set<ModuleKey>)
    ensures reasons > 0 <==> HasFullReason(inp, set p | p in diff)
    ensures modules == HelperModules(inp.tree, set p | p in diff)
  {
    var helperReasons;
    helperReasons, modules := HelperChoice(inp.tree, diff);
    reasons := if inp.forced then 1 else 0;
    if !inp.table.Readable? {
      return reasons + 1, modules;
    }
    if inp.now - inp.table.table.generatedAt > MAX_TABLE_AGE {
      reasons := reasons + 1;
    }
    ghost var before := reasons;
    for i := 0 to |diff|
      invariant reasons > 0 <==> before > 0 || exists p :: p in diff[..i] && CommonFile(p)
    {
      assert diff[..i + 1] == diff[..i] + [diff[i]];
      if CommonFile(diff[i]) {
        reasons := reasons + 1;
      }
    }
    assert diff[..|diff|] == diff;
    reasons := reasons + |helperReasons|;
  }

  function FiltersOf(p: Path): (filters: set<Filter>)
    ensures forall f :: f in filters <==> PathFilter(p, f)
  {
    (set f | f in ReadByTests(p)) + (if TestFileFilter(p).Some? then {TestFileFilter(p).value} else {})
  }

  /** The table's tests and the filtersets the paths themselves select. */
  method ReadPaths(inp: Inputs, table: Table, diff: seq<Path>) returns (keys: set<string>, filters: set<Filter>)
    ensures keys == FromTable(inp, table, set p | p in diff)
    ensures forall f :: f in filters <==> PathsFilter(diff, f)
  {
    keys, filters := {}, {};
    for i := 0 to |diff|
      invariant forall k :: k in keys <==> PathsSelect(inp, table, diff[..i], k)
      invariant forall f :: f in filters <==> PathsFilter(diff[..i], f)
    {
      assert diff[..i + 1] == diff[..i] + [diff[i]];
      keys := keys + SelectedBy(inp, table, diff[i]);
      filters := filters + FiltersOf(diff[i]);
    }
    assert diff[..|diff|] == diff;
    SelectedAreInTable(inp, table);
  }

  lemma SelectedAreInTable(inp: Inputs, table: Table)
    ensures forall p :: SelectedBy(inp, table, p) <= table.tests.Keys
  {
  }

  method DurationsOf(table: Table, keys: set<string>) returns (ds: seq<int>)
    ensures multiset(ds) == multiset(Durations(table, keys))
  {
    ds := [];
    var rest := keys;
    while rest != {}
      invariant rest <= keys
      invariant multiset(ds) + multiset(Durations(table, rest)) == multiset(Durations(table, keys))
      decreases rest
    {
      var k :| k in rest;
      DurationsWithout(table, rest, k);
      ds := ds + [Duration(table, k)];
      rest := rest - {k};
    }
  }

  method ExceedsThreshold(table: Table, keys: set<string>, threads: int) returns (over: bool)
    ensures over <==> OverThreshold(table, keys, threads)
  {
    var selected := DurationsOf(table, keys);
    var all := DurationsOf(table, table.tests.Keys);
    Wall.WallOfPermutation(selected, Durations(table, keys), threads);
    Wall.WallOfPermutation(all, Durations(table, table.tests.Keys), threads);
    over := Wall.Wall(selected, threads) > 0.5 * Wall.Wall(all, threads);
  }

  /** The filtersets of a narrowed run. */
  method Narrow(inp: Inputs, table: Table, diff: seq<Path>, keys: set<string>, paths: set<Filter>,
                modules: set<ModuleKey>) returns (narrowed: set<Filter>)
    requires inp.table == Readable(table)
    requires keys == FromTable(inp, table, set p | p in diff)
    requires forall f :: f in paths <==> PathsFilter(diff, f)
    requires modules == HelperModules(inp.tree, set p | p in diff)
    ensures forall f :: f in narrowed <==> Narrows(inp, (set p | p in diff), f)
  {
    var listed := ListCurrentIts(inp.listing);
    var kept := FindingFilters(inp.keptForTask);
    var fromTable := set k | k in keys :: One(table.tests[k].binaryId, table.tests[k].name);
    var users := set k | k in modules :: ModuleFilter(k);
    var unknown := set k | k in listed && k !in table.tests :: One(listed[k].binaryId, listed[k].name);
    narrowed := fromTable + paths + users + unknown + kept;
    assert forall f :: f in unknown <==> UnknownTest(inp, f);
    assert forall f :: f in fromTable <==> OneOf(table, keys, f);
    assert forall f :: f in users <==> ModuleOf(modules, f);
    hide OneOf, ModuleOf, UnknownTest, FindingNames, HelperModules, FromTable, PathFilter;
    forall f ensures f in narrowed <==> Narrows(inp, (set p | p in diff), f) {
      assert f in paths <==> exists p :: p in (set p | p in diff) && PathFilter(p, f);
    }
  }

  /** `c` is what the description says of `diff`. */
  ghost predicate IsChoice(inp: Inputs, diff: set<Path>, c: Choice) {
    && (c.full <==> RunsAll(inp, diff))
    && (!c.full ==> forall f :: f in c.narrowed <==> Narrows(inp, diff, f))
    && (forall f :: f in c.excluded <==> FindingNames(inp.failures, f))
  }

  /** `choose`: the chosen filtersets pick exactly the tests `Runs` says. */
  method Choose(inp: Inputs, diff: seq<Path>) returns (c: Choice)
    ensures IsChoice(inp, (set p | p in diff), c)
  {
    var excluded := FindingFilters(inp.failures);
    var reasons, modules := FullReasons(inp, diff);
    if reasons > 0 {
      return Choice(true, {}, excluded);
    }
    var table := inp.table.table;
    var keys, paths := ReadPaths(inp, table, diff);
    if Stale(table, inp.now) && inp.since.None? {
      return Choice(true, {}, excluded);
    }
    var over := ExceedsThreshold(table, keys, inp.threads);
    if over {
      return Choice(true, {}, excluded);
    }
    var narrowed := Narrow(inp, table, diff, keys, paths, modules);
    c := Choice(false, narrowed, excluded);
  }

  lemma ChoicePicks(inp: Inputs, diff: set<Path>, c: Choice, t: Test)
    requires IsChoice(inp, diff, c)
    ensures IsIntegration(t) ==> (Picks(c, t) <==> Runs(inp, diff, t))
  {
  }

  // ----- a larger diff never runs less

  lemma FromTableGrows(inp: Inputs, table: Table, small: set<Path>, large: set<Path>)
    requires small <= large
    ensures FromTable(inp, table, small) <= FromTable(inp, table, large)
  {
  }

  lemma OverThresholdGrows(table: Table, small: set<string>, large: set<string>, threads: int)
    requires small <= large <= table.tests.Keys && DurationsNonNegative(table)
    requires OverThreshold(table, small, threads)
    ensures OverThreshold(table, large, threads)
  {
    DurationsGrow(table, small, large);
    NonNegativeDurations(table, large);
    Wall.WallGrows(Durations(table, small), Durations(table, large), threads);
  }

  lemma RunsAllGrows(inp: Inputs, small: set<Path>, large: set<Path>)
    requires small <= large
    requires inp.table.Readable? ==> DurationsNonNegative(inp.table.table)
    requires RunsAll(inp, small)
    ensures RunsAll(inp, large)
  {
    if !HasFullReason(inp, small) && inp.table.Readable? {
      var table := inp.table.table;
      FromTableGrows(inp, table, small, large);
      if OverThreshold(table, FromTable(inp, table, small), inp.threads) {
        OverThresholdGrows(table, FromTable(inp, table, small), FromTable(inp, table, large), inp.threads);
      }
    }
  }

  lemma NarrowsGrows(inp: Inputs, small: set<Path>, large: set<Path>, f: Filter)
    requires small <= large && inp.table.Readable? && Narrows(inp, small, f)
    ensures Narrows(inp, large, f)
  {
    FromTableGrows(inp, inp.table.table, small, large);
    assert HelperModules(inp.tree, small) <= HelperModules(inp.tree, large);
  }

  /** Adding paths to a diff never drops an integration test from the run. */
  lemma MorePathsRunMore(inp: Inputs, small: set<Path>, large: set<Path>, t: Test)
    requires small <= large
    requires inp.table.Readable? ==> DurationsNonNegative(inp.table.table)
    requires Runs(inp, small, t)
    ensures Runs(inp, large, t)
  {
    if RunsAll(inp, small) {
      RunsAllGrows(inp, small, large);
    } else {
      var f :| Narrows(inp, small, f) && Matches(f, t);
      NarrowsGrows(inp, small, large, f);
    }
  }

  /** The same of the choices made: of a larger diff everything is run when everything
      was, and otherwise each test that was picked is picked. */
  lemma MoreIsChosen(inp: Inputs, small: set<Path>, large: set<Path>, c: Choice, d: Choice, t: Test)
    requires small <= large && IsChoice(inp, small, c) && IsChoice(inp, large, d)
    requires inp.table.Readable? ==> DurationsNonNegative(inp.table.table)
    ensures c.full ==> d.full
    ensures IsIntegration(t) && Picks(c, t) ==> Picks(d, t)
  {
    if c.full {
      RunsAllGrows(inp, small, large);
    }
    if IsIntegration(t) && Picks(c, t) {
      ChoicePicks(inp, small, c, t);
      ChoicePicks(inp, large, d, t);
      MorePathsRunMore(inp, small, large, t);
    }
  }

  // ----- what always runs

  ghost predicate KnownFailure(inp: Inputs, t: Test) {
    exists f :: FindingNames(inp.failures, f) && Matches(f, t)
  }

  /** A test the table says reaches a changed file runs, unless the file's entry
      is broad or the test is a known failure; so does every test of a neighbouring
      entry of a widened file. */
  lemma ReachedTestsRun(inp: Inputs, diff: set<Path>, p: Path, k: string, t: Test)
    requires inp.table.Readable? && p in diff && IsIntegration(t) && !KnownFailure(inp, t)
    requires k in inp.table.table.tests
    requires inp.table.table.tests[k].binaryId == t.binaryId && inp.table.table.tests[k].name == t.name
    requires || (!BroadFile(inp.table.table, p) && k in TestsReaching(inp.table.table, p))
             || (Widened(inp, inp.table.table, p) && k in NearTests(inp.table.table, p))
    ensures Runs(inp, diff, t)
  {
    if !RunsAll(inp, diff) {
      assert k in SelectedBy(inp, inp.table.table, p);
      hide RunsAll, SelectedBy, HelperModules, UnknownTest, FindingNames, PathFilter;
      assert k in FromTable(inp, inp.table.table, diff);
      assert Narrows(inp, diff, One(t.binaryId, t.name));
    }
  }

  /** A listed test the table does not know runs whatever the diff, when no other
      listed test has its key. */
  lemma UnknownTestsRun(inp: Inputs, diff: set<Path>, c: Case, t: Test)
    requires c in inp.listing && c.selected && c.binaryId == t.binaryId && c.name == t.name
    requires forall d :: d in inp.listing && d.selected && Key(d) == Key(c) ==> d == c
    requires IsIntegration(t) && !KnownFailure(inp, t)
    requires inp.table.Readable? ==> Key(c) !in inp.table.table.tests
    ensures Runs(inp, diff, t)
  {
    if !RunsAll(inp, diff) {
      var listed := CurrentIts(inp.listing);
      assert listed[Key(c)] == c;
      assert UnknownTest(inp, One(c.binaryId, c.name));
      assert Narrows(inp, diff, One(c.binaryId, c.name));
    }
  }
}
