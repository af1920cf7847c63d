/** What a landing's choice means for the tests themselves, written out on paths and
    test names, with no filterset in between (scripts/landing-it.py). */
module LandingTests {
  import opened Wrappers
  import opened Sums
  import opened LandingHelpers
  import opened LandingSelect
  import Wall

  // ----- the tests a changed test file defines

  /** The prefix of the names of a module's tests. */
  function Within(modules: seq<string>): string {
    if modules == [] then "" else Within(modules[..|modules| - 1]) + modules[|modules| - 1] + "::"
  }

  /** tests/it/<dirs>/<stem>.rs, where mod.rs stands for its directory and main.rs for no module. */
  ghost predicate DefinedIn(dirs: Path, stem: string, t: Test) {
    var modules := if stem == "mod" then dirs else dirs + [stem];
    && modules != [] && modules != ["main"] && t.binaryId == "dagq::it" && Within(modules) <= t.name
  }

  ghost predicate InItFile(p: Path, t: Test) {
    exists dirs: Path, stem: string ::
      p == ["tests", "it"] + dirs + [stem + ".rs"] && (dirs != [] || stem != "") && DefinedIn(dirs, stem, t)
  }

  ghost predicate InCrateFile(p: Path, t: Test) {
    exists crate: string, stem: string ::
      p == ["crates", crate, "tests", stem + ".rs"] && crate != "" && stem != "" && t.binaryId == crate + "::" + stem
  }

  /** The test file `p` defines the test. */
  ghost predicate InTestFile(p: Path, t: Test) {
    InItFile(p, t) || (p == ["tests", "plugin.rs"] && t.binaryId == "dagq::plugin") || InCrateFile(p, t)
  }

  lemma {:induction false} PrefixIsWithin(modules: seq<string>, more: seq<string>)
    ensures ModulePrefix(modules + more) == ModulePrefix(modules) + ModulePrefix(more)
  {
    if modules == [] {
      assert modules + more == more;
    } else {
      assert (modules + more)[1..] == modules[1..] + more;
      PrefixIsWithin(modules[1..], more);
    }
  }

  lemma {:induction false} WithinExact(modules: seq<string>)
    ensures ModulePrefix(modules) == Within(modules)
  {
    if modules != [] {
      var n := |modules| - 1;
      WithinExact(modules[..n]);
      assert modules == modules[..n] + [modules[n]];
      PrefixIsWithin(modules[..n], [modules[n]]);
      assert ModulePrefix([modules[n]]) == modules[n] + "::" + ModulePrefix([]);
    }
  }

  lemma StemExact(last: string, stem: string)
    ensures last == stem + ".rs" <==> EndsWith(last, ".rs") && stem == last[..|last| - 3]
  {
    EndsWithExact(last, ".rs");
    if last == stem + ".rs" {
      assert last[..|last| - 3] == stem;
    }
  }

  lemma ItFileExact(p: Path, t: Test)
    requires |p| >= 3 && p[0] == "tests" && p[1] == "it"
    ensures InItFile(p, t) <==> TestFileFilter(p).Some? && Matches(TestFileFilter(p).value, t)
  {
    var last := p[|p| - 1];
    if EndsWith(last, ".rs") {
      var dirs, stem := p[2..|p| - 1], last[..|last| - 3];
      StemExact(last, stem);
      assert p == ["tests", "it"] + dirs + [stem + ".rs"];
      WithinExact(if stem == "mod" then dirs else dirs + [stem]);
      assert |p| == 3 <==> dirs == [];
      assert last == ".rs" <==> stem == "";
    }
    if InItFile(p, t) {
      var dirs: Path, stem: string :|
        p == ["tests", "it"] + dirs + [stem + ".rs"] && (dirs != [] || stem != "") && DefinedIn(dirs, stem, t);
      StemExact(last, stem);
      assert dirs == p[2..|p| - 1];
    }
  }

  lemma CrateFileExact(p: Path, t: Test)
    requires |p| == 4 && p[0] == "crates"
    ensures InCrateFile(p, t) <==> TestFileFilter(p).Some? && Matches(TestFileFilter(p).value, t)
  {
    if EndsWith(p[3], ".rs") {
      StemExact(p[3], p[3][..|p[3]| - 3]);
      assert p == [p[0], p[1], p[2], p[3]];
    }
    if InCrateFile(p, t) {
      var crate: string, stem: string :| p == ["crates", crate, "tests", stem + ".rs"] && crate != "" && stem != ""
                                         && t.binaryId == crate + "::" + stem;
      StemExact(p[3], stem);
    }
  }

  /** `test_file_filter` picks exactly the tests the file defines. */
  lemma TestFileExact(p: Path, t: Test)
    ensures InTestFile(p, t) <==> TestFileFilter(p).Some? && Matches(TestFileFilter(p).value, t)
  {
    if |p| >= 3 && p[0] == "tests" && p[1] == "it" {
      ItFileExact(p, t);
    } else if |p| == 4 && p[0] == "crates" {
      CrateFileExact(p, t);
    }
  }

  // ----- the tests that read a changed file

  ghost predicate ReadBy(p: Path, t: Test) {
    || (|p| >= 2 && p[0] == "plugins"
        && (t.binaryId == "dagq::plugin" || (t.binaryId == "dagq::it" && "installed_plugin::" <= t.name)))
    || (p == ["scripts", "check-migration-numbers.sh"] && t.binaryId == "dagq::it" && "queue_schema::" <= t.name)
    || ((p == ["dagq.toml"] || (|p| >= 3 && p[0] == ".dagq" && p[1] == "agents")) && t.binaryId == "dagq::it"
        && t.name == "review_subagents::this_repository_names_only_agents_it_defines")
  }

  /** The readers' filtersets pick exactly those. */
  lemma ReadersExact(p: Path, t: Test)
    ensures ReadBy(p, t) <==> exists f :: f in ReadByTests(p) && Matches(f, t)
  {
    DirectoryMatch(p, "plugins");
    NestedMatch(p, ".dagq", "agents");
    hide GlobMatch;
    var fs := ReadByTests(p);
    var plugin: seq<Filter> :=
      if GlobMatch(p, [Is("plugins"), Deep]) then [Binary("dagq::plugin"), InModule("dagq::it", "installed_plugin::")] else [];
    var schema: seq<Filter> :=
      if p == ["scripts", "check-migration-numbers.sh"] then [InModule("dagq::it", "queue_schema::")] else [];
    var agents: seq<Filter> :=
      if p == ["dagq.toml"] || GlobMatch(p, [Is(".dagq"), Is("agents"), Deep]) then [REVIEW_AGENTS] else [];
    assert fs == plugin + schema + agents;
    AnyOfThree(plugin, schema, agents, t);
    AnyMatches(plugin, t);
    AnyMatches(schema, t);
    AnyMatches(agents, t);
  }

  ghost predicate AnyPicks(fs: seq<Filter>, t: Test) {
    exists f :: f in fs && Matches(f, t)
  }

  lemma AnyOfThree(a: seq<Filter>, b: seq<Filter>, c: seq<Filter>, t: Test)
    ensures (exists f :: f in a + b + c && Matches(f, t)) <==> AnyPicks(a, t) || AnyPicks(b, t) || AnyPicks(c, t)
  {
    hide Matches;
    assert forall f :: f in a + b + c <==> f in a || f in b || f in c;
  }

  lemma AnyMatches(fs: seq<Filter>, t: Test)
    requires |fs| <= 2
    ensures AnyPicks(fs, t) <==> (|fs| >= 1 && Matches(fs[0], t)) || (|fs| == 2 && Matches(fs[1], t))
  {
    hide Matches;
    if |fs| >= 1 && Matches(fs[0], t) {
      assert fs[0] in fs;
    }
    if |fs| == 2 && Matches(fs[1], t) {
      assert fs[1] in fs;
    }
  }

  lemma DirectoryMatch(p: Path, dir: string)
    ensures GlobMatch(p, [Is(dir), Deep]) <==> |p| >= 2 && p[0] == dir
  {
    assert [Is(dir), Deep][1..] == [Deep];
  }

  lemma NestedMatch(p: Path, dir: string, inner: string)
    ensures GlobMatch(p, [Is(dir), Is(inner), Deep]) <==> |p| >= 3 && p[0] == dir && p[1] == inner
  {
    assert [Is(dir), Is(inner), Deep][1..] == [Is(inner), Deep];
    if p != [] {
      DirectoryMatch(p[1..], inner);
    }
  }

  lemma FileMatch(p: Path, name: string)
    ensures GlobMatch(p, [Is(name)]) <==> p == [name]
  {
    assert [Is(name)][1..] == [];
  }

  lemma FileInMatch(p: Path, dir: string, name: string)
    ensures GlobMatch(p, [Is(dir), Is(name)]) <==> p == [dir, name]
  {
    assert [Is(dir), Is(name)][1..] == [Is(name)];
    if p != [] {
      FileMatch(p[1..], name);
      assert p == [p[0]] + p[1..];
    }
  }

  lemma FileInAnyMatch(p: Path, dir: string, name: string)
    ensures GlobMatch(p, [Is(dir), Any, Is(name)]) <==> |p| == 3 && p[0] == dir && p[2] == name
  {
    assert [Is(dir), Any, Is(name)][1..] == [Any, Is(name)] && [Any, Is(name)][1..] == [Is(name)];
    if |p| >= 2 {
      FileMatch(p[1..][1..], name);
      assert p[1..][1..] == p[2..];
    }
  }

  // ----- the files that run everything

  ghost predicate IsCommon(p: Path) {
    || p == ["Cargo.lock"] || p == ["Cargo.toml"] || p == ["build.rs"] || p == ["rust-toolchain.toml"]
    || p == [".config", "nextest.toml"] || p == ["src", "migration_numbers.rs"]
    || (|p| == 3 && p[0] == "crates" && (p[2] == "Cargo.toml" || p[2] == "build.rs"))
    || (|p| >= 2 && (p[0] == "migrations" || p[0] == "migrations-postgres"))
  }

  lemma CommonExact(p: Path)
    ensures CommonFile(p) <==> IsCommon(p)
  {
    FileMatch(p, "Cargo.lock");
    FileMatch(p, "Cargo.toml");
    FileInAnyMatch(p, "crates", "Cargo.toml");
    FileMatch(p, "build.rs");
    FileInAnyMatch(p, "crates", "build.rs");
    FileMatch(p, "rust-toolchain.toml");
    FileInMatch(p, ".config", "nextest.toml");
    DirectoryMatch(p, "migrations");
    DirectoryMatch(p, "migrations-postgres");
    FileInMatch(p, "src", "migration_numbers.rs");
    hide GlobMatch, CommonFile;
    OneOfTen(p);
  }

  lemma OneOfTen(p: Path)
    ensures CommonFile(p) <==>
            || GlobMatch(p, [Is("Cargo.lock")]) || GlobMatch(p, [Is("Cargo.toml")])
            || GlobMatch(p, [Is("crates"), Any, Is("Cargo.toml")]) || GlobMatch(p, [Is("build.rs")])
            || GlobMatch(p, [Is("crates"), Any, Is("build.rs")]) || GlobMatch(p, [Is("rust-toolchain.toml")])
            || GlobMatch(p, [Is(".config"), Is("nextest.toml")]) || GlobMatch(p, [Is("migrations"), Deep])
            || GlobMatch(p, [Is("migrations-postgres"), Deep]) || GlobMatch(p, [Is("src"), Is("migration_numbers.rs")])
  {
    hide GlobMatch;
    assert |COMMON_FILES| == 10;
    assert CommonFile(p) <==>
           || GlobMatch(p, COMMON_FILES[0]) || GlobMatch(p, COMMON_FILES[1]) || GlobMatch(p, COMMON_FILES[2])
           || GlobMatch(p, COMMON_FILES[3]) || GlobMatch(p, COMMON_FILES[4]) || GlobMatch(p, COMMON_FILES[5])
           || GlobMatch(p, COMMON_FILES[6]) || GlobMatch(p, COMMON_FILES[7]) || GlobMatch(p, COMMON_FILES[8])
           || GlobMatch(p, COMMON_FILES[9]);
  }

  /** The number of tests of a module. */
  ghost function Counts(tree: TestTree): ModuleKey -> int {
    k => if k in tree.modules then tree.modules[k].tests else 0
  }

  /** The users of the helper hold more than a quarter of the tests. */
  ghost predicate UsedBroadly(tree: TestTree, h: string) {
    Sum(Counts(tree), Users(tree, {h})) * 4 > tree.total
  }

  ghost predicate HelperForAll(tree: TestTree, p: Path) {
    && |p| >= 3 && p[0] == "tests" && p[1] == "common"
    && forall h :: HelperFile(p, h) ==> UsedBroadly(tree, h)
  }

  lemma HelperForAllExact(tree: TestTree, p: Path)
    ensures HelperRunsAll(tree, p) <==> HelperForAll(tree, p)
  {
    if UnderHelpers(p) {
      forall h ensures HelperOf(p) == Helper(h) <==> HelperFile(p, h) {
        HelperOfExact(p, h);
      }
      forall h ensures Broad(tree, Users(tree, {h})) <==> UsedBroadly(tree, h) {
        SumSame(Counts(tree), TestsOf(tree), Users(tree, {h}));
      }
      if HelperOf(p).Helper? {
        assert HelperFile(p, HelperOf(p).name);
      }
    }
  }

  // ----- the tests of the users of a changed helper

  ghost predicate OfModule(k: ModuleKey, t: Test) {
    if k.Plugin? then t.binaryId == "dagq::plugin"
    else t.binaryId == "dagq::it" && exists rest :: t.name == k.name + "::" + rest
  }

  lemma ModuleTestsExact(k: ModuleKey, t: Test)
    ensures OfModule(k, t) <==> Matches(ModuleFilter(k), t)
  {
    if k.It? {
      var prefix := k.name + "::";
      if prefix <= t.name {
        assert t.name == prefix + t.name[|prefix|..];
      }
    }
  }

  /** The path is a helper's file, not used broadly, and one of its users has the test. */
  ghost predicate ByHelper(tree: TestTree, p: Path, t: Test) {
    exists h, k :: HelperFile(p, h) && !UsedBroadly(tree, h) && k in Users(tree, {h}) && OfModule(k, t)
  }

  lemma HelperSelectsExact(tree: TestTree, p: Path, k: ModuleKey)
    ensures HelperSelects(tree, p, k) <==> exists h :: HelperFile(p, h) && !UsedBroadly(tree, h) && k in Users(tree, {h})
  {
    if h :| HelperFile(p, h) && !UsedBroadly(tree, h) && k in Users(tree, {h}) {
      UnderOfFile(p, h);
      HelperOfExact(p, h);
      SumSame(Counts(tree), TestsOf(tree), Users(tree, {h}));
    }
    if HelperSelects(tree, p, k) {
      var h := HelperOf(p).name;
      HelperOfExact(p, h);
      SumSame(Counts(tree), TestsOf(tree), Users(tree, {h}));
    }
  }

  lemma UnderOfFile(p: Path, h: string)
    requires HelperFile(p, h)
    ensures UnderHelpers(p)
  {
    InHelperExact(p, h);
  }

  lemma HelpersExact(tree: TestTree, diff: set<Path>, t: Test)
    ensures (exists f :: ModuleOf(HelperModules(tree, diff), f) && Matches(f, t)) <==>
            exists p :: p in diff && ByHelper(tree, p, t)
  {
    var modules := HelperModules(tree, diff);
    if f :| ModuleOf(modules, f) && Matches(f, t) {
      var k :| k in modules && f == ModuleFilter(k);
      var p :| p in diff && HelperSelects(tree, p, k);
      ModuleTestsExact(k, t);
      HelperSelectsExact(tree, p, k);
      assert ByHelper(tree, p, t);
    }
    if p :| p in diff && ByHelper(tree, p, t) {
      var h, k :| HelperFile(p, h) && !UsedBroadly(tree, h) && k in Users(tree, {h}) && OfModule(k, t);
      HelperSelectsExact(tree, p, k);
      ModuleTestsExact(k, t);
      assert k in modules && ModuleOf(modules, ModuleFilter(k));
    }
  }

  // ----- the tests of the table

  /** The file is a `.rs` file under src or under the src of a crate: its directories
      below that, and its name without the `.rs`. */
  ghost predicate SourceFile(p: Path, inner: Path, stem: string) {
    || p == ["src"] + inner + [stem + ".rs"]
    || exists crate: string :: crate != "" && p == ["crates", crate, "src"] + inner + [stem + ".rs"]
  }

  ghost predicate SomeSource(p: Path) {
    exists inner, stem :: SourceFile(p, inner, stem)
  }

  /** A source file that is not of unit tests only. */
  ghost predicate ProductionSource(p: Path) {
    exists inner, stem :: SourceFile(p, inner, stem) && "tests" !in inner && stem != "tests"
                          && forall x: string :: stem != x + "_tests"
  }

  ghost predicate NotBroad(table: Table, p: Path) {
    p in table.files ==> |table.files[p]| * 4 <= |table.tests|
  }

  /** The module file that declares a directory's modules. */
  ghost predicate Declares(f: Path, dir: Path) {
    exists above: Path, name: string :: dir == above + [name] && (f == above + [name + ".rs"] || f == dir + ["mod.rs"])
  }

  ghost predicate SameDirectory(f: Path, dir: Path) {
    exists name: string :: f == dir + [name]
  }

  /** `f` stands near `p`: a file beside it or the module that declares its directory; of
      a mod.rs that is its own directory and the one around it. */
  ghost predicate Beside(p: Path, f: Path) {
    f != p && exists dir: Path, name: string ::
      p == dir + [name]
      && if name == "mod.rs" then
           SameDirectory(f, dir) || NearAbove(f, dir)
         else SameDirectory(f, dir) || Declares(f, dir)
  }

  ghost predicate NearAbove(f: Path, dir: Path) {
    exists above: Path :: Around(dir, above) && (SameDirectory(f, above) || Declares(f, above))
  }

  ghost predicate Around(dir: Path, above: Path) {
    (dir == [] && above == []) || exists name: string :: dir == above + [name]
  }

  /** The table's entry of `f` has the test of key `k`, and is not broad. */
  ghost predicate Maps(table: Table, f: Path, k: string) {
    f in table.files && k in table.files[f] && NotBroad(table, f)
  }

  ghost predicate ToWiden(inp: Inputs, table: Table, p: Path) {
    && ProductionSource(p) && NotBroad(table, p)
    && (|| p in table.gated
        || (inp.now - table.generatedAt > 48 * 3600
            && ((p !in table.files && p !in inp.tableTree) || (inp.since.Some? && p in inp.since.value))))
  }

  /** The path selects the table's test of key `k`. */
  ghost predicate ByTable(inp: Inputs, table: Table, p: Path, k: string) {
    && k in table.tests
    && (|| Maps(table, p, k)
        || (ToWiden(inp, table, p) && exists f :: SomeSource(f) && Beside(p, f) && Maps(table, f, k)))
  }

  lemma InnerExact(p: Path, inner: Path, stem: string)
    ensures SourceFile(p, inner, stem) <==>
            IsSource(p) && p[|p| - 1] == stem + ".rs" && inner == if p[0] == "src" then p[1..|p| - 1] else p[3..|p| - 1]
  {
    if IsSource(p) && p[|p| - 1] == stem + ".rs" {
      if p[0] == "src" && inner == p[1..|p| - 1] {
        assert p == ["src"] + inner + [stem + ".rs"];
      } else if p[0] != "src" && inner == p[3..|p| - 1] {
        assert p == ["crates", p[1], "src"] + inner + [stem + ".rs"];
      }
    }
    if SourceFile(p, inner, stem) {
      EndsWithExact(stem + ".rs", ".rs");
      if p == ["src"] + inner + [stem + ".rs"] {
        assert p[0] == "src" && inner == p[1..|p| - 1];
      } else {
        var crate: string :| crate != "" && p == ["crates", crate, "src"] + inner + [stem + ".rs"];
        assert p[0] == "crates" && p[1] == crate && p[2] == "src" && inner == p[3..|p| - 1];
      }
    }
  }

  lemma SourceExact(p: Path)
    ensures IsSource(p) <==> SomeSource(p)
  {
    if IsSource(p) {
      var stem := p[|p| - 1][..|p[|p| - 1]| - 3];
      StemExact(p[|p| - 1], stem);
      InnerExact(p, if p[0] == "src" then p[1..|p| - 1] else p[3..|p| - 1], stem);
    }
    if SomeSource(p) {
      var inner, stem :| SourceFile(p, inner, stem);
      InnerExact(p, inner, stem);
    }
  }

  lemma UnitStemExact(stem: string)
    ensures stem + ".rs" == "tests.rs" <==> stem == "tests"
    ensures EndsWith(stem + ".rs", "_tests.rs") <==> exists x: string :: stem == x + "_tests"
  {
    var last := stem + ".rs";
    EndsWithExact(last, "_tests.rs");
    assert last[..|stem|] == stem && "tests.rs"[..5] == "tests" && "_tests" + ".rs" == "_tests.rs";
    if EndsWith(last, "_tests.rs") {
      var x := last[..|last| - 9];
      assert last == (x + "_tests") + ".rs";
      assert stem == last[..|last| - 3] == x + "_tests";
    }
    if x: string :| stem == x + "_tests" {
      assert last == x + "_tests.rs";
    }
  }

  lemma ProductionExact(p: Path)
    ensures ProductionSource(p) <==> IsSource(p) && !IsUnitTests(p)
  {
    SourceExact(p);
    if IsSource(p) {
      var last := p[|p| - 1];
      var stem := last[..|last| - 3];
      var inner := if p[0] == "src" then p[1..|p| - 1] else p[3..|p| - 1];
      StemExact(last, stem);
      InnerExact(p, inner, stem);
      UnitStemExact(stem);
      if ProductionSource(p) {
        var i, x :| SourceFile(p, i, x) && "tests" !in i && x != "tests" && forall y: string :: x != y + "_tests";
        InnerExact(p, i, x);
        StemExact(last, x);
      }
    }
    if ProductionSource(p) {
      assert SomeSource(p);
    }
  }

  lemma BroadExact(table: Table, p: Path)
    ensures NotBroad(table, p) <==> !BroadFile(table, p)
  {
  }

  lemma SameDirectoryExact(f: Path, dir: Path)
    requires f != []
    ensures SameDirectory(f, dir) <==> f[..|f| - 1] == dir
  {
    assert f == f[..|f| - 1] + [f[|f| - 1]];
    if name: string :| f == dir + [name] {
      assert f[..|f| - 1] == dir;
    }
  }

  lemma DeclaresExact(f: Path, dir: Path)
    ensures Declares(f, dir) <==>
            dir != [] && (f == dir[..|dir| - 1] + [dir[|dir| - 1] + ".rs"] || f == dir + ["mod.rs"])
  {
    if dir != [] {
      assert dir == dir[..|dir| - 1] + [dir[|dir| - 1]];
    }
    if above: Path, name: string :| dir == above + [name] && (f == above + [name + ".rs"] || f == dir + ["mod.rs"]) {
      assert dir[..|dir| - 1] == above && dir[|dir| - 1] == name;
    }
  }

  lemma AroundExact(dir: Path, above: Path)
    ensures Around(dir, above) <==> above == if dir == [] then [] else dir[..|dir| - 1]
  {
    if dir != [] {
      assert dir == dir[..|dir| - 1] + [dir[|dir| - 1]];
    }
    if name: string :| dir == above + [name] {
      assert dir[..|dir| - 1] == above;
    }
  }

  /** The same by the last segments. */
  predicate Nearby(f: Path, dir: Path, name: string, d: Path)
    requires f != []
  {
    || f[..|f| - 1] == d || (name == "mod.rs" && f[..|f| - 1] == dir)
    || (d != [] && (f == d[..|d| - 1] + [d[|d| - 1] + ".rs"] || f == d + ["mod.rs"]))
  }

  lemma NearbyExact(f: Path, dir: Path, name: string, d: Path)
    requires f != []
    ensures Nearby(f, dir, name, d) <==>
            SameDirectory(f, d) || (name == "mod.rs" && SameDirectory(f, dir)) || Declares(f, d)
  {
    SameDirectoryExact(f, dir);
    SameDirectoryExact(f, d);
    DeclaresExact(f, d);
    hide SameDirectory, Declares;
  }

  lemma BesideExact(p: Path, f: Path, dir: Path, name: string, d: Path)
    requires p == dir + [name] && f != [] && d == if name == "mod.rs" && dir != [] then dir[..|dir| - 1] else dir
    ensures Beside(p, f) <==> f != p && Nearby(f, dir, name, d)
  {
    BesideIn(p, f, dir, name);
    NearbyExact(f, dir, name, d);
    hide SameDirectory, Declares, NearAbove, Beside, Nearby;
    if name == "mod.rs" {
      OneAround(f, dir, d);
    }
  }

  lemma OneAround(f: Path, dir: Path, d: Path)
    requires d == if dir == [] then [] else dir[..|dir| - 1]
    ensures NearAbove(f, dir) <==> SameDirectory(f, d) || Declares(f, d)
  {
    AroundExact(dir, d);
    if above: Path :| Around(dir, above) && (SameDirectory(f, above) || Declares(f, above)) {
      AroundExact(dir, above);
    }
  }

  lemma BesideIn(p: Path, f: Path, dir: Path, name: string)
    requires p == dir + [name]
    ensures Beside(p, f) <==>
            f != p && if name == "mod.rs" then
                        SameDirectory(f, dir) || NearAbove(f, dir)
                      else SameDirectory(f, dir) || Declares(f, dir)
  {
    hide SameDirectory, Declares, NearAbove;
    forall d: Path, n: string | p == d + [n] ensures d == dir && n == name {
      assert p[..|p| - 1] == dir && p[..|p| - 1] == d && p[|p| - 1] == n;
    }
  }

  lemma NeighbourExact(table: Table, p: Path, f: Path)
    requires p != []
    ensures f in Neighbours(table, p) <==> f in table.files && SomeSource(f) && Beside(p, f) && NotBroad(table, f)
  {
    var dir, name := p[..|p| - 1], p[|p| - 1];
    var d := if name == "mod.rs" && dir != [] then dir[..|dir| - 1] else dir;
    NeighbourIs(table, p, f, dir, name, d);
    SourceExact(f);
    BroadExact(table, f);
    if f != [] {
      assert p == dir + [name];
      BesideExact(p, f, dir, name, d);
    }
    hide Neighbours, IsSource, BroadFile, NotBroad, SomeSource, Beside, Nearby;
  }

  lemma NeighbourIs(table: Table, p: Path, f: Path, dir: Path, name: string, d: Path)
    requires p == dir + [name] && d == if name == "mod.rs" && dir != [] then dir[..|dir| - 1] else dir
    ensures f in Neighbours(table, p) <==>
            f in table.files && f != [] && f != p && IsSource(f) && !BroadFile(table, f) && Nearby(f, dir, name, d)
    ensures IsSource(f) ==> f != []
  {
    assert p[..|p| - 1] == dir && p[|p| - 1] == name;
  }

  lemma WidenExact(inp: Inputs, table: Table, p: Path)
    ensures Widened(inp, table, p) <==> ToWiden(inp, table, p)
  {
    ProductionExact(p);
    BroadExact(table, p);
  }

  /** The table's lookup, with the widening, selects exactly those. */
  lemma TableExact(inp: Inputs, table: Table, p: Path, k: string)
    ensures k in SelectedBy(inp, table, p) <==> ByTable(inp, table, p, k)
  {
    WidenExact(inp, table, p);
    BroadExact(table, p);
    if Widened(inp, table, p) {
      NearExact(table, p, k);
    }
    hide Widened, ToWiden, BroadFile, NotBroad, NearTests, SomeSource, Beside;
  }

  lemma NearExact(table: Table, p: Path, k: string)
    requires p != []
    ensures k in NearTests(table, p) <==> k in table.tests && exists f :: SomeSource(f) && Beside(p, f) && Maps(table, f, k)
  {
    hide SomeSource, Beside, NotBroad, Neighbours;
    if k in NearTests(table, p) {
      var f :| f in Neighbours(table, p) && k in TestsReaching(table, f);
      NeighbourExact(table, p, f);
    }
    if k in table.tests {
      forall f | SomeSource(f) && Beside(p, f) && Maps(table, f, k) ensures k in NearTests(table, p) {
        NeighbourExact(table, p, f);
        assert k in TestsReaching(table, f);
      }
    }
  }

  /** A test of the table that some path selects. */
  ghost predicate TableTest(inp: Inputs, diff: set<Path>, t: Test)
    requires inp.table.Readable?
  {
    var table := inp.table.table;
    exists p, k :: p in diff && ByTable(inp, table, p, k) && table.tests[k].binaryId == t.binaryId && table.tests[k].name == t.name
  }

  lemma TableTestExact(inp: Inputs, diff: set<Path>, t: Test)
    requires inp.table.Readable?
    ensures (exists f :: OneOf(inp.table.table, FromTable(inp, inp.table.table, diff), f) && Matches(f, t)) <==>
            TableTest(inp, diff, t)
  {
    var table := inp.table.table;
    var keys := FromTable(inp, table, diff);
    if f :| OneOf(table, keys, f) && Matches(f, t) {
      var k :| k in keys && f == One(table.tests[k].binaryId, table.tests[k].name);
      var p :| p in diff && k in SelectedBy(inp, table, p);
      TableExact(inp, table, p, k);
    }
    if TableTest(inp, diff, t) {
      var p, k :| p in diff && ByTable(inp, table, p, k) && table.tests[k].binaryId == t.binaryId && table.tests[k].name == t.name;
      TableExact(inp, table, p, k);
      assert k in keys && OneOf(table, keys, One(t.binaryId, t.name));
    }
  }

  // ----- findings and unknown tests

  /** A test finding names the test: by binary id and name, or by its name alone. */
  ghost predicate Named(x: Finding, t: Test) {
    && x.isTest
    && (|| (x.name == t.binaryId + " " + t.name && ' ' !in t.binaryId)
        || (x.name == t.name && ' ' !in x.name))
  }

  lemma SpaceAt(name: string, before: string, after: string)
    requires name == before + " " + after && ' ' !in before
    ensures FirstSpace(name) == |before| && name[..|before|] == before && name[|before| + 1..] == after
  {
    var i := FirstSpace(name);
    assert forall k :: 0 <= k < i ==> name[..i][k] == name[k];
    assert forall k :: 0 <= k < i ==> name[k] != ' ';
    assert name[|before|] == ' ' && forall k :: 0 <= k < |before| ==> name[k] == before[k];
    assert forall k :: 0 <= k < |before| ==> before[k] != ' ';
  }

  lemma NamedExact(x: Finding, t: Test)
    ensures Named(x, t) <==> x.isTest && Matches(FindingFilter(x.name), t)
  {
    var i := FirstSpace(x.name);
    if i < |x.name| {
      assert x.name == x.name[..i] + " " + x.name[i + 1..] && x.name[i] in x.name;
    } else {
      assert x.name[..i] == x.name;
    }
    if x.name == t.binaryId + " " + t.name && ' ' !in t.binaryId {
      SpaceAt(x.name, t.binaryId, t.name);
    }
  }

  ghost predicate AnyNames(findings: seq<Finding>, t: Test) {
    exists x :: x in findings && Named(x, t)
  }

  lemma FindingsExact(findings: seq<Finding>, t: Test)
    ensures (exists f :: FindingNames(findings, f) && Matches(f, t)) <==> AnyNames(findings, t)
  {
    if f :| FindingNames(findings, f) && Matches(f, t) {
      var x :| x in findings && x.isTest && FindingFilter(x.name) == f;
      NamedExact(x, t);
    }
    if x :| x in findings && Named(x, t) {
      NamedExact(x, t);
      assert FindingNames(findings, FindingFilter(x.name));
    }
  }

  /** The test is listed, the last of its key, and the table has no test of that key. */
  ghost predicate NotInTable(inp: Inputs, t: Test)
    requires inp.table.Readable?
  {
    var key := t.binaryId + "::" + t.name;
    key !in inp.table.table.tests && LastListed(inp.listing, key, t)
  }

  /** The last selected case written so is the test's. */
  ghost predicate LastListed(listing: seq<Case>, key: string, t: Test) {
    exists i :: 0 <= i < |listing| && listing[i].selected && listing[i].binaryId == t.binaryId && listing[i].name == t.name
                && forall j :: i < j < |listing| ==> !WrittenSo(listing[j], key)
  }

  ghost predicate WrittenSo(c: Case, key: string) {
    c.selected && c.binaryId + "::" + c.name == key
  }

  lemma {:induction false} ListedExact(listing: seq<Case>, key: string, t: Test)
    requires key == t.binaryId + "::" + t.name
    ensures (key in CurrentIts(listing) && CurrentIts(listing)[key].binaryId == t.binaryId && CurrentIts(listing)[key].name == t.name)
            <==> LastListed(listing, key, t)
  {
    if listing != [] {
      var n := |listing| - 1;
      var last, before := listing[n], listing[..n];
      ListedExact(before, key, t);
      assert forall i :: 0 <= i < n ==> before[i] == listing[i];
      if WrittenSo(last, key) {
        if LastListed(listing, key, t) {
          var i :| 0 <= i < |listing| && listing[i].selected && listing[i].binaryId == t.binaryId && listing[i].name == t.name
                   && forall j :: i < j < |listing| ==> !WrittenSo(listing[j], key);
          assert i == n;
        }
      } else {
        LastListedMore(before, last, key, t);
        assert listing == before + [last];
      }
    }
  }

  lemma LastListedMore(before: seq<Case>, last: Case, key: string, t: Test)
    requires key == t.binaryId + "::" + t.name && !WrittenSo(last, key)
    ensures LastListed(before + [last], key, t) <==> LastListed(before, key, t)
  {
    var all, n := before + [last], |before|;
    assert all[n] == last && forall i :: 0 <= i < n ==> all[i] == before[i];
    if LastListed(all, key, t) {
      var i :| 0 <= i < |all| && all[i].selected && all[i].binaryId == t.binaryId && all[i].name == t.name
               && forall j :: i < j < |all| ==> !WrittenSo(all[j], key);
      assert i != n;
      assert forall j :: i < j < n ==> !WrittenSo(all[j], key);
    }
    if LastListed(before, key, t) {
      var i :| 0 <= i < n && before[i].selected && before[i].binaryId == t.binaryId && before[i].name == t.name
               && forall j :: i < j < n ==> !WrittenSo(before[j], key);
      assert forall j :: i < j < |all| ==> !WrittenSo(all[j], key);
    }
  }

  lemma UnknownExact(inp: Inputs, t: Test)
    requires inp.table.Readable?
    ensures (exists f :: UnknownTest(inp, f) && Matches(f, t)) <==> NotInTable(inp, t)
  {
    var key, listed := t.binaryId + "::" + t.name, CurrentIts(inp.listing);
    ListedExact(inp.listing, key, t);
    if f :| UnknownTest(inp, f) && Matches(f, t) {
      var k :| k in listed && k !in inp.table.table.tests && f == One(listed[k].binaryId, listed[k].name);
      assert k == key;
    }
    if NotInTable(inp, t) {
      assert UnknownTest(inp, One(listed[key].binaryId, listed[key].name));
    }
  }

  // ----- the threshold

  /** The durations of the listed tests of the table, a missing one being 0. */
  function DurationsAt(table: Table, ks: seq<string>): seq<int>
    requires forall i :: 0 <= i < |ks| ==> ks[i] in table.tests
  {
    seq(|ks|, i requires 0 <= i < |ks| => match table.tests[ks[i]].duration
                                          case Some(d) => d
                                          case None => 0)
  }

  /** `ks` lists the set, each key once. */
  ghost predicate ListsSet(ks: seq<string>, s: set<string>) {
    && (forall i, j :: 0 <= i < j < |ks| ==> ks[i] != ks[j])
    && (forall k :: k in ks <==> k in s)
  }

  lemma FewerListed(ks: seq<string>, keys: set<string>)
    requires ks != [] && ListsSet(ks, keys)
    ensures ks[|ks| - 1] in keys && ListsSet(ks[..|ks| - 1], keys - {ks[|ks| - 1]})
  {
    var n := |ks| - 1;
    var fewer, k := ks[..n], ks[n];
    assert ks == fewer + [k] && k in ks;
    forall x ensures x in fewer <==> x in keys - {k} {
      if x in fewer {
        var i :| 0 <= i < n && fewer[i] == x;
        assert ks[i] != ks[n];
      }
    }
  }

  lemma ListedInTable(table: Table, ks: seq<string>, keys: set<string>)
    requires ListsSet(ks, keys) && keys <= table.tests.Keys
    ensures forall i :: 0 <= i < |ks| ==> ks[i] in table.tests
  {
    forall i | 0 <= i < |ks| ensures ks[i] in table.tests {
      assert ks[i] in ks;
    }
  }

  lemma {:induction false} DurationsListed(table: Table, ks: seq<string>, keys: set<string>)
    requires ListsSet(ks, keys) && keys <= table.tests.Keys
    ensures forall i :: 0 <= i < |ks| ==> ks[i] in table.tests
    ensures multiset(DurationsAt(table, ks)) == multiset(Durations(table, keys))
    decreases |ks|
  {
    ListedInTable(table, ks, keys);
    if ks == [] {
      assert keys == {};
      assert DurationsAt(table, ks) == [];
    } else {
      var n := |ks| - 1;
      FewerListed(ks, keys);
      DurationsAtLast(table, ks);
      hide ListsSet, DurationsAt, Durations, Duration;
      DurationsListed(table, ks[..n], keys - {ks[n]});
      DurationsWithout(table, keys, ks[n]);
    }
  }

  lemma DurationsAtLast(table: Table, ks: seq<string>)
    requires ks != [] && forall i :: 0 <= i < |ks| ==> ks[i] in table.tests
    ensures DurationsAt(table, ks) == DurationsAt(table, ks[..|ks| - 1]) + [Duration(table, ks[|ks| - 1])]
  {
  }

  /** The selected tests take more than half of what all tests of the table take. */
  lemma ThresholdExact(table: Table, keys: set<string>, threads: int, ks: seq<string>, all: seq<string>)
    requires ListsSet(ks, keys) && keys <= table.tests.Keys && ListsSet(all, table.tests.Keys)
    ensures forall i :: 0 <= i < |ks| ==> ks[i] in table.tests
    ensures forall i :: 0 <= i < |all| ==> all[i] in table.tests
    ensures OverThreshold(table, keys, threads) <==>
            2.0 * Wall.Wall(DurationsAt(table, ks), threads) > Wall.Wall(DurationsAt(table, all), threads)
  {
    DurationsListed(table, ks, keys);
    DurationsListed(table, all, table.tests.Keys);
    Wall.WallOfPermutation(DurationsAt(table, ks), Durations(table, keys), threads);
    Wall.WallOfPermutation(DurationsAt(table, all), Durations(table, table.tests.Keys), threads);
  }

  // ----- the whole choice, on tests

  /** Something makes the landing run every integration test. */
  ghost predicate AllRun(inp: Inputs, diff: set<Path>) {
    || inp.forced || !inp.table.Readable?
    || inp.now - inp.table.table.generatedAt > 7 * 24 * 3600
    || (exists p :: p in diff && (IsCommon(p) || HelperForAll(inp.tree, p)))
    || (inp.now - inp.table.table.generatedAt > 48 * 3600 && inp.since.None?)
    || OverThreshold(inp.table.table, FromTable(inp, inp.table.table, diff), inp.threads)
  }

  lemma AllRunExact(inp: Inputs, diff: set<Path>)
    ensures RunsAll(inp, diff) <==> AllRun(inp, diff)
  {
    hide HelperRunsAll, HelperForAll, CommonFile, IsCommon, OverThreshold, FromTable;
    forall p ensures (CommonFile(p) <==> IsCommon(p)) && (HelperRunsAll(inp.tree, p) <==> HelperForAll(inp.tree, p)) {
      CommonExact(p);
      HelperForAllExact(inp.tree, p);
    }
  }

  /** A narrowed run has the test: the table maps a path to it, a changed file defines
      it, it reads one, it uses a changed helper, the table does not know it, or a
      finding kept for a task names it. */
  ghost predicate Narrowed(inp: Inputs, diff: set<Path>, t: Test)
    requires inp.table.Readable?
  {
    || TableTest(inp, diff, t)
    || (exists p :: p in diff && (InTestFile(p, t) || ReadBy(p, t) || ByHelper(inp.tree, p, t)))
    || NotInTable(inp, t)
    || AnyNames(inp.keptForTask, t)
  }

  lemma PathsExact(diff: set<Path>, t: Test)
    ensures (exists p, f :: p in diff && PathFilter(p, f) && Matches(f, t)) <==>
            exists p :: p in diff && (InTestFile(p, t) || ReadBy(p, t))
  {
    if p, f :| p in diff && PathFilter(p, f) && Matches(f, t) {
      TestFileExact(p, t);
      ReadersExact(p, t);
    }
    if p :| p in diff && (InTestFile(p, t) || ReadBy(p, t)) {
      TestFileExact(p, t);
      ReadersExact(p, t);
      if InTestFile(p, t) {
        assert PathFilter(p, TestFileFilter(p).value);
      } else {
        var f :| f in ReadByTests(p) && Matches(f, t);
        assert PathFilter(p, f);
      }
    }
  }

  lemma NarrowedExact(inp: Inputs, diff: set<Path>, t: Test)
    requires inp.table.Readable?
    ensures (exists f :: Narrows(inp, diff, f) && Matches(f, t)) <==> Narrowed(inp, diff, t)
  {
    TableTestExact(inp, diff, t);
    PathsExact(diff, t);
    HelpersExact(inp.tree, diff, t);
    UnknownExact(inp, t);
    FindingsExact(inp.keptForTask, t);
    hide OneOf, FromTable, PathFilter, ModuleOf, HelperModules, UnknownTest, FindingNames, Matches;
    hide TableTest, InTestFile, ReadBy, ByHelper, NotInTable, AnyNames;
  }

  /** The tests a landing runs, written out: an integration test that no known failure
      names, when every test runs or a narrowed run has it, and no other. */
  lemma RunsExactly(inp: Inputs, diff: set<Path>, t: Test)
    ensures Runs(inp, diff, t) <==>
            && t.kind == IntegrationTest && t.binary != "e2e" && !AnyNames(inp.failures, t)
            && (AllRun(inp, diff) || Narrowed(inp, diff, t))
  {
    AllRunExact(inp, diff);
    FindingsExact(inp.failures, t);
    if inp.table.Readable? {
      NarrowedExact(inp, diff, t);
    }
    hide RunsAll, AllRun, Narrows, Narrowed, FindingNames, AnyNames, Matches;
  }

  /** The choice of `choose` picks exactly those. */
  lemma ChoiceExactly(inp: Inputs, diff: set<Path>, c: Choice, t: Test)
    requires IsChoice(inp, diff, c) && t.kind == IntegrationTest && t.binary != "e2e"
    ensures Picks(c, t) <==> !AnyNames(inp.failures, t) && (AllRun(inp, diff) || Narrowed(inp, diff, t))
  {
    ChoicePicks(inp, diff, c, t);
    RunsExactly(inp, diff, t);
  }
}
