/** The test helpers under tests/common that a landing's diff changes, and the
    test modules that use them (scripts/landing-it.py). */
module LandingHelpers {
  import opened Graphs
  import opened Sums

  /** A path split at "/"; no segment holds a "/" or a newline. */
  type Path = seq<string>

  /** A test module: "it::<name>" of tests/it, or tests/plugin.rs. */
  datatype ModuleKey = It(name: string) | Plugin

  datatype Module = Module(helpers: set<string>, refs: set<string>, defines: set<string>,
                           calls: set<string>, tests: nat)

  /** What `test_tree` reads: which helpers each helper names, the modules, and
      the number of tests of every integration test file. */
  datatype TestTree = TestTree(deps: map<string, set<string>>, modules: map<ModuleKey, Module>, total: nat)

  predicate EndsWith(s: string, suffix: string) {
    |suffix| <= |s| && s[|s| - |suffix|..] == suffix
  }

  // ----- the users of the changed helpers

  /** `later` names `earlier`, so a change of `earlier` reaches `later`. */
  ghost predicate NamedBy(tree: TestTree, earlier: string, later: string) {
    later in tree.deps && earlier in tree.deps[later]
  }

  /** The tests/it module `later` names module `earlier` or calls one of its macros. */
  ghost predicate ModuleUsedBy(tree: TestTree, earlier: ModuleKey, later: ModuleKey) {
    && earlier in tree.modules && later in tree.modules && later.It?
    && (|| (earlier.It? && earlier.name in tree.modules[later].refs)
        || tree.modules[later].calls * tree.modules[earlier].defines != {})
  }

  ghost function HelperNext(tree: TestTree): (string, string) -> bool {
    (a, b) => NamedBy(tree, a, b)
  }

  ghost function ModuleNext(tree: TestTree): (ModuleKey, ModuleKey) -> bool {
    (a, b) => ModuleUsedBy(tree, a, b)
  }

  /** A chain of helpers leads from the changed helper `c` to `h`. */
  ghost predicate HelperReached(tree: TestTree, c: string, h: string) {
    Reaches(HelperNext(tree), c, h)
  }

  /** A chain of modules leads from module `m` to module `k`. */
  ghost predicate ModuleReached(tree: TestTree, m: ModuleKey, k: ModuleKey) {
    Reaches(ModuleNext(tree), m, k)
  }

  /** Helper `h` is reached from one of the changed helpers. */
  ghost predicate Affected(tree: TestTree, changed: set<string>, h: string) {
    exists c :: c in changed && HelperReached(tree, c, h)
  }

  /** Module `m` itself names a helper reached from a changed one. */
  ghost predicate NamesAffected(tree: TestTree, changed: set<string>, m: ModuleKey) {
    m in tree.modules && exists h :: h in tree.modules[m].helpers && Affected(tree, changed, h)
  }

  /** Module `k` uses a changed helper: helpers lead from it to one that some
      module names, and modules lead from that module to `k`. */
  ghost predicate Uses(tree: TestTree, changed: set<string>, k: ModuleKey) {
    exists m :: NamesAffected(tree, changed, m) && ModuleReached(tree, m, k)
  }

  /** The modules that use one of `changed`: the meaning of `helper_users`. */
  ghost function Users(tree: TestTree, changed: set<string>): set<ModuleKey> {
    set k | k in tree.modules && Uses(tree, changed, k)
  }

  /** The helpers one round of the first loop adds. */
  method MoreHelpers(tree: TestTree, reached: set<string>) returns (more: set<string>)
    ensures more !! reached && more <= tree.deps.Keys
    ensures forall h :: h in more ==> exists d :: d in reached && NamedBy(tree, d, h)
    ensures more == {} ==> forall d, h :: d in reached && NamedBy(tree, d, h) ==> h in reached
  {
    more := (set h | h in tree.deps && tree.deps[h] * reached != {}) - reached;
    assert forall h :: h in more ==> exists d :: d in tree.deps[h] * reached;
    forall d, h | d in reached && NamedBy(tree, d, h) ensures h in reached + more {
      assert d in tree.deps[h] * reached;
    }
  }

  /** The modules one round of the second loop adds. */
  method MoreUsers(tree: TestTree, users: set<ModuleKey>) returns (more: set<ModuleKey>)
    requires users <= tree.modules.Keys
    ensures more !! users && more <= tree.modules.Keys
    ensures forall k :: k in more ==> UsedFrom(tree, users, k)
    ensures more == {} ==> Closed(ModuleNext(tree), users)
  {
    var names := set u | u in users && u.It? :: u.name;
    var macros := set u, x | u in users && x in tree.modules[u].defines :: x;
    more := set k | k in tree.modules && k !in users && k.It?
                    && (tree.modules[k].refs * names != {} || tree.modules[k].calls * macros != {});
    forall k | k in more ensures UsedFrom(tree, users, k) {
      if tree.modules[k].refs * names != {} {
        var n :| n in tree.modules[k].refs * names;
        assert ModuleUsedBy(tree, It(n), k);
      } else {
        var x :| x in tree.modules[k].calls * macros;
        var u :| u in users && x in tree.modules[u].defines;
        assert x in tree.modules[k].calls * tree.modules[u].defines;
        assert ModuleUsedBy(tree, u, k);
      }
    }
    forall u, k | u in users && ModuleUsedBy(tree, u, k) ensures k in users + more {
      if u.It? && u.name in tree.modules[k].refs {
        assert u.name in tree.modules[k].refs * names;
      } else {
        var x :| x in tree.modules[k].calls * tree.modules[u].defines;
        assert x in tree.modules[k].calls * macros;
      }
    }
  }

  lemma AffectedStep(tree: TestTree, changed: set<string>, d: string, h: string)
    requires Affected(tree, changed, d) && NamedBy(tree, d, h)
    ensures Affected(tree, changed, h)
  {
    var c :| c in changed && HelperReached(tree, c, d);
    ReachesStep(HelperNext(tree), c, d, h);
  }

  lemma ChangedIsAffected(tree: TestTree, changed: set<string>, c: string)
    requires c in changed
    ensures Affected(tree, changed, c)
  {
    ReachesSelf(HelperNext(tree), c);
  }

  lemma ClosedHoldsAffected(tree: TestTree, changed: set<string>, s: set<string>, h: string)
    requires changed <= s && Affected(tree, changed, h)
    requires forall d, k :: d in s && NamedBy(tree, d, k) ==> k in s
    ensures h in s
  {
    var c :| c in changed && HelperReached(tree, c, h);
    ClosedHoldsReached(HelperNext(tree), s, c, h);
  }

  /** The first closure: the changed helpers and every helper that names one of
      them, through others or not. */
  method ReachedHelpers(tree: TestTree, changed: set<string>) returns (reached: set<string>)
    ensures forall h :: h in reached <==> Affected(tree, changed, h)
  {
    reached := changed;
    forall c | c in changed ensures Affected(tree, changed, c) {
      ChangedIsAffected(tree, changed, c);
    }
    while true
      invariant changed <= reached
      invariant forall h :: h in reached ==> Affected(tree, changed, h)
      decreases tree.deps.Keys - reached
    {
      var more := MoreHelpers(tree, reached);
      if more == {} {
        break;
      }
      forall h | h in more ensures Affected(tree, changed, h) {
        var d :| d in reached && NamedBy(tree, d, h);
        AffectedStep(tree, changed, d, h);
      }
      GrowingShrinksRest(tree.deps.Keys, reached, more);
      reached := reached + more;
    }
    forall h | Affected(tree, changed, h) ensures h in reached {
      ClosedHoldsAffected(tree, changed, reached, h);
    }
  }

  /** One of `users` is used by module `k`. */
  ghost predicate UsedFrom(tree: TestTree, users: set<ModuleKey>, k: ModuleKey) {
    exists u :: u in users && ModuleUsedBy(tree, u, k)
  }

  lemma UsesStep(tree: TestTree, changed: set<string>, users: set<ModuleKey>, k: ModuleKey)
    requires forall u :: u in users ==> Uses(tree, changed, u)
    requires UsedFrom(tree, users, k)
    ensures Uses(tree, changed, k)
  {
    var u :| u in users && ModuleUsedBy(tree, u, k);
    var m :| NamesAffected(tree, changed, m) && ModuleReached(tree, m, u);
    ReachesStep(ModuleNext(tree), m, u, k);
  }

  lemma NamingIsUsing(tree: TestTree, changed: set<string>, m: ModuleKey)
    requires NamesAffected(tree, changed, m)
    ensures Uses(tree, changed, m)
  {
    ReachesSelf(ModuleNext(tree), m);
  }

  /** The users are within every set that holds the modules naming an affected
      helper and is closed under module use: they are the least fixpoint. */
  lemma UsersAreLeast(tree: TestTree, changed: set<string>, s: set<ModuleKey>)
    requires forall m :: NamesAffected(tree, changed, m) ==> m in s
    requires Closed(ModuleNext(tree), s)
    ensures Users(tree, changed) <= s
  {
    forall k | k in Users(tree, changed) ensures k in s {
      var m :| NamesAffected(tree, changed, m) && ModuleReached(tree, m, k);
      ClosedHoldsReached(ModuleNext(tree), s, m, k);
    }
  }

  /** The modules that name a reached helper themselves. */
  method DirectUsers(tree: TestTree, changed: set<string>) returns (users: set<ModuleKey>)
    ensures users <= tree.modules.Keys
    ensures forall m :: m in users <==> NamesAffected(tree, changed, m)
  {
    var reached := ReachedHelpers(tree, changed);
    users := set k | k in tree.modules && tree.modules[k].helpers * reached != {};
    forall m | m in users ensures NamesAffected(tree, changed, m) {
      var h :| h in tree.modules[m].helpers * reached;
    }
    forall m | NamesAffected(tree, changed, m) ensures m in users {
      var h :| h in tree.modules[m].helpers && Affected(tree, changed, h);
      assert h in tree.modules[m].helpers * reached;
    }
  }

  /** `helper_users`: both closures, each grown until a round adds nothing. */
  method HelperUsers(tree: TestTree, changed: set<string>) returns (users: set<ModuleKey>)
    ensures users == Users(tree, changed)
  {
    users := DirectUsers(tree, changed);
    forall k | k in users ensures Uses(tree, changed, k) {
      NamingIsUsing(tree, changed, k);
    }
    while true
      invariant users <= tree.modules.Keys
      invariant forall m :: NamesAffected(tree, changed, m) ==> m in users
      invariant forall k :: k in users ==> Uses(tree, changed, k)
      decreases tree.modules.Keys - users
    {
      var more := MoreUsers(tree, users);
      if more == {} {
        break;
      }
      forall k | k in more ensures Uses(tree, changed, k) {
        UsesStep(tree, changed, users, k);
      }
      GrowingShrinksRest(tree.modules.Keys, users, more);
      users := users + more;
    }
    UsersAreLeast(tree, changed, users);
  }

  /** The users of a union are the union of the users, so asking about one
      changed helper at a time loses no module. */
  lemma UsersOfUnion(tree: TestTree, a: set<string>, b: set<string>)
    ensures Users(tree, a + b) == Users(tree, a) + Users(tree, b)
  {
    assert forall h :: Affected(tree, a + b, h) <==> Affected(tree, a, h) || Affected(tree, b, h);
    assert forall m :: NamesAffected(tree, a + b, m) <==> NamesAffected(tree, a, m) || NamesAffected(tree, b, m);
    assert forall k :: Uses(tree, a + b, k) <==> Uses(tree, a, k) || Uses(tree, b, k);
  }

  /** The set holds the changed helpers and every helper whose own names are in it. */
  ghost predicate HelperClosed(tree: TestTree, changed: set<string>, s: set<string>) {
    changed <= s && forall h, d :: h in tree.deps && d in tree.deps[h] && d in s ==> h in s
  }

  /** The set holds the modules that name one of the helpers, and the tests/it modules
      that refer to one of its modules or call a macro one of them defines. */
  ghost predicate UserClosed(tree: TestTree, reached: set<string>, s: set<ModuleKey>) {
    && (forall k :: k in tree.modules && tree.modules[k].helpers * reached != {} ==> k in s)
    && (forall u, k :: u in s && u in tree.modules && k in tree.modules && RefersOrCalls(tree, k, u) ==> k in s)
  }

  ghost predicate RefersOrCalls(tree: TestTree, k: ModuleKey, u: ModuleKey)
    requires k in tree.modules && u in tree.modules
  {
    && k.It?
    && (|| (u.It? && u.name in tree.modules[k].refs)
        || exists macro :: macro in tree.modules[u].defines && macro in tree.modules[k].calls)
  }

  /** The users are the least such set of modules, over the least such set of helpers. */
  lemma UsersExact(tree: TestTree, changed: set<string>, reached: set<string>)
    requires HelperClosed(tree, changed, reached) && forall s :: HelperClosed(tree, changed, s) ==> reached <= s
    ensures Users(tree, changed) <= tree.modules.Keys && UserClosed(tree, reached, Users(tree, changed))
    ensures forall s :: UserClosed(tree, reached, s) ==> Users(tree, changed) <= s
  {
    ReachedExact(tree, changed, reached);
    var users := Users(tree, changed);
    forall k | k in tree.modules && tree.modules[k].helpers * reached != {} ensures k in users {
      var h :| h in tree.modules[k].helpers * reached;
      assert NamesAffected(tree, changed, k);
      NamingIsUsing(tree, changed, k);
    }
    forall u, k | u in users && k in tree.modules && RefersOrCalls(tree, k, u) ensures k in users {
      ModuleUsedExact(tree, u, k);
      assert UsedFrom(tree, users, k);
      UsesStep(tree, changed, users, k);
    }
    forall s | UserClosed(tree, reached, s) ensures users <= s {
      forall m | NamesAffected(tree, changed, m) ensures m in s {
        var h :| h in tree.modules[m].helpers && Affected(tree, changed, h);
        assert h in tree.modules[m].helpers * reached;
      }
      forall u, k | u in s && ModuleUsedBy(tree, u, k) ensures k in s {
        ModuleUsedExact(tree, u, k);
      }
      UsersAreLeast(tree, changed, s);
    }
  }

  lemma ModuleUsedExact(tree: TestTree, u: ModuleKey, k: ModuleKey)
    requires u in tree.modules && k in tree.modules
    ensures ModuleUsedBy(tree, u, k) <==> RefersOrCalls(tree, k, u)
  {
    var both := tree.modules[k].calls * tree.modules[u].defines;
    assert both != {} ==> exists macro :: macro in both;
    if macro :| macro in tree.modules[u].defines && macro in tree.modules[k].calls {
      assert macro in both;
    }
  }

  lemma ReachedExact(tree: TestTree, changed: set<string>, reached: set<string>)
    requires HelperClosed(tree, changed, reached) && forall s :: HelperClosed(tree, changed, s) ==> reached <= s
    ensures forall h :: h in reached <==> Affected(tree, changed, h)
  {
    forall h | Affected(tree, changed, h) ensures h in reached {
      ClosedHoldsAffected(tree, changed, reached, h);
    }
    var all := set h | h in changed + tree.deps.Keys && Affected(tree, changed, h);
    forall c | c in changed ensures c in all {
      ChangedIsAffected(tree, changed, c);
    }
    forall h, d | h in tree.deps && d in tree.deps[h] && d in all ensures h in all {
      AffectedStep(tree, changed, d, h);
    }
    assert HelperClosed(tree, changed, all);
  }

  // ----- what a diff's helper files choose

  /** A file under tests/common. */
  predicate UnderHelpers(p: Path) {
    |p| >= 3 && p[0] == "tests" && p[1] == "common"
  }

  datatype Helper = NoHelper | Helper(name: string)

  /** The helper a file under tests/common belongs to. */
  function HelperOf(p: Path): Helper
    requires UnderHelpers(p)
  {
    var last := p[|p| - 1];
    if !EndsWith(last, ".rs") then NoHelper
    else if |p| > 3 then (if p[2] == "" then NoHelper else Helper(p[2]))
    else if |last| > 3 then Helper(last[..|last| - 3]) else NoHelper
  }

  lemma EndsWithExact(s: string, suffix: string)
    ensures EndsWith(s, suffix) <==> exists pre :: s == pre + suffix
    ensures EndsWith(s, suffix) ==> s == s[..|s| - |suffix|] + suffix
  {
    if EndsWith(s, suffix) {
      assert s == s[..|s| - |suffix|] + suffix;
    }
    if pre :| s == pre + suffix {
      assert s[|s| - |suffix|..] == suffix;
    }
  }

  /** A helper's file: its own, or a `.rs` file at any depth under its directory. */
  ghost predicate HelperFile(p: Path, h: string) {
    h != "" && (p == ["tests", "common", h + ".rs"] || InHelper(p, h))
  }

  ghost predicate InHelper(p: Path, h: string) {
    exists dirs: Path, stem: string :: p == ["tests", "common", h] + dirs + [stem + ".rs"]
  }

  lemma InHelperExact(p: Path, h: string)
    ensures InHelper(p, h) <==>
            |p| > 3 && p[0] == "tests" && p[1] == "common" && p[2] == h && EndsWith(p[|p| - 1], ".rs")
  {
    if |p| > 3 && p[0] == "tests" && p[1] == "common" && p[2] == h && EndsWith(p[|p| - 1], ".rs") {
      EndsWithExact(p[|p| - 1], ".rs");
      var stem := p[|p| - 1][..|p[|p| - 1]| - 3];
      assert p == ["tests", "common", h] + p[3..|p| - 1] + [stem + ".rs"];
    }
    if InHelper(p, h) {
      var dirs: Path, stem: string :| p == ["tests", "common", h] + dirs + [stem + ".rs"];
      assert p[|p| - 1] == stem + ".rs";
      EndsWithExact(p[|p| - 1], ".rs");
    }
  }

  /** The file under tests/common is of helper `h` exactly so. */
  lemma HelperOfExact(p: Path, h: string)
    requires UnderHelpers(p)
    ensures HelperOf(p) == Helper(h) <==> HelperFile(p, h)
  {
    var last := p[|p| - 1];
    InHelperExact(p, h);
    EndsWithExact(last, ".rs");
    if |p| == 3 {
      assert p == ["tests", "common", last];
      if last == h + ".rs" {
        assert last[..|last| - 3] == h;
      }
    }
  }

  function TestsOf(tree: TestTree): ModuleKey -> int {
    k => if k in tree.modules then tree.modules[k].tests else 0
  }

  /** The users hold more than a quarter of the tests. */
  ghost predicate Broad(tree: TestTree, users: set<ModuleKey>) {
    4 * Sum(TestsOf(tree), users) > tree.total
  }

  datatype HelperReason = NotAHelper(path: Path) | BroadHelper(tests: int, total: nat, path: Path)

  /** Path `p` of the diff makes every integration test run. */
  ghost predicate HelperRunsAll(tree: TestTree, p: Path) {
    && UnderHelpers(p)
    && (HelperOf(p).NoHelper? || Broad(tree, Users(tree, {HelperOf(p).name})))
  }

  /** The file `p` selects the modules that use its helper. */
  ghost predicate HelperSelects(tree: TestTree, p: Path, k: ModuleKey) {
    && UnderHelpers(p) && HelperOf(p).Helper? && !HelperRunsAll(tree, p)
    && k in Users(tree, {HelperOf(p).name})
  }

  /** The modules the diff's helper files select. */
  ghost function HelperModules(tree: TestTree, diff: set<Path>): set<ModuleKey> {
    set k | k in tree.modules && exists p :: p in diff && HelperSelects(tree, p, k)
  }

  method SumTests(tree: TestTree, users: set<ModuleKey>) returns (n: int)
    ensures n == Sum(TestsOf(tree), users)
  {
    var rest := users;
    n := 0;
    while rest != {}
      invariant n + Sum(TestsOf(tree), rest) == Sum(TestsOf(tree), users)
      decreases rest
    {
      var k :| k in rest;
      SumRemove(TestsOf(tree), rest, k);
      n := n + TestsOf(tree)(k);
      rest := rest - {k};
    }
  }

  /** One path of the diff under tests/common. */
  method ChooseHelper(tree: TestTree, p: Path) returns (reason: seq<HelperReason>, modules: set<ModuleKey>)
    requires UnderHelpers(p)
    ensures reason != [] <==> HelperRunsAll(tree, p)
    ensures reason != [] ==> reason[0].path == p && |reason| == 1
    ensures forall k :: k in modules <==> HelperSelects(tree, p, k)
  {
    var h := HelperOf(p);
    if h.NoHelper? {
      return [NotAHelper(p)], {};
    }
    var users := HelperUsers(tree, {h.name});
    var n := SumTests(tree, users);
    if 4 * n > tree.total {
      return [BroadHelper(n, tree.total, p)], {};
    }
    return [], users;
  }

  /** `helper_choice`: the reasons to run everything, and otherwise the modules
      (one filterset each) that use the changed helpers. */
  method HelperChoice(tree: TestTree, diff: seq<Path>) returns (reasons: seq<HelperReason>, modules: set<ModuleKey>)
    ensures reasons != [] <==> exists p :: p in diff && HelperRunsAll(tree, p)
    ensures modules == HelperModules(tree, set p | p in diff)
  {
    reasons, modules := [], {};
    for i := 0 to |diff|
      invariant reasons != [] <==> exists p :: p in diff[..i] && HelperRunsAll(tree, p)
      invariant forall k :: k in modules <==> exists p :: p in diff[..i] && HelperSelects(tree, p, k)
    {
      assert diff[..i + 1] == diff[..i] + [diff[i]];
      if UnderHelpers(diff[i]) {
        var reason, more := ChooseHelper(tree, diff[i]);
        reasons, modules := reasons + reason, modules + more;
      }
    }
    assert diff[..|diff|] == diff;
  }
}
