/** The table of what each test covers, and its index by file
    (`build_table` of scripts/it-coverage-map.py). */
module CoverageTable {
  import opened Wrappers
  import opened Sorting
  import opened CoverageParts
  import opened CoverageRuns

  datatype Row = Row(binary: string, name: string, secs: Option<int>, status: string, coverage: bool, files: nat)

  datatype Table = Table(commit: string, platform: string, tests: map<string, Row>, files: map<string, seq<string>>)

  function Key(t: TestId): string {
    t.binary + "::" + t.name
  }

  function RowOf(t: TestId, results: map<TestId, Result>, exports: map<TestId, set<string>>): Row {
    var r := if t in results then results[t] else Result(None, "not_run");
    Row(t.binary, t.name, r.secs, r.status, t in exports, if t in exports then |exports[t]| else 0)
  }

  // ----- the order of the tests

  /** The order of Python's pairs of strings. */
  predicate IdLe(a: TestId, b: TestId) {
    if a.binary == b.binary then StrLe(a.name, b.name) else StrLe(a.binary, b.binary)
  }

  lemma StringOrder()
    ensures TotalOrder(StrLe) && Antisymmetric(StrLe)
  {
    forall a, b ensures (StrLe(a, b) || StrLe(b, a)) && (StrLe(a, b) && StrLe(b, a) ==> a == b) {
      StrLeTotal(a, b);
    }
    forall a, b, c | StrLe(a, b) && StrLe(b, c) ensures StrLe(a, c) {
      StrLeTransitive(a, b, c);
    }
  }

  lemma IdOrder()
    ensures TotalOrder(IdLe) && Antisymmetric(IdLe)
  {
    forall a, b ensures (IdLe(a, b) || IdLe(b, a)) && (IdLe(a, b) && IdLe(b, a) ==> a == b) {
      StrLeTotal(a.binary, b.binary);
      StrLeTotal(a.name, b.name);
    }
    forall a, b, c | IdLe(a, b) && IdLe(b, c) ensures IdLe(a, c) {
      IdLeTransitive(a, b, c);
    }
  }

  lemma IdLeTransitive(a: TestId, b: TestId, c: TestId)
    requires IdLe(a, b) && IdLe(b, c)
    ensures IdLe(a, c)
  {
    if a.binary == b.binary == c.binary {
      StrLeTransitive(a.name, b.name, c.name);
    } else if a.binary != b.binary && b.binary != c.binary {
      StrLeTransitive(a.binary, b.binary, c.binary);
      StrLeTotal(a.binary, b.binary);
    }
  }

  /** `order` is the set, sorted. */
  ghost predicate InOrder(order: seq<TestId>, tests: set<TestId>) {
    SortedBy(IdLe, order) && ListsKeys(order, tests)
  }

  lemma OneOrder(a: seq<TestId>, b: seq<TestId>, tests: set<TestId>)
    requires InOrder(a, tests) && InOrder(b, tests)
    ensures a == b
  {
    IdOrder();
    DistinctPerm(a, b);
    SortedOnce(IdLe, a, b);
  }

  method SortTests(tests: set<TestId>) returns (order: seq<TestId>)
    ensures InOrder(order, tests)
  {
    hide InOrder, ListsKeys, Sort, IdLe;
    var keys := ListKeys(tests);
    order := Sort(IdLe, keys);
    SortInOrder(keys, tests);
  }

  lemma SortInOrder(keys: seq<TestId>, tests: set<TestId>)
    requires ListsKeys(keys, tests)
    ensures InOrder(Sort(IdLe, keys), tests)
  {
    hide Sort, IdLe;
    IdOrder();
    SortSorts(IdLe, keys);
    SortKeeps(IdLe, keys);
    SortDistinct(keys);
    var s := Sort(IdLe, keys);
    forall i | 0 <= i < |s| ensures s[i] in tests {
      assert s[i] in keys;
    }
    forall x | x in tests ensures x in s {
      assert x in keys;
    }
  }

  lemma SortDistinct(keys: seq<TestId>)
    requires Distinct(keys)
    ensures Distinct(Sort(IdLe, keys))
  {
    var s := Sort(IdLe, keys);
    forall i, j | 0 <= i < j < |s| ensures s[i] != s[j] {
      DistinctOnce(keys, s[i]);
      if s[i] == s[j] {
        Twice(s, i, j);
      }
    }
  }

  // ----- the table of tests in an order

  /** The rows, a later test over an earlier one of its key. */
  function Tests(order: seq<TestId>, results: map<TestId, Result>, exports: map<TestId, set<string>>): map<string, Row> {
    if order == [] then map[]
    else
      var n := |order| - 1;
      Tests(order[..n], results, exports)[Key(order[n]) := RowOf(order[n], results, exports)]
  }

  predicate Covers(exports: map<TestId, set<string>>, t: TestId, file: string) {
    t in exports && file in exports[t]
  }

  /** The keys of the tests that cover a file. */
  function Covering(order: seq<TestId>, exports: map<TestId, set<string>>, file: string): seq<string> {
    if order == [] then []
    else
      var n := |order| - 1;
      Covering(order[..n], exports, file) + if Covers(exports, order[n], file) then [Key(order[n])] else []
  }

  function Files(order: seq<TestId>, exports: map<TestId, set<string>>): set<string> {
    if order == [] then {}
    else
      var n := |order| - 1;
      Files(order[..n], exports) + if order[n] in exports then exports[order[n]] else {}
  }

  ghost predicate IsIndex(files: map<string, seq<string>>, order: seq<TestId>, exports: map<TestId, set<string>>) {
    files.Keys == Files(order, exports) && forall f :: f in files ==> files[f] == Covering(order, exports, f)
  }

  ghost predicate IsTable(table: Table, listed: set<TestId>, results: map<TestId, Result>,
                          exports: map<TestId, set<string>>, commit: string, platform: string) {
    exists order :: InOrder(order, listed + results.Keys + exports.Keys) && TableOf(table, order, results, exports, commit, platform)
  }

  ghost predicate TableOf(table: Table, order: seq<TestId>, results: map<TestId, Result>,
                          exports: map<TestId, set<string>>, commit: string, platform: string) {
    && table.commit == commit && table.platform == platform && table.tests == Tests(order, results, exports)
    && table.files.Keys == Files(order, exports)
    && forall f :: f in table.files ==> table.files[f] == Sort(StrLe, Covering(order, exports, f))
  }

  /** One material makes one table. */
  lemma OneTable(a: Table, b: Table, listed: set<TestId>, results: map<TestId, Result>,
                 exports: map<TestId, set<string>>, commit: string, platform: string)
    requires IsTable(a, listed, results, exports, commit, platform)
    requires IsTable(b, listed, results, exports, commit, platform)
    ensures a == b
  {
    var tests := listed + results.Keys + exports.Keys;
    hide InOrder, TableOf, Tests, Files, Covering, Sort;
    var x :| InOrder(x, tests) && TableOf(a, x, results, exports, commit, platform);
    var y :| InOrder(y, tests) && TableOf(b, y, results, exports, commit, platform);
    OneOrder(x, y, tests);
    OneTableOf(a, b, x, results, exports, commit, platform);
  }

  lemma OneTableOf(a: Table, b: Table, order: seq<TestId>, results: map<TestId, Result>,
                   exports: map<TestId, set<string>>, commit: string, platform: string)
    requires TableOf(a, order, results, exports, commit, platform)
    requires TableOf(b, order, results, exports, commit, platform)
    ensures a == b
  {
    hide Tests, Files, Covering, Sort;
    assert a.files == b.files;
  }

  /** A covered test's key appended to the lists of its files. */
  method AddFiles(t: TestId, covered: set<string>, before: map<string, seq<string>>) returns (files: map<string, seq<string>>)
    ensures files.Keys == before.Keys + covered
    ensures forall f :: f in files ==>
              files[f] == (if f in before then before[f] else []) + if f in covered then [Key(t)] else []
  {
    files := before;
    var rest := covered;
    while rest != {}
      invariant rest <= covered && files.Keys == before.Keys + (covered - rest)
      invariant forall f :: f in files ==>
                  files[f] == (if f in before then before[f] else []) + if f in covered - rest then [Key(t)] else []
      decreases rest
    {
      var f := Pick(rest);
      files := files[f := (if f in files then files[f] else []) + [Key(t)]];
      rest := rest - {f};
    }
  }

  lemma IndexMore(order: seq<TestId>, t: TestId, exports: map<TestId, set<string>>,
                  before: map<string, seq<string>>, files: map<string, seq<string>>)
    requires IsIndex(before, order, exports)
    requires files.Keys == before.Keys + if t in exports then exports[t] else {}
    requires forall f :: f in files ==>
               files[f] == (if f in before then before[f] else []) + if Covers(exports, t, f) then [Key(t)] else []
    ensures IsIndex(files, order + [t], exports)
  {
    assert (order + [t])[..|order|] == order;
    forall f | f in files ensures files[f] == Covering(order + [t], exports, f) {
      if f !in before {
        CoveringOnlyFiles(order, exports, f);
      }
    }
  }

  lemma {:induction false} CoveringOnlyFiles(order: seq<TestId>, exports: map<TestId, set<string>>, f: string)
    ensures f in Files(order, exports) <==> Covering(order, exports, f) != []
  {
    if order != [] {
      CoveringOnlyFiles(order[..|order| - 1], exports, f);
    }
  }

  lemma NoIndex(exports: map<TestId, set<string>>)
    ensures IsIndex(map[], [], exports)
  {
  }

  lemma IndexIsTable(table: Table, files: map<string, seq<string>>, order: seq<TestId>, results: map<TestId, Result>,
                     exports: map<TestId, set<string>>)
    requires IsIndex(files, order, exports) && table.tests == Tests(order, results, exports)
    requires table.files == map f | f in files :: Sort(StrLe, files[f])
    ensures TableOf(table, order, results, exports, table.commit, table.platform)
  {
    hide Tests, Files, Covering, Sort;
  }

  /** `build_table`. */
  method BuildTable(listed: set<TestId>, results: map<TestId, Result>, exports: map<TestId, set<string>>,
                    commit: string, platform: string) returns (table: Table)
    ensures IsTable(table, listed, results, exports, commit, platform)
  {
    hide InOrder, Covering, Files, Sort, RowOf, Key, IsIndex;
    NoIndex(exports);
    var order := SortTests(listed + results.Keys + exports.Keys);
    var tests: map<string, Row> := map[];
    var files: map<string, seq<string>> := map[];
    assert order[..0] == [];
    for i := 0 to |order|
      invariant tests == Tests(order[..i], results, exports)
      invariant IsIndex(files, order[..i], exports)
    {
      var t := order[i];
      assert order[..i + 1] == order[..i] + [t] && order[..i + 1][..i] == order[..i];
      tests := tests[Key(t) := RowOf(t, results, exports)];
      var more := AddFiles(t, if t in exports then exports[t] else {}, files);
      assert forall f :: f in more ==> (Covers(exports, t, f) <==> f in if t in exports then exports[t] else {});
      IndexMore(order[..i], t, exports, files, more);
      files := more;
    }
    assert order[..|order|] == order;
    table := Table(commit, platform, tests, map f | f in files :: Sort(StrLe, files[f]));
    IndexIsTable(table, files, order, results, exports);
  }

  // ----- what the table says

  /** The two ids are written alike. */
  predicate Alike(a: TestId, b: TestId) {
    a.binary + "::" + a.name == b.binary + "::" + b.name
  }

  /** No two tests of the table have one key. */
  ghost predicate KeysDiffer(tests: set<TestId>) {
    forall a, b :: a in tests && b in tests && Alike(a, b) ==> a == b
  }

  /** The row of a key is that of the last of its tests. */
  lemma {:induction false} LastRow(order: seq<TestId>, results: map<TestId, Result>, exports: map<TestId, set<string>>, i: nat)
    requires i < |order| && forall j :: i < j < |order| ==> Key(order[j]) != Key(order[i])
    ensures Key(order[i]) in Tests(order, results, exports)
    ensures Tests(order, results, exports)[Key(order[i])] == RowOf(order[i], results, exports)
  {
    var n := |order| - 1;
    if i < n {
      LastRow(order[..n], results, exports, i);
    }
  }

  lemma {:induction false} LastOfKey(order: seq<TestId>, n: nat, key: string) returns (i: nat)
    requires n <= |order| && exists j :: 0 <= j < n && Key(order[j]) == key
    requires forall j :: n <= j < |order| ==> Key(order[j]) != key
    ensures i < |order| && Key(order[i]) == key && forall j :: i < j < |order| ==> Key(order[j]) != key
    decreases n
  {
    if Key(order[n - 1]) == key {
      i := n - 1;
    } else {
      i := LastOfKey(order, n - 1, key);
    }
  }

  /** The row of the test's key is the test's, field by field. */
  ghost predicate OwnRow(table: Table, t: TestId, results: map<TestId, Result>, exports: map<TestId, set<string>>) {
    var key := t.binary + "::" + t.name;
    && key in table.tests
    && table.tests[key].binary == t.binary && table.tests[key].name == t.name
    && (t in results ==> table.tests[key].secs == results[t].secs && table.tests[key].status == results[t].status)
    && (t !in results ==> table.tests[key].secs == None && table.tests[key].status == "not_run")
    && table.tests[key].coverage == (t in exports)
    && (t in exports ==> table.tests[key].files == |exports[t]|)
    && (t !in exports ==> table.tests[key].files == 0)
  }

  /** The order of strings by the first character in which they differ, or by length. */
  ghost predicate Precedes(a: string, b: string) {
    exists i :: 0 <= i <= |a| && i <= |b| && a[..i] == b[..i] && (if i == |a| then i < |b| else i < |b| && a[i] < b[i])
  }

  ghost predicate IdPrecedes(a: TestId, b: TestId) {
    Precedes(a.binary, b.binary) || (a.binary == b.binary && Precedes(a.name, b.name))
  }

  lemma {:induction false} PrecedesExact(a: string, b: string)
    ensures Precedes(a, b) <==> StrLe(a, b) && a != b
  {
    if a != "" && b != "" && a[0] == b[0] {
      PrecedesExact(a[1..], b[1..]);
      assert a == [a[0]] + a[1..] && b == [b[0]] + b[1..];
      PrecedesInRest(a, b);
    } else if a != "" && b != "" && a[0] < b[0] {
      assert a[..0] == b[..0];
    } else if a == "" && b != "" {
      assert a[..0] == b[..0];
    }
  }

  lemma PrecedesInRest(a: string, b: string)
    requires a != "" && b != "" && a[0] == b[0]
    ensures Precedes(a, b) <==> Precedes(a[1..], b[1..])
  {
    var x, y := a[1..], b[1..];
    if i :| 0 <= i <= |a| && i <= |b| && a[..i] == b[..i] && (if i == |a| then i < |b| else i < |b| && a[i] < b[i]) {
      assert x[..i - 1] == a[..i][1..] == b[..i][1..] == y[..i - 1];
    }
    if i :| 0 <= i <= |x| && i <= |y| && x[..i] == y[..i] && (if i == |x| then i < |y| else i < |y| && x[i] < y[i]) {
      assert a[..i + 1] == [a[0]] + x[..i] == b[..i + 1];
    }
  }

  lemma IdPrecedesExact(a: TestId, b: TestId)
    ensures IdPrecedes(a, b) <==> IdLe(a, b) && a != b
  {
    PrecedesExact(a.binary, b.binary);
    PrecedesExact(a.name, b.name);
    hide Precedes;
  }

  /** In the order of the tests, none after the last of those written alike is so. */
  lemma LastAlike(order: seq<TestId>, tests: set<TestId>, t: TestId) returns (i: nat)
    requires InOrder(order, tests) && t in tests
    requires forall a :: a in tests && Alike(a, t) && a != t ==> IdPrecedes(a, t)
    ensures i < |order| && order[i] == t && forall j :: i < j < |order| ==> Key(order[j]) != Key(order[i])
  {
    hide IdLe, IdPrecedes;
    i :| 0 <= i < |order| && order[i] == t;
    forall j | i < j < |order| ensures Key(order[j]) != Key(t) {
      assert order[j] in tests && order[i] != order[j] && IdLe(order[i], order[j]);
      AlikeExact(order[j], t);
      hide Key, Alike;
      NotBoth(order[j], t);
    }
  }

  lemma AlikeExact(a: TestId, b: TestId)
    ensures Alike(a, b) <==> Key(a) == Key(b)
  {
  }

  lemma NotBoth(a: TestId, b: TestId)
    requires IdLe(b, a) && a != b
    ensures !IdPrecedes(a, b)
  {
    IdPrecedesExact(a, b);
    IdOrder();
  }

  lemma RowIsOwn(table: Table, order: seq<TestId>, results: map<TestId, Result>,
                 exports: map<TestId, set<string>>, i: nat)
    requires table.tests == Tests(order, results, exports)
    requires i < |order| && forall j :: i < j < |order| ==> Key(order[j]) != Key(order[i])
    ensures OwnRow(table, order[i], results, exports)
  {
    LastRow(order, results, exports, i);
    hide Tests;
  }

  /** When tests are written alike, the row of their key is that of the last of them in
      the order of binary and name. */
  lemma RowsExactly(table: Table, listed: set<TestId>, results: map<TestId, Result>,
                    exports: map<TestId, set<string>>, commit: string, platform: string, t: TestId)
    requires IsTable(table, listed, results, exports, commit, platform)
    requires t in listed + results.Keys + exports.Keys
    requires forall a :: a in listed + results.Keys + exports.Keys && Alike(a, t) && a != t ==> IdPrecedes(a, t)
    ensures OwnRow(table, t, results, exports)
  {
    hide InOrder, Tests, OwnRow, IdPrecedes, Alike, Key, Covering, Files;
    var tests := listed + results.Keys + exports.Keys;
    var order :| InOrder(order, tests) && TableOf(table, order, results, exports, commit, platform);
    var i := LastAlike(order, tests, t);
    RowIsOwn(table, order, results, exports, i);
  }

  lemma RowsApart(table: Table, a: TestId, b: TestId, results: map<TestId, Result>, exports: map<TestId, set<string>>)
    requires OwnRow(table, a, results, exports) && OwnRow(table, b, results, exports) && Alike(a, b)
    ensures a == b
  {
  }

  /** Every listed, run or covered test has its own row exactly when no two of them are
      written alike. */
  lemma RowsKept(table: Table, listed: set<TestId>, results: map<TestId, Result>,
                 exports: map<TestId, set<string>>, commit: string, platform: string)
    requires IsTable(table, listed, results, exports, commit, platform)
    ensures (forall t :: t in listed + results.Keys + exports.Keys ==> OwnRow(table, t, results, exports))
            <==> KeysDiffer(listed + results.Keys + exports.Keys)
  {
    hide IsTable, OwnRow, IdPrecedes, Alike;
    var tests := listed + results.Keys + exports.Keys;
    if KeysDiffer(tests) {
      forall t | t in tests ensures OwnRow(table, t, results, exports) {
        RowsExactly(table, listed, results, exports, commit, platform, t);
      }
    }
    if forall t :: t in tests ==> OwnRow(table, t, results, exports) {
      forall a, b | a in tests && b in tests && Alike(a, b) ensures a == b {
        RowsApart(table, a, b, results, exports);
      }
    }
  }

  /** Every row is of a listed, run or covered test. */
  lemma NoOtherRows(table: Table, listed: set<TestId>, results: map<TestId, Result>,
                    exports: map<TestId, set<string>>, commit: string, platform: string, key: string)
    requires IsTable(table, listed, results, exports, commit, platform) && key in table.tests
    ensures exists t :: (t in listed || t in results || t in exports) && t.binary + "::" + t.name == key
  {
    var tests := listed + results.Keys + exports.Keys;
    var order :| InOrder(order, tests) && TableOf(table, order, results, exports, commit, platform);
    RowsOnly(order, results, exports, key);
    var i :| 0 <= i < |order| && Key(order[i]) == key;
    assert order[i] in tests;
  }

  /** Two tests of different binaries may be written alike. */
  lemma KeysCanMeet()
    ensures Alike(TestId("a::b", "c"), TestId("a", "b::c"))
  {
  }

  /** No row but those of the tests. */
  lemma {:induction false} RowsOnly(order: seq<TestId>, results: map<TestId, Result>, exports: map<TestId, set<string>>, key: string)
    requires key in Tests(order, results, exports)
    ensures exists i :: 0 <= i < |order| && Key(order[i]) == key
  {
    var n := |order| - 1;
    if key != Key(order[n]) {
      RowsOnly(order[..n], results, exports, key);
      var i :| 0 <= i < n && Key(order[..n][i]) == key;
      assert order[i] == order[..n][i];
    }
  }

  lemma {:induction false} CoveringExact(order: seq<TestId>, exports: map<TestId, set<string>>, f: string, key: string)
    ensures key in Covering(order, exports, f) <==>
            exists i :: 0 <= i < |order| && Covers(exports, order[i], f) && Key(order[i]) == key
  {
    if order != [] {
      var n := |order| - 1;
      CoveringExact(order[..n], exports, f, key);
      assert forall i :: 0 <= i < n ==> order[..n][i] == order[i];
    }
  }

  ghost predicate Indexed(table: Table, f: string, key: string) {
    f in table.files && key in table.files[f]
  }

  ghost predicate CoversAs(exports: map<TestId, set<string>>, f: string, key: string) {
    exists t :: t in exports && f in exports[t] && t.binary + "::" + t.name == key
  }

  /** The index is the coverage turned round, each list sorted. */
  lemma IndexTurnsRound(table: Table, listed: set<TestId>, results: map<TestId, Result>,
                        exports: map<TestId, set<string>>, commit: string, platform: string)
    requires IsTable(table, listed, results, exports, commit, platform)
    ensures forall f, key :: Indexed(table, f, key) <==> CoversAs(exports, f, key)
    ensures forall f :: f in table.files ==> SortedBy(StrLe, table.files[f]) && table.files[f] != []
  {
    hide InOrder, TableOf, Indexed, CoversAs, SortedBy;
    var tests := listed + results.Keys + exports.Keys;
    var order :| InOrder(order, tests) && TableOf(table, order, results, exports, commit, platform);
    forall f, key ensures Indexed(table, f, key) <==> CoversAs(exports, f, key) {
      IndexedIsCovered(table, order, tests, results, exports, commit, platform, f, key);
    }
    forall f | f in table.files ensures SortedBy(StrLe, table.files[f]) && table.files[f] != [] {
      FilesSorted(table, order, results, exports, commit, platform, f);
    }
  }

  lemma CoversInOrder(order: seq<TestId>, tests: set<TestId>, exports: map<TestId, set<string>>, f: string, key: string)
    requires InOrder(order, tests) && exports.Keys <= tests
    ensures CoversAs(exports, f, key) <==>
            exists i :: 0 <= i < |order| && Covers(exports, order[i], f) && Key(order[i]) == key
  {
    if CoversAs(exports, f, key) {
      var t :| t in exports && f in exports[t] && t.binary + "::" + t.name == key;
      assert t in tests && t in order;
    }
  }

  lemma IndexedIsCovered(table: Table, order: seq<TestId>, tests: set<TestId>, results: map<TestId, Result>,
                         exports: map<TestId, set<string>>, commit: string, platform: string, f: string, key: string)
    requires InOrder(order, tests) && exports.Keys <= tests && TableOf(table, order, results, exports, commit, platform)
    ensures Indexed(table, f, key) <==> CoversAs(exports, f, key)
  {
    CoversInOrder(order, tests, exports, f, key);
    CoveringOnlyFiles(order, exports, f);
    CoveringExact(order, exports, f, key);
    hide InOrder, CoversAs, Covering, Files, Tests, Sort, Covers, Key;
    SortKeeps(StrLe, Covering(order, exports, f));
  }

  lemma FilesSorted(table: Table, order: seq<TestId>, results: map<TestId, Result>, exports: map<TestId, set<string>>,
                    commit: string, platform: string, f: string)
    requires TableOf(table, order, results, exports, commit, platform) && f in table.files
    ensures SortedBy(StrLe, table.files[f]) && table.files[f] != []
  {
    hide Covering, Files, Tests, Sort, SortedBy;
    CoveringOnlyFiles(order, exports, f);
    StringOrder();
    SortSorts(StrLe, Covering(order, exports, f));
    SortKeeps(StrLe, Covering(order, exports, f));
  }

  /** The tests that cover the file and are written so. */
  function CoveringAs(exports: map<TestId, set<string>>, f: string, key: string): set<TestId> {
    set t | t in exports && f in exports[t] && t.binary + "::" + t.name == key
  }

  function Among(s: set<TestId>, order: seq<TestId>): set<TestId> {
    set t | t in s && t in order
  }

  lemma AmongMore(s: set<TestId>, before: seq<TestId>, t: TestId)
    requires t !in before
    ensures |Among(s, before + [t])| == |Among(s, before)| + if t in s then 1 else 0
  {
    assert Among(s, before + [t]) == Among(s, before) + if t in s then {t} else {};
  }

  lemma CoveringMore(before: seq<TestId>, t: TestId, exports: map<TestId, set<string>>, f: string, key: string)
    ensures multiset(Covering(before + [t], exports, f))[key] ==
            multiset(Covering(before, exports, f))[key] + if t in CoveringAs(exports, f, key) then 1 else 0
  {
    assert (before + [t])[..|before|] == before;
  }

  lemma DistinctLast(order: seq<TestId>)
    requires Distinct(order) && order != []
    ensures var n := |order| - 1;
            Distinct(order[..n]) && order[n] !in order[..n] && order == order[..n] + [order[n]]
  {
  }

  lemma {:induction false} CoveringCounts(order: seq<TestId>, exports: map<TestId, set<string>>, f: string, key: string)
    requires Distinct(order)
    ensures multiset(Covering(order, exports, f))[key] == |Among(CoveringAs(exports, f, key), order)|
  {
    if order != [] {
      var n := |order| - 1;
      DistinctLast(order);
      hide *;
      CoveringCounts(order[..n], exports, f, key);
      AmongMore(CoveringAs(exports, f, key), order[..n], order[n]);
      CoveringMore(order[..n], order[n], exports, f, key);
    } else {
      assert Among(CoveringAs(exports, f, key), order) == {};
    }
  }

  /** The index has a key under a file once for each test so written that covers it. */
  lemma IndexedOnce(table: Table, listed: set<TestId>, results: map<TestId, Result>,
                    exports: map<TestId, set<string>>, commit: string, platform: string, f: string, key: string)
    requires IsTable(table, listed, results, exports, commit, platform) && f in table.files
    ensures multiset(table.files[f])[key] == |CoveringAs(exports, f, key)|
  {
    var tests := listed + results.Keys + exports.Keys;
    var order :| InOrder(order, tests) && TableOf(table, order, results, exports, commit, platform);
    CoveringCounts(order, exports, f, key);
    hide Covering, Tests, Files, Sort;
    assert Among(CoveringAs(exports, f, key), order) == CoveringAs(exports, f, key) by {
      forall t | t in CoveringAs(exports, f, key) ensures t in order {
        assert t in tests;
      }
    }
  }

  // ----- a run in parts

  method MakePiece(piece: Run, commit: string, index: int, count: int, platform: string) returns (p: Part)
    ensures PartOf(p, piece, commit, index, count, platform)
  {
    p := MakePart(piece.listed, piece.results, piece.exports, commit, index, count, platform);
  }

  method MakeParts(pieces: seq<Run>, commit: string, platform: string) returns (parts: seq<Part>)
    ensures PartsOf(parts, pieces, commit, platform)
  {
    hide PartOf;
    parts := [];
    for i := 0 to |pieces|
      invariant |parts| == i
      invariant forall k :: 0 <= k < i ==> PartOf(parts[k], pieces[k], commit, k + 1, |pieces|, platform)
    {
      var p := MakePiece(pieces[i], commit, i + 1, |pieces|, platform);
      parts := parts + [p];
    }
  }

  /** A run split into parts, made, merged and built, and the same run assembled at
      once: the merge refuses exactly a run that is not full, and otherwise gives the
      table assembled at once. */
  method InParts(whole: Run, pieces: seq<Run>, commit: string, platform: string)
    returns (problems: seq<Problem>, merged: Option<Table>, once: Table)
    requires pieces != [] && Split(whole, pieces)
    ensures IsTable(once, whole.listed, whole.results, whole.exports, commit, platform)
    ensures problems == [] <==> Full(whole, pieces)
    ensures merged == if problems == [] then Some(once) else None
  {
    once := BuildTable(whole.listed, whole.results, whole.exports, commit, platform);
    var parts := MakeParts(pieces, commit, platform);
    var listed, results, exports, found;
    problems, listed, results, exports, found := MergeParts(parts, |pieces|, commit);
    SplitIsSound(whole, pieces, parts, commit, platform);
    merged := None;
    if problems == [] {
      SplitGivesBack(whole, pieces, parts, commit, platform);
      ResultsOnce(parts, results, whole.results);
      CoverageOnce(parts, exports, whole.exports);
      assert |parts| == |pieces| && ListedIn(parts[0]) == listed && found == Some(parts[0].platform);
      var table := BuildTable(listed, results, exports, commit, platform);
      OneTable(table, once, whole.listed, whole.results, whole.exports, commit, platform);
      merged := Some(table);
    }
  }
}
