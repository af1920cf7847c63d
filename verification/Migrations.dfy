/** How migration files are named and numbered, and the second series matched to
    them by name (src/migration_numbers.rs). */
module Migrations {
  import opened Wrappers
  import opened Sorting

  datatype Outcome<+T, +E> = Ok(value: T) | Err(error: E)

  // ----- a file's number

  predicate IsDigit(c: char) {
    '0' <= c <= '9'
  }

  predicate AllDigits(s: string) {
    forall i :: 0 <= i < |s| ==> IsDigit(s[i])
  }

  /** The number that digits write. */
  function Value(s: string): nat
    requires AllDigits(s)
  {
    if s == "" then 0
    else
      var n := |s| - 1;
      assert IsDigit(s[n]);
      Value(s[..n]) * 10 + (s[n] as int - '0' as int)
  }

  predicate IsSql(file: string) {
    |file| >= 4 && file[|file| - 4..] == ".sql"
  }

  /** The number of a migration file NNNN_<name>.sql. */
  function Number(file: string): Option<nat> {
    if |file| < 4 then None
    else
      var first, rest := file[..4], file[4..];
      if rest == "" || rest[0] != '_' || !IsSql(rest[1..]) || |rest[1..]| == 4 || !AllDigits(first) then None
      else Some(Value(first))
  }

  /** A number in decimal. */
  function Decimal(n: nat): (s: string)
    ensures s != "" && AllDigits(s)
  {
    var last := [('0' as int + n % 10) as char];
    if n < 10 then last else Decimal(n / 10) + last
  }

  /** `{:04}`. */
  function Digits(n: nat): (s: string)
    ensures |s| >= 4 && AllDigits(s)
  {
    var s := Decimal(n);
    Zeros(if |s| < 4 then 4 - |s| else 0) + s
  }

  function Zeros(n: nat): (s: string)
    ensures |s| == n && AllDigits(s)
  {
    if n == 0 then "" else "0" + Zeros(n - 1)
  }

  function Renumbered(file: string, n: nat): string
    requires |file| >= 4
  {
    Digits(n) + file[4..]
  }

  lemma {:induction false} DecimalValue(n: nat)
    ensures Value(Decimal(n)) == n
  {
    var s := Decimal(n);
    if n < 10 {
      assert s[..0] == "" && |s| == 1;
    } else {
      DecimalValue(n / 10);
      assert s[..|s| - 1] == Decimal(n / 10);
    }
  }

  lemma {:induction false} ZerosValue(n: nat, s: string)
    requires AllDigits(s)
    ensures AllDigits(Zeros(n) + s) && Value(Zeros(n) + s) == Value(s)
    decreases n, |s|
  {
    var all := Zeros(n) + s;
    if s == "" {
      if n > 0 {
        ZeroLast(n);
        ZerosValue(n - 1, "");
        assert all == Zeros(n) && Zeros(n - 1) + "" == Zeros(n - 1);
      }
    } else {
      assert all[..|all| - 1] == Zeros(n) + s[..|s| - 1];
      ZerosValue(n, s[..|s| - 1]);
    }
  }

  lemma {:induction false} ZeroLast(n: nat)
    requires n > 0
    ensures Zeros(n)[n - 1] == '0' && Zeros(n)[..n - 1] == Zeros(n - 1)
  {
    if n > 1 {
      ZeroLast(n - 1);
      assert Zeros(n)[..n - 1] == "0" + Zeros(n - 1)[..n - 2];
    }
  }

  lemma DigitsValue(n: nat)
    ensures Value(Digits(n)) == n
  {
    var s := Decimal(n);
    DecimalValue(n);
    ZerosValue(if |s| < 4 then 4 - |s| else 0, s);
  }

  lemma {:induction false} DecimalLength(n: nat)
    ensures |Decimal(n)| <= 4 <==> n <= 9999
  {
    DecimalLonger(n);
    if n >= 10 {
      DecimalLonger(n / 10);
      if n >= 100 {
        DecimalLonger(n / 100);
        assert n / 10 / 10 == n / 100 && n / 100 / 10 == n / 1000;
        if n >= 1000 {
          DecimalLonger(n / 1000);
        }
      }
    }
  }

  lemma DecimalLonger(n: nat)
    ensures |Decimal(n)| == if n < 10 then 1 else |Decimal(n / 10)| + 1
  {
  }

  /** The file is NNNN_<name>.sql: four digits that write the number, and a name. */
  ghost predicate IsNumbered(file: string, n: nat) {
    exists a: char, b: char, c: char, d: char, name: string :: NumberedSo(file, n, a, b, c, d, name)
  }

  predicate NumberedSo(file: string, n: nat, a: char, b: char, c: char, d: char, name: string) {
    && '0' <= a <= '9' && '0' <= b <= '9' && '0' <= c <= '9' && '0' <= d <= '9' && name != ""
    && file == [a, b, c, d] + "_" + name + ".sql"
    && n == 1000 * (a as int - '0' as int) + 100 * (b as int - '0' as int) + 10 * (c as int - '0' as int) + (d as int - '0' as int)
  }

  lemma FourValue(s: string)
    requires |s| == 4 && AllDigits(s)
    ensures Value(s) == 1000 * (s[0] as int - '0' as int) + 100 * (s[1] as int - '0' as int)
                        + 10 * (s[2] as int - '0' as int) + (s[3] as int - '0' as int)
  {
    var three, two, one := s[..3], s[..2], s[..1];
    assert three[..2] == two && two[..1] == one && one[..0] == "";
    assert Value(one) == s[0] as int - '0' as int;
    assert Value(two) == Value(one) * 10 + (s[1] as int - '0' as int);
    assert Value(three) == Value(two) * 10 + (s[2] as int - '0' as int);
  }

  lemma SqlEnds(file: string)
    ensures IsSql(file) <==> exists stem: string :: file == stem + ".sql"
  {
    if IsSql(file) {
      assert file == file[..|file| - 4] + ".sql";
    }
  }

  lemma ReadIsNumbered(file: string)
    requires Number(file).Some?
    ensures IsNumbered(file, Number(file).value)
  {
    var first, rest := file[..4], file[5..];
    FourValue(first);
    assert file[4..][1..] == rest;
    var name := rest[..|rest| - 4];
    assert rest == name + ".sql" && file == first + "_" + rest && first == [file[0], file[1], file[2], file[3]];
    assert forall i :: 0 <= i < 4 ==> IsDigit(first[i]);
    hide Number, Value;
    assert NumberedSo(file, Number(file).value, file[0], file[1], file[2], file[3], name);
  }

  lemma NumberedIsRead(file: string, n: nat, a: char, b: char, c: char, d: char, name: string)
    requires NumberedSo(file, n, a, b, c, d, name)
    ensures Number(file) == Some(n)
  {
    var first := [a, b, c, d];
    assert file[..4] == first && file[4..] == "_" + name + ".sql" && file[4..][1..] == name + ".sql";
    SqlEnds(name + ".sql");
    FourValue(first);
  }

  /** `number` reads exactly the files named so. */
  lemma NumberExact(file: string, n: nat)
    ensures Number(file) == Some(n) <==> IsNumbered(file, n)
  {
    hide Number, NumberedSo;
    if Number(file).Some? {
      ReadIsNumbered(file);
    }
    if a, b, c, d, name :| NumberedSo(file, n, a, b, c, d, name) {
      NumberedIsRead(file, n, a, b, c, d, name);
    }
  }

  lemma {:induction false} DecimalLeads(n: nat)
    ensures n > 0 ==> Decimal(n)[0] != '0'
  {
    if n >= 10 {
      DecimalLeads(n / 10);
    }
  }

  /** A number of more than four digits is written with no zero before it. */
  lemma NoZerosPastFour(n: nat)
    ensures |Digits(n)| > 4 ==> Digits(n)[0] != '0'
  {
    DecimalLength(n);
    DecimalLeads(n);
  }

  /** A renumbered migration has its new number and its old name, for as long as four
      digits write the number. */
  lemma RenumberedExact(file: string, n: nat)
    requires Number(file).Some?
    ensures Number(Renumbered(file, n)) == Some(n) <==> n <= 9999
    ensures Renumbered(file, n)[5..] == file[5..] <==> n <= 9999
    ensures IsSql(Renumbered(file, n))
  {
    var d, f := Digits(n), Renumbered(file, n);
    DecimalLength(n);
    DigitsValue(n);
    if n <= 9999 {
      assert f[..4] == d && f[4..] == file[4..] && f[5..] == file[4..][1..] == file[5..];
    } else {
      assert |d| > 4 && f[4..][0] == d[4] && IsDigit(d[4]);
      assert |f[5..]| != |file[5..]|;
    }
    assert f[|f| - 4..] == file[|file| - 4..] == file[4..][1..][|file| - 9..];
  }

  // ----- the migrations in order

  datatype Problem =
    | Misnamed(file: string)
    | Shared(number: nat, files: seq<string>)
    | Missing(first: nat, last: nat, before: string)
    | StartsAtOne(file: string)

  function SqlOf(names: seq<string>): seq<string> {
    if names == [] then []
    else
      var n := |names| - 1;
      SqlOf(names[..n]) + if IsSql(names[n]) then [names[n]] else []
  }

  function WellNamed(names: seq<string>): (files: seq<string>)
    ensures forall f :: f in files ==> Number(f).Some?
  {
    if names == [] then []
    else
      var n := |names| - 1;
      WellNamed(names[..n]) + if IsSql(names[n]) && Number(names[n]).Some? then [names[n]] else []
  }

  predicate AllWellNamed(names: seq<string>) {
    forall i :: 0 <= i < |names| && IsSql(names[i]) ==> Number(names[i]).Some?
  }

  lemma {:induction false} WellNamedAll(names: seq<string>)
    requires AllWellNamed(names)
    ensures WellNamed(names) == SqlOf(names)
  {
    if names != [] {
      WellNamedAll(names[..|names| - 1]);
    }
  }

  lemma AddedOnce(list: seq<string>, x: string, f: string)
    ensures multiset(list + [x])[f] == multiset(list)[f] + if x == f then 1 else 0
  {
  }

  lemma {:induction false} SqlCounts(names: seq<string>, f: string)
    ensures multiset(SqlOf(names))[f] == if IsSql(f) then multiset(names)[f] else 0
  {
    hide IsSql;
    if names != [] {
      var n := |names| - 1;
      SqlCounts(names[..n], f);
      assert names == names[..n] + [names[n]];
      AddedOnce(names[..n], names[n], f);
      AddedOnce(SqlOf(names[..n]), names[n], f);
    }
  }

  lemma {:induction false} WellNamedCounts(names: seq<string>, f: string)
    ensures multiset(WellNamed(names))[f] == if IsSql(f) && Number(f).Some? then multiset(names)[f] else 0
  {
    hide IsSql, Number;
    if names != [] {
      var n := |names| - 1;
      WellNamedCounts(names[..n], f);
      assert names == names[..n] + [names[n]];
      AddedOnce(names[..n], names[n], f);
      AddedOnce(WellNamed(names[..n]), names[n], f);
    }
  }

  /** The .sql files are kept each as often as it is given, and the well named among
      them too. */
  lemma FilesExact(names: seq<string>, f: string)
    ensures multiset(SqlOf(names))[f] == if exists stem: string :: f == stem + ".sql" then multiset(names)[f] else 0
    ensures multiset(WellNamed(names))[f] == if exists n :: IsNumbered(f, n) then multiset(names)[f] else 0
  {
    SqlEnds(f);
    NumberedIsSql(f);
    SqlCounts(names, f);
    WellNamedCounts(names, f);
    hide IsNumbered, Number, IsSql, SqlOf, WellNamed;
  }

  lemma NumberedIsSql(f: string)
    ensures Number(f).Some? ==> IsSql(f)
    ensures Number(f).Some? <==> exists n :: IsNumbered(f, n)
  {
    if Number(f).Some? {
      NumberExact(f, Number(f).value);
      assert IsSql(f[4..][1..]) && f[|f| - 4..] == f[4..][1..][|f| - 9..];
    }
    if n :| IsNumbered(f, n) {
      NumberExact(f, n);
    }
  }

  /** The number of a file that has one. */
  function Num(file: string): nat {
    if Number(file).Some? then Number(file).value else 0
  }

  /** The order of the pairs of number and name. */
  predicate FileLe(a: string, b: string) {
    Num(a) < Num(b) || (Num(a) == Num(b) && StrLe(a, b))
  }

  lemma FileOrder()
    ensures TotalOrder(FileLe)
  {
    hide Num, StrLe;
    forall a, b ensures FileLe(a, b) || FileLe(b, a) {
      StrLeTotal(a, b);
    }
    forall a, b, c | FileLe(a, b) && FileLe(b, c) ensures FileLe(a, c) {
      if Num(a) == Num(b) == Num(c) {
        StrLeTransitive(a, b, c);
      }
    }
  }

  /** No two of the files have one number, and the numbers are from 1 to how many they are. */
  ghost predicate OneToN(files: multiset<string>) {
    && (forall f :: f in files ==> files[f] == 1 && 1 <= Num(f) <= |files|)
    && (forall f, g :: f in files && g in files && f != g ==> Num(f) != Num(g))
  }

  /** `order` is the migrations of the directory, the one of number `i + 1` at `i`. */
  ghost predicate IsOrder(names: seq<string>, order: seq<string>) {
    multiset(order) == multiset(SqlOf(names)) && InPlace(order, |order|)
  }

  ghost predicate InPlace(order: seq<string>, i: nat) {
    i <= |order| && forall j :: 0 <= j < i ==> Number(order[j]) == Some(j + 1)
  }

  ghost predicate CanBeOrdered(names: seq<string>) {
    AllWellNamed(names) && OneToN(multiset(SqlOf(names)))
  }

  /** The files of a number. */
  function Sharing(files: seq<string>, n: nat): seq<string> {
    if files == [] then []
    else
      var k := |files| - 1;
      Sharing(files[..k], n) + if Num(files[k]) == n then [files[k]] else []
  }

  /** The files of a number are those, each as often as it is given. */
  lemma {:induction false} SharingExact(files: seq<string>, n: nat, f: string)
    requires IsNumbered(f, Num(f))
    ensures multiset(Sharing(files, n))[f] == if IsNumbered(f, n) then multiset(files)[f] else 0
  {
    NumberExact(f, n);
    NumberExact(f, Num(f));
    hide IsNumbered, Number;
    if files != [] {
      var k := |files| - 1;
      SharingExact(files[..k], n, f);
      assert files == files[..k] + [files[k]];
      AddedOnce(files[..k], files[k], f);
      AddedOnce(Sharing(files[..k], n), files[k], f);
    }
  }

  /** Only file `i` of those has its number. */
  ghost predicate Alone(files: seq<string>, i: nat) {
    forall j :: 0 <= j < |files| && j != i ==> i < |files| && Num(files[j]) != Num(files[i])
  }

  lemma {:induction false} SharingNone(files: seq<string>, n: nat)
    ensures |Sharing(files, n)| == 0 <==> forall j :: 0 <= j < |files| ==> Num(files[j]) != n
  {
    if files != [] {
      SharingNone(files[..|files| - 1], n);
    }
  }

  lemma {:induction false} SharingAlone(files: seq<string>, i: nat)
    requires i < |files|
    ensures |Sharing(files, Num(files[i]))| > 1 <==> !Alone(files, i)
  {
    var k, n := |files| - 1, Num(files[i]);
    var fewer := files[..k];
    SharingNone(fewer, n);
    if i < k {
      SharingAlone(fewer, i);
      assert fewer[i] == files[i] && forall j :: 0 <= j < k ==> fewer[j] == files[j];
    } else {
      assert forall j :: 0 <= j < k ==> fewer[j] == files[j];
    }
  }

  /** The message says what is so of the files. */
  ghost predicate Accurate(p: Problem, names: seq<string>, files: seq<string>) {
    match p
    case Misnamed(f) => f in names && IsMisnamed(f)
    case Shared(n, fs) => fs == Sharing(files, n) && |fs| > 1
    case Missing(a, b, f) => f in files && 1 <= a <= b < Num(f) && forall g :: g in files ==> !(a <= Num(g) <= b)
    case StartsAtOne(f) => f in files && Num(f) == 0
  }

  ghost predicate AllAccurate(problems: seq<Problem>, names: seq<string>, files: seq<string>) {
    forall p :: p in problems ==> Accurate(p, names, files)
  }

  /** The first `i` files are at their places and each alone with its number. */
  ghost predicate Good(files: seq<string>, i: nat) {
    InPlace(files, i) && forall j :: 0 <= j < i ==> Alone(files, j)
  }

  ghost predicate ByNumber(files: seq<string>) {
    forall i, j :: 0 <= i < j < |files| ==> Num(files[i]) <= Num(files[j])
  }

  predicate IsMisnamed(file: string) {
    IsSql(file) && Number(file).None?
  }

  /** The misnamed files, and nothing else, are reported. */
  ghost predicate MisnamedOf(problems: seq<Problem>, names: seq<string>) {
    && (forall p :: p in problems ==> p.Misnamed? && p.file in names && IsMisnamed(p.file))
    && (forall f :: f in names && IsMisnamed(f) ==> Misnamed(f) in problems)
  }

  /** The files that are not migrations by their name, and those that are. */
  method Read(names: seq<string>) returns (problems: seq<Problem>, files: seq<string>)
    ensures files == WellNamed(names) && MisnamedOf(problems, names)
    ensures problems == [] <==> AllWellNamed(names)
  {
    problems, files := [], [];
    assert names[..0] == [] && files == WellNamed([]) && MisnamedOf(problems, []);
    hide IsMisnamed, WellNamed, MisnamedOf, IsSql, Number;
    for i := 0 to |names|
      invariant files == WellNamed(names[..i])
      invariant MisnamedOf(problems, names[..i])
    {
      var name := names[i];
      assert names[..i + 1] == names[..i] + [name];
      WellNamedMore(names[..i], name);
      MisnamedMore(problems, names[..i], name);
      if IsSql(name) {
        if Number(name).Some? {
          files := files + [name];
        } else {
          problems := problems + [Misnamed(name)];
        }
      }
    }
    assert names[..|names|] == names;
    NoneMisnamed(problems, names);
  }

  lemma MisnamedMore(problems: seq<Problem>, names: seq<string>, name: string)
    requires MisnamedOf(problems, names)
    ensures MisnamedOf(if IsSql(name) && Number(name).None? then problems + [Misnamed(name)] else problems, names + [name])
  {
    hide IsSql, Number;
  }

  lemma NoneMisnamed(problems: seq<Problem>, names: seq<string>)
    requires MisnamedOf(problems, names)
    ensures problems == [] <==> AllWellNamed(names)
  {
    if problems != [] {
      var f := problems[0].file;
      assert f in names && IsMisnamed(f);
    }
    if problems == [] {
      forall i | 0 <= i < |names| && IsSql(names[i]) ensures Number(names[i]).Some? {
        assert names[i] in names && !IsMisnamed(names[i]);
      }
    }
  }

  lemma WellNamedMore(names: seq<string>, name: string)
    ensures WellNamed(names + [name]) == WellNamed(names) + if IsSql(name) && Number(name).Some? then [name] else []
  {
    var more := names + [name];
    assert more[..|names|] == names;
  }

  ghost predicate Numbered(files: seq<string>, k: nat) {
    exists f :: f in files && Num(f) == k
  }

  /** A message says that `k` is missing. */
  ghost predicate InGap(problems: seq<Problem>, k: nat) {
    exists p :: p in problems && p.Missing? && p.first <= k <= p.last
  }

  /** A message says that the numbers start at 0001. */
  ghost predicate SaysStart(problems: seq<Problem>) {
    exists p :: p in problems && p.StartsAtOne?
  }

  /** Every number from 1 on below `bound` that no file has is said to be missing. */
  ghost predicate GapsReported(problems: seq<Problem>, files: seq<string>, bound: nat) {
    forall k :: 1 <= k < bound && !Numbered(files, k) ==> InGap(problems, k)
  }

  lemma ReportsStay(problems: seq<Problem>, more: seq<Problem>, files: seq<string>, bound: nat)
    ensures GapsReported(problems, files, bound) ==> GapsReported(problems + more, files, bound)
    ensures forall k :: InGap(more, k) ==> InGap(problems + more, k)
    ensures SaysStart(problems) || SaysStart(more) ==> SaysStart(problems + more)
  {
    assert forall p :: p in problems || p in more ==> p in problems + more;
  }

  /** A gap below the file at `i` reported, the gaps are reported up to it. */
  lemma GapsMore(problems: seq<Problem>, files: seq<string>, i: nat, expected: nat)
    requires i < |files| && GapsReported(problems, files, expected)
    requires forall k :: expected <= k < Num(files[i]) ==> InGap(problems, k)
    ensures GapsReported(problems, files, Num(files[i]) + 1)
  {
    hide InGap;
    assert files[i] in files;
    assert Numbered(files, Num(files[i]));
  }

  /** What is wrong at the file at `i`, the first of its number. */
  method CheckAt(files: seq<string>, i: nat, expected: nat, ghost names: seq<string>) returns (problems: seq<Problem>)
    requires i < |files| && ByNumber(files)
    requires Expects(files, i, expected) && forall j :: 0 <= j < i ==> Num(files[j]) < Num(files[i])
    ensures AllAccurate(problems, names, files)
    ensures problems == [] <==> Alone(files, i) && Num(files[i]) == expected
    ensures !Alone(files, i) ==> Shared(Num(files[i]), Sharing(files, Num(files[i]))) in problems
    ensures forall k :: expected <= k < Num(files[i]) ==> InGap(problems, k)
    ensures Num(files[i]) == 0 ==> SaysStart(problems)
  {
    problems := [];
    var n := Num(files[i]);
    var sharing := Sharing(files, n);
    SharingAlone(files, i);
    if |sharing| > 1 {
      problems := problems + [Shared(n, sharing)];
    }
    if n != expected {
      if n > expected {
        assert Accurate(Missing(expected, n - 1, files[i]), names, files) by {
          forall g | g in files ensures !(expected <= Num(g) <= n - 1) {
            var j :| 0 <= j < |files| && files[j] == g;
          }
        }
        problems := problems + [Missing(expected, n - 1, files[i])];
        assert problems[|problems| - 1] == Missing(expected, n - 1, files[i]);
      } else {
        problems := problems + [StartsAtOne(files[i])];
        assert problems[|problems| - 1].StartsAtOne?;
      }
    }
  }

  ghost predicate SharedReported(problems: seq<Problem>, files: seq<string>, i: nat) {
    i <= |files| && forall j :: 0 <= j < i && !Alone(files, j) ==> Shared(Num(files[j]), Sharing(files, Num(files[j]))) in problems
  }

  /** The loop over the numbers in order. */
  method CheckNumbers(files: seq<string>, ghost names: seq<string>) returns (problems: seq<Problem>)
    requires ByNumber(files) && forall f :: f in files ==> Number(f).Some?
    ensures problems == [] <==> Good(files, |files|)
    ensures AllAccurate(problems, names, files) && SharedReported(problems, files, |files|)
    ensures forall f :: f in files ==> GapsReported(problems, files, Num(f))
    ensures Numbered(files, 0) ==> SaysStart(problems)
  {
    hide Reported, Good, AllAccurate, SharedReported, GapsReported, InGap, SaysStart, Expects, Numbered;
    hide Alone, Sharing, Number, Num, ByNumber;
    NothingReported(names, files);
    problems := [];
    var expected := 1;
    for i := 0 to |files|
      invariant Reported(problems, names, files, i, expected)
    {
      var n := Num(files[i]);
      if i > 0 && Num(files[i - 1]) == n {
        ReportedSkip(problems, names, files, i, expected);
        continue;
      }
      FirstOfNumber(problems, names, files, i, expected);
      var more := CheckAt(files, i, expected, names);
      ReportedMore(problems, more, names, files, i, expected);
      problems := problems + more;
      expected := if expected < n + 1 then n + 1 else expected;
    }
    AllReported(problems, names, files, expected);
  }

  /** What the loop knows before file `i`: the numbers so far are below the one expected,
      and nothing is reported exactly when the files so far are good, all that is
      reported is so, and nothing so far is left out. */
  ghost predicate Reported(problems: seq<Problem>, names: seq<string>, files: seq<string>, i: nat, expected: nat) {
    && i <= |files| && Expects(files, i, expected)
    && (problems == [] <==> Good(files, i)) && (Good(files, i) ==> expected == i + 1)
    && AllAccurate(problems, names, files) && SharedReported(problems, files, i)
    && GapsReported(problems, files, expected) && StartReported(problems, files, i)
  }

  ghost predicate Expects(files: seq<string>, i: nat, expected: nat) {
    && i <= |files| && expected >= 1 && (forall j :: 0 <= j < i ==> Num(files[j]) < expected)
    && (expected == 1 || exists j :: 0 <= j < i && expected == Num(files[j]) + 1)
  }

  ghost predicate StartReported(problems: seq<Problem>, files: seq<string>, i: nat) {
    i <= |files| && forall j :: 0 <= j < i && Num(files[j]) == 0 ==> SaysStart(problems)
  }

  lemma NothingReported(names: seq<string>, files: seq<string>)
    ensures Reported([], names, files, 0, 1)
  {
  }

  lemma AllReported(problems: seq<Problem>, names: seq<string>, files: seq<string>, expected: nat)
    requires Reported(problems, names, files, |files|, expected)
    ensures problems == [] <==> Good(files, |files|)
    ensures AllAccurate(problems, names, files) && SharedReported(problems, files, |files|)
    ensures forall f :: f in files ==> GapsReported(problems, files, Num(f))
    ensures Numbered(files, 0) ==> SaysStart(problems)
  {
    hide Good, AllAccurate, SharedReported, InGap, SaysStart;
    forall f | f in files ensures Num(f) < expected {
      var j :| 0 <= j < |files| && files[j] == f;
    }
  }

  /** The file at `i` has the number of the one before, which was not alone with it. */
  lemma ReportedSkip(problems: seq<Problem>, names: seq<string>, files: seq<string>, i: nat, expected: nat)
    requires 0 < i < |files| && Num(files[i - 1]) == Num(files[i]) && Reported(problems, names, files, i, expected)
    ensures Reported(problems, names, files, i + 1, expected)
  {
    hide AllAccurate, GapsReported, SaysStart, Num, Sharing, Number;
    assert !Alone(files, i - 1);
  }

  lemma FirstOfNumber(problems: seq<Problem>, names: seq<string>, files: seq<string>, i: nat, expected: nat)
    requires i < |files| && ByNumber(files) && (i > 0 ==> Num(files[i - 1]) != Num(files[i]))
    requires Reported(problems, names, files, i, expected)
    ensures Expects(files, i, expected) && forall j :: 0 <= j < i ==> Num(files[j]) < Num(files[i])
  {
    hide Num;
  }

  lemma ReportedMore(problems: seq<Problem>, more: seq<Problem>, names: seq<string>, files: seq<string>, i: nat, expected: nat)
    requires i < |files| && Number(files[i]).Some? && Reported(problems, names, files, i, expected)
    requires AllAccurate(more, names, files) && (more == [] <==> Alone(files, i) && Num(files[i]) == expected)
    requires !Alone(files, i) ==> Shared(Num(files[i]), Sharing(files, Num(files[i]))) in more
    requires forall k :: expected <= k < Num(files[i]) ==> InGap(more, k)
    requires Num(files[i]) == 0 ==> SaysStart(more)
    ensures Reported(problems + more, names, files, i + 1, if expected < Num(files[i]) + 1 then Num(files[i]) + 1 else expected)
  {
    hide Good, InGap, SaysStart, Num, Number, Alone, Sharing, Accurate, GapsReported, SharedReported;
    GoodMore(files, i);
    ReportsStay(problems, more, files, expected);
    GapsMore(problems + more, files, i, expected);
    SharedMore(problems, more, files, i);
  }

  lemma SharedMore(problems: seq<Problem>, more: seq<Problem>, files: seq<string>, i: nat)
    requires i < |files| && SharedReported(problems, files, i)
    requires !Alone(files, i) ==> Shared(Num(files[i]), Sharing(files, Num(files[i]))) in more
    ensures SharedReported(problems + more, files, i + 1)
  {
    hide Alone, Sharing, Num;
  }

  lemma GoodMore(files: seq<string>, i: nat)
    requires i < |files| && Number(files[i]).Some?
    ensures Good(files, i + 1) <==> Good(files, i) && Num(files[i]) == i + 1 && Alone(files, i)
  {
  }

  /** `ordered`: it succeeds exactly when every .sql file is a migration's and the
      migrations' numbers run from 1, each once; then the one of number `i + 1` is at
      `i`. The problems otherwise are each so, and no misnamed file, shared number,
      missing number or number 0000 is left out of them. */
  method Ordered(names: seq<string>) returns (r: Outcome<seq<string>, seq<Problem>>)
    ensures r.Ok? <==> CanBeOrdered(names)
    ensures r.Ok? ==> IsOrder(names, r.value)
    ensures r.Err? ==> AllAccurate(r.error, names, Sort(FileLe, WellNamed(names)))
    ensures r.Err? ==> forall f :: f in names && IsMisnamed(f) ==> Misnamed(f) in r.error
    ensures r.Err? ==> SharedReported(r.error, Sort(FileLe, WellNamed(names)), |WellNamed(names)|)
    ensures r.Err? ==> forall f :: f in WellNamed(names) ==> GapsReported(r.error, WellNamed(names), Num(f))
    ensures r.Err? && Numbered(WellNamed(names), 0) ==> SaysStart(r.error)
  {
    hide AllWellNamed, Sort, Good, Accurate, InPlace;
    var problems, files := Read(names);
    var sorted := Sort(FileLe, files);
    SortedFiles(files);
    var more := CheckNumbers(sorted, names);
    GoodIsOneToN(sorted);
    if AllWellNamed(names) {
      WellNamedAll(names);
    }
    MisnamedAccurate(problems, names, sorted);
    SortedReports(problems, more, files, sorted);
    problems := problems + more;
    if problems == [] {
      GoodInPlace(sorted);
      r := Ok(sorted);
    } else {
      r := Err(problems);
    }
  }

  /** What the loop reports of the sorted files is so of the files as listed. */
  lemma SortedReports(problems: seq<Problem>, more: seq<Problem>, files: seq<string>, sorted: seq<string>)
    requires forall f :: f in sorted <==> f in files
    requires forall f :: f in sorted ==> GapsReported(more, sorted, Num(f))
    requires Numbered(sorted, 0) ==> SaysStart(more)
    ensures forall f :: f in files ==> GapsReported(problems + more, files, Num(f))
    ensures Numbered(files, 0) ==> SaysStart(problems + more)
  {
    forall k ensures Numbered(sorted, k) <==> Numbered(files, k) {
    }
    ReportsStay(problems, more, files, 0);
    hide InGap, SaysStart, Numbered;
    forall f | f in files ensures GapsReported(problems + more, files, Num(f)) {
      assert GapsReported(more, sorted, Num(f));
    }
  }

  lemma MisnamedAccurate(problems: seq<Problem>, names: seq<string>, files: seq<string>)
    requires MisnamedOf(problems, names)
    ensures AllAccurate(problems, names, files)
  {
  }

  lemma GoodInPlace(files: seq<string>)
    requires Good(files, |files|)
    ensures InPlace(files, |files|)
  {
  }

  lemma SortedFiles(files: seq<string>)
    requires forall f :: f in files ==> Number(f).Some?
    ensures ByNumber(Sort(FileLe, files)) && |Sort(FileLe, files)| == |files|
    ensures forall f :: f in Sort(FileLe, files) <==> f in files
  {
    hide Sort;
    FileOrder();
    SortSorts(FileLe, files);
    SortKeeps(FileLe, files);
    var s := Sort(FileLe, files);
    forall i, j | 0 <= i < j < |s| ensures Num(s[i]) <= Num(s[j]) {
      assert FileLe(s[i], s[j]);
    }
  }

  lemma GoodIsOneToN(files: seq<string>)
    requires ByNumber(files) && forall f :: f in files ==> Number(f).Some?
    ensures Good(files, |files|) <==> OneToN(multiset(files))
  {
    if Good(files, |files|) {
      InPlaceOneToN(files);
    }
    if OneToN(multiset(files)) {
      OneToNDistinct(files);
      OneToNInPlace(files, 0);
    }
  }

  lemma InPlaceOneToN(files: seq<string>)
    requires InPlace(files, |files|)
    ensures OneToN(multiset(files))
  {
    assert Distinct(files) by {
      forall i, j | 0 <= i < j < |files| ensures files[i] != files[j] {
        assert Number(files[i]) != Number(files[j]);
      }
    }
    forall f | f in multiset(files) ensures multiset(files)[f] == 1 && 1 <= Num(f) <= |files| {
      assert f in files;
      DistinctOnce(files, f);
      var i :| 0 <= i < |files| && files[i] == f;
    }
    forall f, g | f in multiset(files) && g in multiset(files) && f != g ensures Num(f) != Num(g) {
      var i :| 0 <= i < |files| && files[i] == f;
      var j :| 0 <= j < |files| && files[j] == g;
    }
  }

  lemma OneToNDistinct(files: seq<string>)
    requires OneToN(multiset(files))
    ensures forall i, j :: 0 <= i < j < |files| ==> Num(files[i]) != Num(files[j])
  {
    forall i, j | 0 <= i < j < |files| ensures Num(files[i]) != Num(files[j]) {
      assert files[i] in multiset(files) && files[j] in multiset(files);
      if files[i] == files[j] {
        Twice(files, i, j);
      }
    }
  }

  /** Numbers that increase from at least 1 to at most how many they are go up by one. */
  lemma {:induction false} OneToNInPlace(files: seq<string>, i: nat)
    requires ByNumber(files) && forall f :: f in files ==> Number(f).Some?
    requires forall j, k :: 0 <= j < k < |files| ==> Num(files[j]) != Num(files[k])
    requires OneToN(multiset(files)) && i <= |files|
    ensures Good(files, |files|)
  {
    forall j | 0 <= j < |files| ensures Num(files[j]) == j + 1 {
      AtLeast(files, j);
      AtMost(files, j);
    }
    forall j | 0 <= j < |files| ensures Alone(files, j) && Number(files[j]) == Some(j + 1) {
      assert files[j] in files;
    }
  }

  lemma {:induction false} AtLeast(files: seq<string>, j: nat)
    requires ByNumber(files) && OneToN(multiset(files)) && j < |files|
    requires forall i, k :: 0 <= i < k < |files| ==> Num(files[i]) != Num(files[k])
    ensures Num(files[j]) >= j + 1
  {
    assert files[j] in multiset(files);
    if j > 0 {
      AtLeast(files, j - 1);
    }
  }

  lemma {:induction false} AtMost(files: seq<string>, j: nat)
    requires ByNumber(files) && OneToN(multiset(files)) && j < |files|
    requires forall i, k :: 0 <= i < k < |files| ==> Num(files[i]) != Num(files[k])
    ensures Num(files[j]) <= j + 1
    decreases |files| - j
  {
    assert files[j] in multiset(files);
    assert |multiset(files)| == |files|;
    if j < |files| - 1 {
      AtMost(files, j + 1);
    }
  }

  /** There is one order. */
  lemma OneOrder(names: seq<string>, a: seq<string>, b: seq<string>)
    requires IsOrder(names, a) && IsOrder(names, b)
    ensures a == b
  {
    assert |a| == |multiset(a)| == |multiset(b)| == |b|;
    forall i | 0 <= i < |a| ensures a[i] == b[i] {
      assert a[i] in multiset(a) && a[i] in multiset(b);
      var j :| 0 <= j < |b| && b[j] == a[i];
      assert Number(b[j]) == Some(j + 1) && Number(a[i]) == Some(i + 1);
    }
  }

  /** A file renumbered to come next makes the migrations one longer. */
  lemma NextRenumbered(names: seq<string>, order: seq<string>, file: string)
    requires IsOrder(names, order) && Number(file).Some? && |order| < 9999
    ensures IsOrder(names + [Renumbered(file, |order| + 1)], order + [Renumbered(file, |order| + 1)])
  {
    var next := Renumbered(file, |order| + 1);
    RenumberedExact(file, |order| + 1);
    assert (names + [next])[..|names|] == names;
    assert SqlOf(names + [next]) == SqlOf(names) + [next];
  }

  // ----- the series matched by name

  const BASE := "base.sql"

  datatype SeriesProblem =
    | NoBase
    | PastTheEnd(version: nat)
    | NameTaken(migration: string)
    | NoFile(migration: string)
    | Unmatched(file: string)

  function NameOf(migration: string): string
    requires |migration| >= 5
  {
    migration[5..]
  }

  /** `sqlite.get(base..).unwrap_or_default()`. */
  function AfterBase(sqlite: seq<string>, base: nat): seq<string> {
    if base <= |sqlite| then sqlite[base..] else []
  }

  predicate AllNamed(migrations: seq<string>) {
    forall i :: 0 <= i < |migrations| ==> |migrations[i]| >= 5
  }

  predicate Named(sqlite: seq<string>, base: nat) {
    AllNamed(AfterBase(sqlite, base))
  }

  function NamesOf(migrations: seq<string>): (names: seq<string>)
    requires AllNamed(migrations)
    ensures |names| == |migrations|
    ensures forall i :: 0 <= i < |names| ==> names[i] == NameOf(migrations[i])
  {
    seq(|migrations|, i requires 0 <= i < |migrations| => NameOf(migrations[i]))
  }

  /** The names of the migrations after the base, in their order. */
  function Series(sqlite: seq<string>, base: nat): seq<string>
    requires Named(sqlite, base)
  {
    NamesOf(AfterBase(sqlite, base))
  }

  /** The series is the names, each from after its migration's number, of those past the base. */
  lemma SeriesExact(sqlite: seq<string>, base: nat)
    requires Named(sqlite, base)
    ensures |Series(sqlite, base)| == if base <= |sqlite| then |sqlite| - base else 0
    ensures forall i :: base <= i < |sqlite| ==> |sqlite[i]| >= 5 && Series(sqlite, base)[i - base] == sqlite[i][5..]
  {
    var after := AfterBase(sqlite, base);
    forall i | base <= i < |sqlite| ensures |sqlite[i]| >= 5 && Series(sqlite, base)[i - base] == sqlite[i][5..] {
      assert after[i - base] == sqlite[i];
    }
  }

  /** The names are different from one another and from the base's. */
  ghost predicate FreeNames(series: seq<string>) {
    Distinct(series) && BASE !in series
  }

  ghost predicate AllPresent(series: seq<string>, postgres: seq<string>) {
    forall f :: f in series ==> f in postgres
  }

  ghost predicate AllMatched(series: seq<string>, postgres: seq<string>) {
    forall f :: f in postgres && IsSql(f) ==> f == BASE || f in series
  }

  /** The .sql files are the base and, one to one, the migrations after it. */
  ghost predicate Matches(sqlite: seq<string>, base: nat, postgres: seq<string>)
    requires Named(sqlite, base)
  {
    && BASE in postgres && base <= |sqlite|
    && FreeNames(Series(sqlite, base)) && AllPresent(Series(sqlite, base), postgres)
    && AllMatched(Series(sqlite, base), postgres)
  }

  lemma FreeNamesMore(series: seq<string>, file: string)
    ensures FreeNames(series + [file]) <==> FreeNames(series) && file != BASE && file !in series
  {
    var more := series + [file];
    assert more[|series|] == file && forall i :: 0 <= i < |series| ==> more[i] == series[i];
  }

  lemma AllPresentMore(series: seq<string>, file: string, postgres: seq<string>)
    ensures AllPresent(series + [file], postgres) <==> AllPresent(series, postgres) && file in postgres
  {
    assert file in series + [file];
    assert forall f :: f in series ==> f in series + [file];
  }

  lemma NoNames(postgres: seq<string>)
    ensures FreeNames([]) && AllPresent([], postgres)
  {
  }

  /** Another migration before it, or the base, has the name. */
  ghost predicate TakenAt(after: seq<string>, i: nat)
    requires AllNamed(after) && i < |after|
  {
    after[i][5..] == "base.sql" || exists j :: 0 <= j < i && after[j][5..] == after[i][5..]
  }

  /** What is wrong with the name of migration `i`: it is taken, or else has no file. */
  ghost predicate Says(p: SeriesProblem, after: seq<string>, postgres: seq<string>, i: nat)
    requires AllNamed(after) && i < |after|
  {
    if TakenAt(after, i) then p == NameTaken(after[i])
    else p == NoFile(after[i]) && after[i][5..] !in postgres
  }

  /** So of one of the first `n` migrations. */
  ghost predicate SaidTo(p: SeriesProblem, after: seq<string>, postgres: seq<string>, n: nat)
    requires AllNamed(after) && n <= |after|
  {
    exists i :: 0 <= i < n && Says(p, after, postgres, i)
  }

  lemma NoneSaid(after: seq<string>, postgres: seq<string>)
    requires AllNamed(after)
    ensures forall p :: !SaidTo(p, after, postgres, 0)
  {
  }

  lemma SaidMore(after: seq<string>, postgres: seq<string>, i: nat)
    requires AllNamed(after) && i < |after|
    ensures forall p :: SaidTo(p, after, postgres, i + 1) <==> SaidTo(p, after, postgres, i) || Says(p, after, postgres, i)
  {
    hide Says;
  }

  lemma SaysExact(after: seq<string>, postgres: seq<string>, i: nat)
    requires AllNamed(after) && i < |after|
    ensures var taken := NameOf(after[i]) == BASE || NameOf(after[i]) in NamesOf(after)[..i];
            forall p :: Says(p, after, postgres, i) <==>
                        if taken then p == NameTaken(after[i]) else p == NoFile(after[i]) && NameOf(after[i]) !in postgres
  {
    var series, file := NamesOf(after)[..i], NameOf(after[i]);
    assert forall j :: 0 <= j < i ==> series[j] == after[j][5..];
    assert TakenAt(after, i) <==> file == BASE || file in series;
    hide TakenAt;
  }

  /** The loop over the migrations after the base. */
  method MatchNames(after: seq<string>, postgres: seq<string>)
    returns (problems: seq<SeriesProblem>, series: seq<string>)
    requires AllNamed(after)
    ensures series == NamesOf(after)
    ensures problems == [] <==> FreeNames(series) && AllPresent(series, postgres)
    ensures forall p :: p in problems <==> SaidTo(p, after, postgres, |after|)
  {
    hide FreeNames, AllPresent, NameOf, Says, SaidTo;
    problems, series := [], [];
    NoNames(postgres);
    NoneSaid(after, postgres);
    for i := 0 to |after|
      invariant series == NamesOf(after)[..i]
      invariant problems == [] <==> FreeNames(series) && AllPresent(series, postgres)
      invariant forall p :: p in problems <==> SaidTo(p, after, postgres, i)
    {
      var file := NameOf(after[i]);
      FreeNamesMore(series, file);
      AllPresentMore(series, file, postgres);
      SaidMore(after, postgres, i);
      SaysExact(after, postgres, i);
      ghost var before := problems;
      if file == BASE || file in series {
        problems := problems + [NameTaken(after[i])];
      } else if file !in postgres {
        problems := problems + [NoFile(after[i])];
      }
      assert forall p :: p in problems <==> p in before || Says(p, after, postgres, i);
      series := series + [file];
    }
  }

  /** What is wrong: no base, a version past the migrations, a name taken or without a
      file, or a .sql file of no migration. */
  ghost predicate Wrong(p: SeriesProblem, sqlite: seq<string>, base: nat, postgres: seq<string>)
    requires Named(sqlite, base)
  {
    || (p == NoBase && "base.sql" !in postgres)
    || (p == PastTheEnd(base) && base > |sqlite|)
    || SaidTo(p, AfterBase(sqlite, base), postgres, |AfterBase(sqlite, base)|)
    || (p.Unmatched? && p.file in postgres && IsSql(p.file) && p.file != "base.sql" && p.file !in Series(sqlite, base))
  }

  /** `postgres_series`: it succeeds exactly when the directory matches, with the names
      in the migrations' order. */
  method PostgresSeries(sqlite: seq<string>, base: nat, postgres: seq<string>)
    returns (r: Outcome<seq<string>, seq<SeriesProblem>>)
    requires Named(sqlite, base)
    ensures r.Ok? <==> Matches(sqlite, base, postgres)
    ensures r.Ok? ==> r.value == Series(sqlite, base)
    ensures r.Err? ==> forall p :: p in r.error <==> Wrong(p, sqlite, base, postgres)
  {
    var problems: seq<SeriesProblem> := [];
    if BASE !in postgres {
      problems := problems + [NoBase];
    }
    if base > |sqlite| {
      problems := problems + [PastTheEnd(base)];
    }
    var more, series := MatchNames(AfterBase(sqlite, base), postgres);
    var unmatched := Unmatchable(series, postgres);
    assert forall p :: p in problems <==> (p == NoBase && BASE !in postgres) || (p == PastTheEnd(base) && base > |sqlite|);
    problems := problems + more + unmatched;
    r := if problems == [] then Ok(series) else Err(problems);
  }

  method Unmatchable(series: seq<string>, postgres: seq<string>) returns (problems: seq<SeriesProblem>)
    ensures problems == [] <==> AllMatched(series, postgres)
    ensures forall f :: Unmatched(f) in problems <==> f in postgres && IsSql(f) && f != BASE && f !in series
    ensures forall p :: p in problems ==> p.Unmatched?
  {
    problems := [];
    for i := 0 to |postgres|
      invariant forall f :: Unmatched(f) in problems <==> f in postgres[..i] && IsSql(f) && f != BASE && f !in series
      invariant forall p :: p in problems ==> p.Unmatched?
    {
      assert postgres[..i + 1] == postgres[..i] + [postgres[i]];
      if IsSql(postgres[i]) && postgres[i] != BASE && postgres[i] !in series {
        problems := problems + [Unmatched(postgres[i])];
      }
    }
    assert postgres[..|postgres|] == postgres;
    assert AllMatched(series, postgres) <==> forall f :: Unmatched(f) !in problems;
    if problems != [] {
      assert problems[0] == Unmatched(problems[0].file);
    }
  }

  /** `after` is `before` with some migrations after the base renumbered. */
  ghost predicate RenumberedSome(before: seq<string>, after: seq<string>, base: nat) {
    |before| == |after| && forall i :: base <= i < |before| ==> RenumberedOne(before[i], after[i])
  }

  ghost predicate RenumberedOne(before: string, after: string) {
    Number(before).Some? && (after == before || exists n :: n <= 9999 && after == Renumbered(before, n))
  }

  /** Renumbering migrations after the base, position by position, changes neither
      success nor the series of `postgres_series` by itself. */
  lemma RenumberingKeepsSeries(before: seq<string>, after: seq<string>, base: nat, postgres: seq<string>)
    requires RenumberedSome(before, after, base)
    ensures Named(before, base) && Named(after, base) && Series(after, base) == Series(before, base)
    ensures Matches(after, base, postgres) <==> Matches(before, base, postgres)
  {
    forall i | base <= i < |before|
      ensures |before[i]| >= 5 && |after[i]| >= 5 && after[i][5..] == before[i][5..]
    {
      assert RenumberedOne(before[i], after[i]);
      if after[i] != before[i] {
        var n :| n <= 9999 && after[i] == Renumbered(before[i], n);
        RenumberedExact(before[i], n);
      }
    }
    var a, b := AfterBase(after, base), AfterBase(before, base);
    forall i | 0 <= i < |a| ensures |a[i]| >= 5 && |b[i]| >= 5 && NameOf(a[i]) == NameOf(b[i]) {
      var k := base + i;
      assert a[i] == after[k] && b[i] == before[k];
    }
    assert NamesOf(a) == NamesOf(b);
  }

  lemma SeriesMore(order: seq<string>, next: string, base: nat)
    requires base <= |order| && Named(order, base) && |next| >= 5
    ensures Named(order + [next], base) && Series(order + [next], base) == Series(order, base) + [next[5..]]
  {
    assert AfterBase(order + [next], base) == AfterBase(order, base) + [next];
  }

  /** A migration renumbered to come next, with its file of the series added: the
      directory is in order, the series has the file's name after the others, and the two
      match exactly when the name is free. */
  lemma RenumberedLands(names: seq<string>, order: seq<string>, base: nat, postgres: seq<string>, file: string)
    requires IsOrder(names, order) && |order| < 9999 && Number(file).Some?
    requires Named(order, base) && Matches(order, base, postgres)
    ensures var next, name := Renumbered(file, |order| + 1), file[5..];
            && IsOrder(names + [next], order + [next])
            && Named(order + [next], base) && Series(order + [next], base) == Series(order, base) + [name]
            && (Matches(order + [next], base, postgres + [name]) <==> name != BASE && name !in Series(order, base))
  {
    var next, name := Renumbered(file, |order| + 1), file[5..];
    NextRenumbered(names, order, file);
    RenumberedExact(file, |order| + 1);
    assert next[5..] == name;
    SeriesMore(order, next, base);
    FreeNamesMore(Series(order, base), name);
    hide Renumbered, Number, Named, Series, IsOrder, FreeNames;
    FileAdded(Series(order, base), postgres, name);
    assert BASE in postgres + [name];
  }

  lemma FileAdded(series: seq<string>, postgres: seq<string>, name: string)
    requires AllPresent(series, postgres) && AllMatched(series, postgres)
    ensures AllPresent(series + [name], postgres + [name]) && AllMatched(series + [name], postgres + [name])
  {
    hide IsSql;
    assert forall f :: f in series + [name] <==> f in series || f == name;
    assert forall f :: f in postgres + [name] <==> f in postgres || f == name;
  }

  /** A directory with a file of a number past 9999 is refused. */
  lemma FiveDigitsRefused(names: seq<string>, file: string, n: nat)
    requires Number(file).Some? && n > 9999 && Renumbered(file, n) in names
    ensures !CanBeOrdered(names)
  {
    var f := Renumbered(file, n);
    RenumberedExact(file, n);
    DigitsRead(file, n);
    var i :| 0 <= i < |names| && names[i] == f;
    assert IsSql(names[i]) && Number(names[i]).None?;
  }

  lemma DigitsRead(file: string, n: nat)
    requires Number(file).Some? && n > 9999
    ensures Number(Renumbered(file, n)).None?
  {
    DecimalLength(n);
    var d, f := Digits(n), Renumbered(file, n);
    assert |d| > 4 && f[4..][0] == d[4] && IsDigit(d[4]);
  }

  lemma SeriesOfOne(file: string)
    requires |file| >= 5
    ensures Named([file], 0) && Series([file], 0) == [file[5..]]
  {
    assert AfterBase([file], 0) == [file];
  }

  /** Five digits do change it, for `postgres_series` by itself; `ordered` has refused
      such a directory before. */
  lemma FiveDigitsChangeSeries()
    ensures Matches(["0001_a.sql"], 0, ["base.sql", "a.sql"])
    ensures Named([Renumbered("0001_a.sql", 10000)], 0)
    ensures !Matches([Renumbered("0001_a.sql", 10000)], 0, ["base.sql", "a.sql"])
  {
    var file, postgres := "0001_a.sql", ["base.sql", "a.sql"];
    assert postgres[0] == BASE && postgres[1] == "a.sql" && file[5..] == "a.sql";
    SeriesOfOne(file);
    var five := Renumbered(file, 10000);
    assert |five| == |Digits(10000)| + 6;
    SeriesOfOne(five);
    assert Number(file).Some? by {
      assert file[..4] == "0001" && file[4..] == "_a.sql" && file[4..][1..] == "a.sql";
    }
    RenumberedExact(file, 10000);
    assert [five[5..]][0] == five[5..] && |five[5..]| > 5;
  }

  // ----- a number spelled in a file of the series

  function DigitsAhead(text: string): (n: nat)
    ensures n <= |text| && (n < |text| ==> !IsDigit(text[n]))
    ensures forall i :: 0 <= i < n ==> IsDigit(text[i])
  {
    if text == "" || !IsDigit(text[0]) then 0
    else DigitsAhead(text[1..]) + 1
  }

  /** The text split at every character that is not a digit. */
  function Pieces(text: string): seq<string>
    decreases |text|
  {
    var n := DigitsAhead(text);
    if n == |text| then [text] else [text[..n]] + Pieces(text[n + 1..])
  }

  function FirstOfFour(pieces: seq<string>): Option<string> {
    if pieces == [] then None
    else if |pieces[0]| == 4 && pieces[0][0] == '0' then Some(pieces[0])
    else FirstOfFour(pieces[1..])
  }

  ghost predicate Holds(text: string, part: string) {
    exists i :: StandsAt(text, part, i)
  }

  predicate StandsAt(text: string, part: string, i: nat) {
    i + |part| <= |text| && text[i..i + |part|] == part
  }

  ghost function SpelledNumber(text: string, own: Option<string>): Option<string> {
    if own.Some? && Holds(text, own.value) then own else FirstOfFour(Pieces(text))
  }

  /** Four digits with a leading zero stand at `i`, not within longer digits. */
  predicate FourAt(text: string, i: int) {
    && 0 <= i <= |text| - 4 && text[i] == '0' && IsDigit(text[i + 1]) && IsDigit(text[i + 2]) && IsDigit(text[i + 3])
    && (i > 0 ==> !IsDigit(text[i - 1])) && (i + 4 < |text| ==> !IsDigit(text[i + 4]))
  }

  /** `four` is the first of them, at `i`. */
  ghost predicate FirstFour(text: string, i: int, four: string) {
    FourAt(text, i) && text[i..i + 4] == four && forall j :: j < i ==> !FourAt(text, j)
  }

  /** The first such four digits, and none only when there are none. */
  lemma {:induction false} FirstFourExact(text: string)
    ensures FirstOfFour(Pieces(text)).Some? ==>
              exists i :: FirstFour(text, i, FirstOfFour(Pieces(text)).value)
    ensures FirstOfFour(Pieces(text)).None? ==> forall i :: !FourAt(text, i)
    decreases |text|
  {
    hide FourAt, FirstFour, FirstOfFour, Pieces, DigitsAhead;
    var n := DigitsAhead(text);
    FirstPiece(text);
    if n == 4 && text[0] == '0' {
      FirstFourHere(text);
    } else {
      NoFourAhead(text);
      if n < |text| {
        var rest := text[n + 1..];
        FirstFourExact(rest);
        if FirstOfFour(Pieces(rest)).Some? {
          var four := FirstOfFour(Pieces(rest)).value;
          var i :| FirstFour(rest, i, four);
          FirstFourLater(text, n, i, four);
        } else {
          forall i ensures !FourAt(text, i) {
            FourLater(text, n, i);
          }
        }
      } else {
        NoFourPast(text);
      }
    }
  }

  /** `spelled_number`: the file's own number where it stands, or else the first such four
      digits; what is found stands in the text, and nothing is found only when there is
      neither. */
  lemma SpelledExact(text: string, own: Option<string>)
    ensures own.Some? && Holds(text, own.value) ==> SpelledNumber(text, own) == own
    ensures !(own.Some? && Holds(text, own.value)) && SpelledNumber(text, own).Some? ==>
              exists i :: FirstFour(text, i, SpelledNumber(text, own).value)
    ensures SpelledNumber(text, own).Some? ==> Holds(text, SpelledNumber(text, own).value)
    ensures SpelledNumber(text, own).None? <==>
            !(own.Some? && Holds(text, own.value)) && forall i :: !FourAt(text, i)
  {
    FirstFourExact(text);
    hide FourAt, Pieces, FirstOfFour;
    if !(own.Some? && Holds(text, own.value)) && SpelledNumber(text, own).Some? {
      var four := SpelledNumber(text, own).value;
      var i :| FirstFour(text, i, four);
      FourStands(text, i, four);
      assert StandsAt(text, four, i);
    }
  }

  lemma FourStands(text: string, i: int, four: string)
    requires FirstFour(text, i, four)
    ensures FourAt(text, i) && 0 <= i && |four| == 4 && i + 4 <= |text| && text[i..i + 4] == four
  {
  }

  lemma FirstPiece(text: string)
    ensures DigitsAhead(text) == 4 && text[0] == '0' ==> FirstOfFour(Pieces(text)) == Some(text[..4])
    ensures !(DigitsAhead(text) == 4 && text[0] == '0') ==>
              FirstOfFour(Pieces(text))
              == if DigitsAhead(text) < |text| then FirstOfFour(Pieces(text[DigitsAhead(text) + 1..])) else None
  {
    var n, pieces := DigitsAhead(text), Pieces(text);
    if n < |text| {
      assert pieces[1..] == Pieces(text[n + 1..]);
    } else {
      assert text[..n] == text && pieces[1..] == [];
    }
  }

  lemma FirstFourHere(text: string)
    requires DigitsAhead(text) == 4 && text[0] == '0'
    ensures FirstFour(text, 0, text[..4])
  {
  }

  lemma NoFourAhead(text: string)
    requires !(DigitsAhead(text) == 4 && text[0] == '0')
    ensures forall i :: i <= DigitsAhead(text) ==> !FourAt(text, i)
  {
    forall i | i <= DigitsAhead(text) ensures !FourAt(text, i) {
      if FourAt(text, i) {
        FourAhead(text, i);
      }
    }
  }

  lemma NoFourPast(text: string)
    ensures forall i :: i >= |text| ==> !FourAt(text, i)
  {
  }

  lemma FirstFourLater(text: string, n: nat, i: int, four: string)
    requires n < |text| && !IsDigit(text[n]) && forall j :: j <= n ==> !FourAt(text, j)
    requires FirstFour(text[n + 1..], i, four)
    ensures FirstFour(text, i + n + 1, four)
  {
    var rest := text[n + 1..];
    assert 0 <= i && i + 4 <= |rest| && rest[i..i + 4] == four;
    hide FourAt, IsDigit;
    forall j | j < i + n + 1 ensures !FourAt(text, j) {
      FourLater(text, n, j);
    }
    FourLater(text, n, i + n + 1);
    SliceLater(text, n + 1, i);
  }

  lemma SliceLater(text: string, n: nat, i: nat)
    requires n + i + 4 <= |text|
    ensures text[i + n..i + n + 4] == text[n..][i..i + 4]
  {
  }

  lemma FourAhead(text: string, i: int)
    requires FourAt(text, i) && i <= DigitsAhead(text)
    ensures i == 0 && DigitsAhead(text) == 4
  {
    var n := DigitsAhead(text);
    assert i <= n;
    assert i > 0 ==> i - 1 < n;
  }

  lemma FourLater(text: string, n: nat, i: int)
    requires n < |text| && !IsDigit(text[n])
    ensures n < i ==> (FourAt(text, i) <==> FourAt(text[n + 1..], i - n - 1))
  {
  }
}
