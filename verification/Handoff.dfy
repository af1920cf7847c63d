/** The arguments a supervisor hands to the binary it execs, rewritten again after
    each exec that fails (`handoff_arguments` and the loop of `run` in src/main.rs). */
module Handoff {

  /** An argument: text, or bytes that are no text. */
  datatype Arg = Utf8(text: string) | Raw(bytes: seq<nat>)

  const TOKEN_OPTION := "--handoff-token"
  const MODE_OPTION := "--mode"
  const DROPPED := [TOKEN_OPTION, MODE_OPTION]
  const OPTIONAL := "--codex"

  predicate StartsWith(text: string, prefix: string) {
    |text| >= |prefix| && text[..|prefix|] == prefix
  }

  /** The argument is one of the options; its value is the next argument. */
  predicate IsOption(a: Arg, options: seq<string>) {
    a.Utf8? && a.text in options
  }

  /** The argument is one of the options with its value, `--option=value`. */
  predicate WithValue(a: Arg, options: seq<string>) {
    a.Utf8? && exists i :: 0 <= i < |options| && StartsWith(a.text, options[i] + "=")
  }

  // ----- which arguments are dropped

  /** Argument `i` is the value of an option before it. */
  predicate ValueAt(args: seq<Arg>, i: nat, options: seq<string>)
    requires i <= |args|
  {
    i > 0 && IsOption(args[i - 1], options) && !ValueAt(args, i - 1, options)
  }

  predicate DroppedAt(args: seq<Arg>, i: nat, options: seq<string>)
    requires i < |args|
  {
    ValueAt(args, i, options) || IsOption(args[i], options) || WithValue(args[i], options)
  }

  /** The arguments before `n` that are not dropped, in their order. */
  function KeptTo(args: seq<Arg>, n: nat, options: seq<string>): (kept: seq<Arg>)
    requires n <= |args|
    ensures |kept| <= n
  {
    if n == 0 then []
    else KeptTo(args, n - 1, options) + if DroppedAt(args, n - 1, options) then [] else [args[n - 1]]
  }

  function Kept(args: seq<Arg>, options: seq<string>): (kept: seq<Arg>)
    ensures |kept| <= |args|
  {
    KeptTo(args, |args|, options)
  }

  function Rewritten(args: seq<Arg>, token: string, dropped: seq<string>): seq<Arg> {
    Kept(args, DROPPED + dropped) + [Utf8(TOKEN_OPTION), Utf8(token)]
  }

  method AnyWithValue(a: Arg, options: seq<string>) returns (found: bool)
    requires a.Utf8?
    ensures found == WithValue(a, options)
  {
    found := false;
    for i := 0 to |options|
      invariant found <==> exists j :: 0 <= j < i && StartsWith(a.text, options[j] + "=")
    {
      found := found || StartsWith(a.text, options[i] + "=");
    }
  }

  /** `handoff_arguments`. */
  method HandoffArguments(arguments: seq<Arg>, token: string, dropped: seq<string>) returns (kept: seq<Arg>)
    ensures kept == Rewritten(arguments, token, dropped)
  {
    kept := [];
    var skip := false;
    var options := DROPPED + dropped;
    for i := 0 to |arguments|
      invariant kept == KeptTo(arguments, i, options)
      invariant skip == ValueAt(arguments, i, options)
    {
      var argument := arguments[i];
      if skip {
        skip := false;
        continue;
      }
      if IsOption(argument, options) {
        skip := true;
        continue;
      }
      if argument.Utf8? {
        var found := AnyWithValue(argument, options);
        if found {
          continue;
        }
      }
      kept := kept + [argument];
    }
    kept := kept + [Utf8(TOKEN_OPTION), Utf8(token)];
  }

  // ----- what is left

  /** The argument is the option, alone or with its value. */
  ghost predicate Spells(a: Arg, option: string) {
    a == Utf8(option) || exists value: string :: a == Utf8(option + "=" + value)
  }

  /** None of the arguments is one of the options. */
  ghost predicate Clean(args: seq<Arg>, options: seq<string>) {
    forall i, option :: 0 <= i < |args| && option in options ==> !Spells(args[i], option)
  }

  lemma StartsExact(text: string, option: string)
    ensures StartsWith(text, option + "=") <==> exists value: string :: text == option + "=" + value
  {
    if StartsWith(text, option + "=") {
      assert text == option + "=" + text[|option| + 1..];
    }
  }

  lemma SpellsExact(a: Arg, options: seq<string>)
    ensures IsOption(a, options) || WithValue(a, options) <==> exists option :: option in options && Spells(a, option)
  {
    hide StartsWith;
    if IsOption(a, options) {
      assert Spells(a, a.text);
    }
    if WithValue(a, options) {
      var i :| 0 <= i < |options| && StartsWith(a.text, options[i] + "=");
      StartsExact(a.text, options[i]);
      assert options[i] in options && Spells(a, options[i]);
    }
    if option :| option in options && Spells(a, option) {
      if a != Utf8(option) {
        StartsExact(a.text, option);
      }
    }
  }

  lemma CleanExact(args: seq<Arg>, options: seq<string>)
    ensures Clean(args, options) <==> forall i :: 0 <= i < |args| ==> !IsOption(args[i], options) && !WithValue(args[i], options)
  {
    hide IsOption, WithValue, Spells;
    forall i | 0 <= i < |args|
      ensures IsOption(args[i], options) || WithValue(args[i], options) <==> exists option :: option in options && Spells(args[i], option)
    {
      SpellsExact(args[i], options);
    }
  }

  lemma {:induction false} KeptToClean(args: seq<Arg>, n: nat, options: seq<string>)
    requires n <= |args|
    ensures Clean(KeptTo(args, n, options), options)
  {
    CleanExact(KeptTo(args, n, options), options);
    if n > 0 {
      KeptToClean(args, n - 1, options);
      CleanExact(KeptTo(args, n - 1, options), options);
    }
    hide IsOption, WithValue, Spells, Clean;
  }

  lemma {:induction false} CleanKept(args: seq<Arg>, n: nat, options: seq<string>)
    requires n <= |args| && Clean(args, options)
    ensures KeptTo(args, n, options) == args[..n] && !ValueAt(args, n, options)
  {
    CleanExact(args, options);
    if n > 0 {
      CleanKept(args, n - 1, options);
    }
  }

  lemma {:induction false} KeptPrefix(a: seq<Arg>, b: seq<Arg>, n: nat, options: seq<string>)
    requires n <= |a|
    ensures KeptTo(a + b, n, options) == KeptTo(a, n, options)
    ensures ValueAt(a + b, n, options) == ValueAt(a, n, options)
  {
    if n > 0 {
      KeptPrefix(a, b, n - 1, options);
      assert (a + b)[n - 1] == a[n - 1];
    }
  }

  lemma {:induction false} KeptSuffix(a: seq<Arg>, b: seq<Arg>, n: nat, options: seq<string>)
    requires n <= |b| && !ValueAt(a, |a|, options)
    ensures KeptTo(a + b, |a| + n, options) == Kept(a, options) + KeptTo(b, n, options)
    ensures ValueAt(a + b, |a| + n, options) == ValueAt(b, n, options)
  {
    hide IsOption, WithValue;
    var all, k := a + b, |a| + n;
    if n == 0 {
      KeptPrefix(a, b, |a|, options);
      assert KeptTo(b, 0, options) == [];
    } else {
      KeptSuffix(a, b, n - 1, options);
      assert all[k - 1] == b[n - 1];
      assert DroppedAt(all, k - 1, options) == DroppedAt(b, n - 1, options);
      var last := if DroppedAt(b, n - 1, options) then [] else [b[n - 1]];
      assert KeptTo(all, k, options) == KeptTo(all, k - 1, options) + last;
      assert Kept(a, options) + KeptTo(b, n - 1, options) + last == Kept(a, options) + (KeptTo(b, n - 1, options) + last);
    }
  }

  /** Arguments after one that waits for no value are kept or dropped by themselves. */
  lemma KeptJoin(a: seq<Arg>, b: seq<Arg>, options: seq<string>)
    requires !ValueAt(a, |a|, options)
    ensures Kept(a + b, options) == Kept(a, options) + Kept(b, options)
  {
    KeptSuffix(a, b, |b|, options);
  }

  /** An option goes with its value, whatever that is, and nothing else goes with it. */
  lemma PairDropped(a: seq<Arg>, option: string, value: Arg, b: seq<Arg>, options: seq<string>)
    requires !ValueAt(a, |a|, options) && option in options
    ensures Kept(a + [Utf8(option), value] + b, options) == Kept(a, options) + Kept(b, options)
  {
    var pair := [Utf8(option), value];
    assert IsOption(pair[0], options) && !ValueAt(pair, 0, options) && ValueAt(pair, 1, options);
    assert KeptTo(pair, 1, options) == [] && KeptTo(pair, 2, options) == [];
    assert !ValueAt(pair, 2, options);
    assert a + pair + b == a + (pair + b);
    KeptJoin(a, pair + b, options);
    KeptJoin(pair, b, options);
  }

  // ----- the arguments as they are meant

  /** An argument of its own, an option with its value after it, or with an equals sign. */
  datatype Item = Own(arg: Arg) | Pair(option: string, value: Arg) | Joined(option: string, text: string)

  function Print(item: Item): seq<Arg> {
    match item
    case Own(arg) => [arg]
    case Pair(option, value) => [Utf8(option), value]
    case Joined(option, text) => [Utf8(option + "=" + text)]
  }

  function PrintAll(items: seq<Item>): seq<Arg> {
    if items == [] then [] else Print(items[0]) + PrintAll(items[1..])
  }

  /** The arguments of their own, in order. */
  function Owned(items: seq<Item>): seq<Arg> {
    if items == [] then [] else (if items[0].Own? then [items[0].arg] else []) + Owned(items[1..])
  }

  /** Pairs and joined values are of the options, and no other argument is. */
  ghost predicate ItemOk(item: Item, options: seq<string>) {
    match item
    case Own(arg) => forall option :: option in options ==> !Spells(arg, option)
    case Pair(option, _) => option in options
    case Joined(option, text) => option in options && option + "=" + text !in options
  }

  /** An option at the very end, whose value is missing. */
  function Last(option: seq<string>): seq<Arg> {
    seq(|option|, i requires 0 <= i < |option| => Utf8(option[i]))
  }

  lemma ItemKept(item: Item, rest: seq<Arg>, options: seq<string>)
    requires ItemOk(item, options)
    ensures Kept(Print(item) + rest, options) == (if item.Own? then [item.arg] else []) + Kept(rest, options)
  {
    match item
    case Own(arg) =>
      SpellsExact(arg, options);
      OneKept(arg, rest, options);
    case Pair(option, value) =>
      PairDropped([], option, value, rest, options);
      assert [] + [Utf8(option), value] + rest == Print(item) + rest;
    case Joined(option, text) =>
      var arg := Utf8(option + "=" + text);
      assert Spells(arg, option);
      SpellsExact(arg, options);
      OneKept(arg, rest, options);
  }

  lemma OneKept(arg: Arg, rest: seq<Arg>, options: seq<string>)
    requires !IsOption(arg, options)
    ensures Kept([arg] + rest, options) == (if WithValue(arg, options) then [] else [arg]) + Kept(rest, options)
  {
    assert !ValueAt([arg], 0, options) && !ValueAt([arg], 1, options);
    assert KeptTo([arg], 0, options) == [];
    KeptJoin([arg], rest, options);
  }

  lemma LastDropped(last: seq<string>, options: seq<string>)
    requires |last| <= 1 && forall option :: option in last ==> option in options
    ensures Kept(Last(last), options) == []
  {
    if last != [] {
      assert last[0] in options && !ValueAt(Last(last), 0, options);
      assert KeptTo(Last(last), 0, options) == [];
    }
  }

  /** What is kept are the arguments of their own, in order: an option goes with its
      value, whatever that is, or with what its equals sign joins to it, or alone at the end. */
  lemma {:induction false} KeptExactly(items: seq<Item>, last: seq<string>, options: seq<string>)
    requires forall i :: 0 <= i < |items| ==> ItemOk(items[i], options)
    requires |last| <= 1 && forall option :: option in last ==> option in options
    ensures Kept(PrintAll(items) + Last(last), options) == Owned(items)
  {
    hide Kept, ItemOk, Print, Last;
    if items == [] {
      LastDropped(last, options);
      assert PrintAll(items) + Last(last) == Last(last);
    } else {
      var rest := PrintAll(items[1..]) + Last(last);
      KeptExactly(items[1..], last, options);
      ItemKept(items[0], rest, options);
      assert PrintAll(items) + Last(last) == Print(items[0]) + rest;
    }
  }

  /** One item of the front of some arguments, which are not one option alone. */
  lemma FrontItem(args: seq<Arg>, options: seq<string>) returns (item: Item)
    requires args != [] && (|args| == 1 ==> !IsOption(args[0], options))
    ensures ItemOk(item, options) && |Print(item)| <= |args| && Print(item) == args[..|Print(item)|]
  {
    var a := args[0];
    SpellsExact(a, options);
    if IsOption(a, options) {
      item := Pair(a.text, args[1]);
    } else if WithValue(a, options) {
      var option :| option in options && Spells(a, option);
      var text :| a == Utf8(option + "=" + text);
      item := Joined(option, text);
    } else {
      item := Own(a);
    }
  }

  /** Every arguments are meant so. */
  lemma {:induction false} MeantSo(args: seq<Arg>, options: seq<string>) returns (items: seq<Item>, last: seq<string>)
    ensures forall i :: 0 <= i < |items| ==> ItemOk(items[i], options)
    ensures |last| <= 1 && forall option :: option in last ==> option in options
    ensures PrintAll(items) + Last(last) == args
    decreases |args|
  {
    items, last := [], [];
    if |args| == 1 && IsOption(args[0], options) {
      last := [args[0].text];
    } else if args != [] {
      var item := FrontItem(args, options);
      var n := |Print(item)|;
      items, last := MeantSo(args[n..], options);
      hide ItemOk, Print, Last;
      var more := items;
      items := [item] + more;
      assert items[1..] == more;
      assert PrintAll(items) + Last(last) == Print(item) + (PrintAll(more) + Last(last)) == args;
    }
  }

  // ----- rewriting again

  lemma RewrittenKept(args: seq<Arg>, token: string)
    ensures Kept(Rewritten(args, token, []), DROPPED) == Kept(args, DROPPED)
  {
    assert DROPPED + [] == DROPPED;
    var kept := Kept(args, DROPPED);
    KeptToClean(args, |args|, DROPPED);
    CleanKept(kept, |kept|, DROPPED);
    assert kept + [Utf8(TOKEN_OPTION), Utf8(token)] + [] == Rewritten(args, token, []);
    assert TOKEN_OPTION == DROPPED[0];
    PairDropped(kept, TOKEN_OPTION, Utf8(token), [], DROPPED);
  }

  /** A rewrite takes up the one before it. */
  lemma RewritingAbsorbs(args: seq<Arg>, first: string, second: string)
    ensures Rewritten(Rewritten(args, first, []), second, []) == Rewritten(args, second, [])
  {
    assert DROPPED + [] == DROPPED;
    RewrittenKept(args, first);
  }

  /** A handoff asked for: the token, and whether the binary takes the optional option. */
  datatype Turn = Turn(token: string, takes: bool)

  /** The arguments after execs that failed. */
  function After(original: seq<Arg>, turns: seq<Turn>): seq<Arg> {
    if turns == [] then original else Rewritten(original, turns[|turns| - 1].token, [])
  }

  predicate Names(args: seq<Arg>, option: string) {
    exists i :: 0 <= i < |args| && (IsOption(args[i], [option]) || WithValue(args[i], [option]))
  }

  function DroppedFor(args: seq<Arg>, turn: Turn): seq<string> {
    if Names(args, OPTIONAL) && !turn.takes then [OPTIONAL] else []
  }

  /** What turn `i` hands over. */
  function HandedAt(original: seq<Arg>, turns: seq<Turn>, i: nat): seq<Arg>
    requires i < |turns|
  {
    var args := After(original, turns[..i]);
    Rewritten(args, turns[i].token, DroppedFor(args, turns[i]))
  }

  method NamesOption(args: seq<Arg>, option: string) returns (found: bool)
    ensures found == Names(args, option)
  {
    found := false;
    for i := 0 to |args|
      invariant found <==> exists j :: 0 <= j < i && (IsOption(args[j], [option]) || WithValue(args[j], [option]))
    {
      var here := IsOption(args[i], [option]);
      if args[i].Utf8? && !here {
        here := AnyWithValue(args[i], [option]);
      }
      found := found || here;
    }
  }

  /** The loop of `run` over the handoffs asked for, every exec but perhaps the last
      having failed: the arguments are those of one rewrite of the original ones. */
  method Run(original: seq<Arg>, turns: seq<Turn>) returns (arguments: seq<Arg>, handed: seq<seq<Arg>>)
    ensures arguments == After(original, turns)
    ensures |handed| == |turns| && forall i :: 0 <= i < |turns| ==> handed[i] == HandedAt(original, turns, i)
  {
    hide Rewritten;
    arguments, handed := original, [];
    for i := 0 to |turns|
      invariant arguments == After(original, turns[..i])
      invariant |handed| == i && forall j :: 0 <= j < i ==> handed[j] == HandedAt(original, turns, j)
    {
      var turn := turns[i];
      var named := NamesOption(arguments, OPTIONAL);
      var dropped := if named && !turn.takes then [OPTIONAL] else [];
      var next := HandoffArguments(arguments, turn.token, dropped);
      handed := handed + [next];
      assert turns[..i + 1][|turns[..i + 1]| - 1] == turn;
      if i > 0 {
        RewritingAbsorbs(original, turns[..i][i - 1].token, turn.token);
      }
      arguments := HandoffArguments(arguments, turn.token, []);
    }
    assert turns[..|turns|] == turns;
  }

  // ----- what a rewrite holds

  /** A rewrite ends with its token, the only one; before it there is no dropped option
      in either spelling; and it is at most two longer. */
  lemma RewrittenHolds(args: seq<Arg>, token: string, dropped: seq<string>)
    ensures var r := Rewritten(args, token, dropped); var n := |r|;
            && 2 <= n <= |args| + 2
            && r[n - 2] == Utf8("--handoff-token") && r[n - 1] == Utf8(token)
            && Clean(r[..n - 2], ["--handoff-token", "--mode"]) && Clean(r[..n - 2], dropped)
            && forall i :: 0 <= i < n - 1 && r[i] == Utf8("--handoff-token") ==> i == n - 2
  {
    var options := DROPPED + dropped;
    var r := Rewritten(args, token, dropped);
    var kept := Kept(args, options);
    KeptToClean(args, |args|, options);
    assert r[..|r| - 2] == kept;
    hide Kept;
    assert DROPPED[0] in options && DROPPED[1] in options;
    assert forall option :: option in dropped ==> option in options;
    forall i | 0 <= i < |kept| ensures !Spells(kept[i], "--handoff-token") && r[i] == kept[i] {
      assert "--handoff-token" in options;
    }
  }

  /** However many execs failed, the arguments hold no mode and one token, the last. */
  lemma AfterHolds(original: seq<Arg>, turns: seq<Turn>)
    requires turns != []
    ensures var r := After(original, turns); var n := |r|;
            && 2 <= n <= |original| + 2
            && r[..n - 2] == Kept(original, ["--handoff-token", "--mode"]) && Clean(r[..n - 2], ["--handoff-token", "--mode"])
            && r[n - 2] == Utf8("--handoff-token") && r[n - 1] == Utf8(turns[|turns| - 1].token)
  {
    RewrittenHolds(original, turns[|turns| - 1].token, []);
    assert DROPPED + [] == DROPPED;
  }

  lemma {:induction false} KeptFrom(args: seq<Arg>, n: nat, options: seq<string>)
    requires n <= |args|
    ensures forall a :: a in KeptTo(args, n, options) ==> a in args
  {
    if n > 0 {
      KeptFrom(args, n - 1, options);
    }
  }

  lemma NamesExact(args: seq<Arg>, option: string)
    ensures Names(args, option) <==> exists i :: 0 <= i < |args| && Spells(args[i], option)
  {
    hide IsOption, WithValue, Spells;
    forall i | 0 <= i < |args|
      ensures IsOption(args[i], [option]) || WithValue(args[i], [option]) <==> Spells(args[i], option)
    {
      SpellsExact(args[i], [option]);
      assert forall x :: x in [option] <==> x == option;
    }
  }

  /** A binary that does not take `--codex` gets none, alone or with its value; one that
      takes it, or when there is none, gets what this process goes on with. */
  lemma HandedOptional(original: seq<Arg>, turns: seq<Turn>, i: nat)
    requires i < |turns|
    ensures var handed := HandedAt(original, turns, i); var args := After(original, turns[..i]);
            && |handed| >= 2
            && (!turns[i].takes ==> forall k :: 0 <= k < |handed| - 2 ==> !Spells(handed[k], "--codex"))
            && (turns[i].takes || (forall k :: 0 <= k < |args| ==> !Spells(args[k], "--codex"))
                ==> handed == After(original, turns[..i + 1]))
  {
    var args, turn := After(original, turns[..i]), turns[i];
    var dropped := DroppedFor(args, turn);
    var handed := HandedAt(original, turns, i);
    NamesExact(args, OPTIONAL);
    if dropped == [] {
      HandedOn(original, turns, i);
    }
    RewrittenHolds(args, turn.token, dropped);
    KeptFrom(args, |args|, DROPPED + dropped);
    var kept := handed[..|handed| - 2];
    assert kept == Kept(args, DROPPED + dropped);
    hide Kept, Rewritten, Spells, After, Names;
    assert OPTIONAL in [OPTIONAL];
    forall k | 0 <= k < |kept| && !turn.takes ensures !Spells(kept[k], "--codex") {
      assert kept[k] in args;
    }
    assert forall k :: 0 <= k < |handed| - 2 ==> handed[k] == kept[k];
  }

  lemma HandedOn(original: seq<Arg>, turns: seq<Turn>, i: nat)
    requires i < |turns| && DroppedFor(After(original, turns[..i]), turns[i]) == []
    ensures HandedAt(original, turns, i) == After(original, turns[..i + 1])
  {
    assert turns[..i + 1][|turns[..i + 1]| - 1] == turns[i];
    if i > 0 {
      RewritingAbsorbs(original, turns[..i][i - 1].token, turns[i].token);
    }
  }

  // ----- bytes that are no text

  function Bytes(text: string): seq<nat> {
    seq(|text|, i requires 0 <= i < |text| => text[i] as nat)
  }

  /** The argument spells `--mode=`, as text or as bytes that are no text. */
  predicate SpellsMode(a: Arg) {
    match a
    case Utf8(text) => "--mode=" <= text
    case Raw(bytes) => Bytes("--mode=") <= bytes
  }

  predicate RawMode(a: Arg) {
    a.Raw? && SpellsMode(a)
  }

  /** Such bytes stand where no value does. */
  ghost predicate RawModeAt(args: seq<Arg>, n: nat) {
    n <= |args| && exists i :: 0 <= i < n && RawMode(args[i]) && !ValueAt(args, i, DROPPED)
  }

  ghost predicate AnySpellsMode(args: seq<Arg>) {
    exists i :: 0 <= i < |args| && SpellsMode(args[i])
  }

  lemma {:induction false} KeptSpellsMode(args: seq<Arg>, n: nat)
    requires n <= |args|
    ensures AnySpellsMode(KeptTo(args, n, DROPPED)) <==> RawModeAt(args, n)
  {
    if n > 0 {
      TextModeIsOption(args[n - 1]);
      KeptSpellsMode(args, n - 1);
      var a, before, after := args[n - 1], KeptTo(args, n - 1, DROPPED), KeptTo(args, n, DROPPED);
      assert RawMode(a) ==> !IsOption(a, DROPPED) && !WithValue(a, DROPPED);
      if AnySpellsMode(before) {
        var i :| 0 <= i < |before| && SpellsMode(before[i]);
        assert after[i] == before[i];
      }
      if !DroppedAt(args, n - 1, DROPPED) {
        assert after == before + [a] && after[|before|] == a;
      }
      assert forall i :: 0 <= i < |before| ==> after[i] == before[i];
    }
  }

  /** The mode is gone from the arguments kept exactly when it was not spelled, outside
      an option's value, with bytes that are no text. */
  lemma ModeGone(args: seq<Arg>)
    ensures AnySpellsMode(Kept(args, DROPPED)) <==> RawModeAt(args, |args|)
  {
    KeptSpellsMode(args, |args|);
  }

  predicate HasMode(a: Arg) {
    SpellsMode(a) || a == Utf8("--mode")
  }

  /** No argument but the token's own has the mode, in either spelling. */
  ghost predicate NoMode(args: seq<Arg>) {
    |args| >= 2 && forall i :: 0 <= i < |args| - 1 ==> !HasMode(args[i])
  }

  ghost predicate NoRawMode(args: seq<Arg>) {
    forall a :: a in args ==> !RawMode(a)
  }

  lemma TextModeIsOption(a: Arg)
    ensures a.Utf8? && SpellsMode(a) ==> WithValue(a, DROPPED) && Spells(a, "--mode")
    ensures a == Utf8("--mode") ==> IsOption(a, DROPPED) && Spells(a, "--mode")
  {
    assert DROPPED[1] == "--mode" && "--mode" + "=" == "--mode=";
    if a.Utf8? && SpellsMode(a) {
      assert a.text == "--mode" + "=" + a.text[7..];
    }
  }

  lemma RewrittenHasNoMode(args: seq<Arg>, token: string, dropped: seq<string>)
    requires NoRawMode(args)
    ensures NoMode(Rewritten(args, token, dropped)) && NoRawMode(Rewritten(args, token, dropped))
  {
    var r := Rewritten(args, token, dropped);
    RewrittenHolds(args, token, dropped);
    KeptFrom(args, |args|, DROPPED + dropped);
    var kept := r[..|r| - 2];
    assert kept == Kept(args, DROPPED + dropped);
    assert "--mode" in ["--handoff-token", "--mode"];
    hide Kept, Spells;
    forall i | 0 <= i < |kept| ensures !HasMode(kept[i]) && !RawMode(kept[i]) {
      assert kept[i] in args && !Spells(kept[i], "--mode");
      TextModeIsOption(kept[i]);
    }
    assert TOKEN_OPTION[2] != "--mode"[2];
    forall i | 0 <= i < |r| - 1 ensures !HasMode(r[i]) {
      assert i < |kept| ==> r[i] == kept[i];
    }
    forall a | a in r ensures !RawMode(a) {
      var i :| 0 <= i < |r| && r[i] == a;
      assert i < |kept| ==> r[i] == kept[i];
    }
  }

  /** As the parser of the arguments takes no mode that is no text, none reaches the loop:
      then no turn goes on with a mode nor hands one over, in either spelling. */
  lemma ModeNeverHandedOn(original: seq<Arg>, turns: seq<Turn>)
    requires NoRawMode(original) && turns != []
    ensures NoMode(After(original, turns))
    ensures forall i :: 0 <= i < |turns| ==> NoMode(HandedAt(original, turns, i))
  {
    RewrittenHasNoMode(original, turns[|turns| - 1].token, []);
    forall i | 0 <= i < |turns| ensures NoMode(HandedAt(original, turns, i)) {
      var args := After(original, turns[..i]);
      if i > 0 {
        RewrittenHasNoMode(original, turns[..i][i - 1].token, []);
      }
      RewrittenHasNoMode(args, turns[i].token, DroppedFor(args, turns[i]));
    }
  }

  /** The rewrite by itself keeps a mode that is no text. */
  lemma RawModeStays()
    ensures Kept([Raw(Bytes("--mode=") + [255])], DROPPED) == [Raw(Bytes("--mode=") + [255])]
  {
    var a := Raw(Bytes("--mode=") + [255]);
    assert !DroppedAt([a], 0, DROPPED);
    assert KeptTo([a], 0, DROPPED) == [];
  }
}
