/** Quoting the arguments of a shell command (src/application/naming.rs), against
    how a shell splits a simple command into words: the Shell Command Language of
    POSIX.1-2017, sections 2.2 (quoting), 2.3 (token recognition) and 2.6.7 (quote
    removal). */
module Shell {
  import opened Wrappers

  // ----- the program

  const QUOTE := '\''

  /** Each apostrophe closes the quotes, stands in double quotes and opens them again. */
  function Replaced(arg: string): string {
    if arg == "" then ""
    else (if arg[0] == QUOTE then "'\"'\"'" else [arg[0]]) + Replaced(arg[1..])
  }

  function Quoted(arg: string): string {
    [QUOTE] + Replaced(arg) + [QUOTE]
  }

  function Joined(args: seq<string>): string {
    if args == [] then ""
    else if |args| == 1 then Quoted(args[0])
    else Quoted(args[0]) + " " + Joined(args[1..])
  }

  // ----- the shell

  predicate Blank(c: char) {
    c == ' ' || c == '\t'
  }

  /** The characters that section 2.2 has quoted to stand for themselves, but for the
      quoting characters and the blanks. */
  predicate Special(c: char) {
    c in "|&;<>()$`\n" || c in "*?[#~=%"
  }

  /** Where the single quotes opened before `s` close (section 2.2.2). */
  function SingleEnd(s: string): (n: Option<nat>)
    ensures n.Some? ==> n.value < |s| && s[n.value] == QUOTE && QUOTE !in s[..n.value]
  {
    if s == "" then None
    else if s[0] == QUOTE then Some(0)
    else
      var rest := SingleEnd(s[1..]);
      if rest.None? then None
      else
        assert s[..rest.value + 1] == [s[0]] + s[1..][..rest.value];
        Some(rest.value + 1)
  }

  /** Where the double quotes opened before `s` close (section 2.2.3); None when they do
      not or an expansion is inside. */
  function DoubleEnd(s: string): (n: Option<nat>)
    ensures n.Some? ==> n.value < |s| && s[n.value] == '"'
  {
    if s == "" || s[0] == '$' || s[0] == '`' then None
    else if s[0] == '"' then Some(0)
    else
      var width := if s[0] == '\\' then 2 else 1;
      if |s| < width then None
      else
        var rest := DoubleEnd(s[width..]);
        if rest.None? then None else Some(rest.value + width)
  }

  function Text(token: Option<string>): string {
    if token.Some? then token.value else ""
  }

  /** What a character, or a quoted stretch, does to the token begun: it goes on, or it
      is a word and none is begun; Stop when quotes do not close, or when an unquoted
      character may mean more than itself. */
  datatype Turn = Stop | Go(width: nat, word: Option<string>, token: Option<string>)

  function TurnOf(s: string, token: Option<string>): (turn: Turn)
    requires s != ""
    ensures turn.Go? ==> 1 <= turn.width <= |s|
  {
    if Blank(s[0]) then Go(1, token, None)
    else if s[0] == QUOTE then
      var end := SingleEnd(s[1..]);
      if end.None? then Stop else Go(end.value + 2, None, Some(Text(token) + s[..end.value + 2]))
    else if s[0] == '"' then
      var end := DoubleEnd(s[1..]);
      if end.None? then Stop else Go(end.value + 2, None, Some(Text(token) + s[..end.value + 2]))
    else if s[0] == '\\' then
      if |s| < 2 then Stop
      else Go(2, None, if s[1] == '\n' then token else Some(Text(token) + s[..2]))
    else if Special(s[0]) then Stop
    else Go(1, None, Some(Text(token) + [s[0]]))
  }

  /** The tokens of the command, quoting kept, `token` being the one begun (section 2.3). */
  function Recognized(s: string, token: Option<string>): Option<seq<string>>
    decreases |s|
  {
    if s == "" then Some(if token.Some? then [token.value] else [])
    else
      var turn := TurnOf(s, token);
      if turn.Stop? then None else WithWord(turn.word, Recognized(s[turn.width..], turn.token))
  }

  function WithWord(word: Option<string>, rest: Option<seq<string>>): Option<seq<string>> {
    if rest.Some? && word.Some? then Some([word.value] + rest.value) else rest
  }

  /** What double quotes hold, the backslashes that quote removed. */
  function DoubleText(s: string): string {
    if |s| >= 2 && s[0] == '\\' && s[1] == '\n' then DoubleText(s[2..])
    else if |s| >= 2 && s[0] == '\\' && s[1] in "$`\"\\" then [s[1]] + DoubleText(s[2..])
    else if s == "" then ""
    else [s[0]] + DoubleText(s[1..])
  }

  /** The word with the quoting removed (section 2.6.7). */
  function Unquoted(word: string): Option<string> {
    if word == "" then Some("")
    else if word[0] == QUOTE then
      var end := SingleEnd(word[1..]);
      if end.None? then None else Prefixed(word[1..end.value + 1], Unquoted(word[end.value + 2..]))
    else if word[0] == '"' then
      var end := DoubleEnd(word[1..]);
      if end.None? then None else Prefixed(DoubleText(word[1..end.value + 1]), Unquoted(word[end.value + 2..]))
    else if word[0] == '\\' then
      if |word| < 2 then None else Prefixed([word[1]], Unquoted(word[2..]))
    else Prefixed([word[0]], Unquoted(word[1..]))
  }

  function Prefixed(text: string, rest: Option<string>): Option<string> {
    if rest.None? then None else Some(text + rest.value)
  }

  function AllUnquoted(words: seq<string>): Option<seq<string>> {
    if words == [] then Some([])
    else
      var first, rest := Unquoted(words[0]), AllUnquoted(words[1..]);
      if first.None? || rest.None? then None else Some([first.value] + rest.value)
  }

  /** The words a shell reads in a command. */
  function Split(command: string): Option<seq<string>> {
    var tokens := Recognized(command, None);
    if tokens.None? then None else AllUnquoted(tokens.value)
  }

  // ----- the shell over what the program writes

  lemma {:induction false} SingleEndAt(p: string, rest: string)
    requires QUOTE !in p
    ensures SingleEnd(p + [QUOTE] + rest) == Some(|p|)
  {
    if p != "" {
      assert (p + [QUOTE] + rest)[1..] == p[1..] + [QUOTE] + rest;
      SingleEndAt(p[1..], rest);
    }
  }

  lemma PassSingle(p: string, rest: string, token: Option<string>)
    requires QUOTE !in p
    ensures Recognized([QUOTE] + p + [QUOTE] + rest, token) == Recognized(rest, Some(Text(token) + [QUOTE] + p + [QUOTE]))
    ensures Unquoted([QUOTE] + p + [QUOTE] + rest) == Prefixed(p, Unquoted(rest))
  {
    var s := [QUOTE] + p + [QUOTE] + rest;
    assert s[1..] == p + [QUOTE] + rest;
    SingleEndAt(p, rest);
    assert s[|p| + 2..] == rest && s[1..|p| + 1] == p;
    assert Text(token) + s[..|p| + 2] == Text(token) + [QUOTE] + p + [QUOTE];
  }

  lemma DoubleApostrophe()
    ensures DoubleText("'") == "'"
  {
    var inner := "'";
    assert inner[1..] == "";
    assert DoubleText(inner) == [inner[0]] + DoubleText(inner[1..]);
    assert [inner[0]] + "" == inner;
  }

  lemma PassDouble(rest: string, token: Option<string>)
    ensures Recognized("\"'\"" + rest, token) == Recognized(rest, Some(Text(token) + "\"'\""))
    ensures Unquoted("\"'\"" + rest) == Prefixed("'", Unquoted(rest))
  {
    var s := "\"'\"" + rest;
    assert s[1..] == "'\"" + rest && s[1..][1..] == "\"" + rest;
    assert DoubleEnd(s[1..][1..]) == Some(0);
    assert DoubleEnd(s[1..]) == Some(1);
    assert s[3..] == rest && s[..3] == "\"'\"" && s[1..2] == "'";
    DoubleApostrophe();
  }

  lemma {:induction false} ReplacedParts(p: string, q: string)
    requires QUOTE !in p
    ensures Replaced(p + q) == p + Replaced(q)
  {
    if p == "" {
      assert p + q == q;
    } else {
      assert (p + q)[1..] == p[1..] + q;
      ReplacedParts(p[1..], q);
    }
  }

  /** A quoted argument goes whole into the token begun. */
  lemma {:induction false} PassQuoted(arg: string, rest: string, token: Option<string>)
    ensures Recognized(Quoted(arg) + rest, token) == Recognized(rest, Some(Text(token) + Quoted(arg)))
    decreases |arg|
  {
    hide Recognized, Unquoted, DoubleEnd;
    var at := SingleEnd(arg);
    if at.None? {
      QuotedPlain(arg);
      PassSingle(arg, rest, token);
      assert Quoted(arg) + rest == [QUOTE] + arg + [QUOTE] + rest;
      assert Text(token) + Quoted(arg) == Text(token) + [QUOTE] + arg + [QUOTE];
    } else {
      var p, q := arg[..at.value], arg[at.value + 1..];
      QuotedSpliced(arg, p, q, Text(token), rest);
      hide Quoted;
      var tail := Quoted(q) + rest;
      PassSingle(p, "\"'\"" + tail, token);
      var begun := Some(Text(token) + [QUOTE] + p + [QUOTE]);
      PassDouble(tail, begun);
      PassQuoted(q, rest, Some(Text(begun) + "\"'\""));
    }
  }

  /** And comes out of it whole. */
  lemma {:induction false} UnquotedQuoted(arg: string, rest: string)
    ensures Unquoted(Quoted(arg) + rest) == Prefixed(arg, Unquoted(rest))
    decreases |arg|
  {
    hide Recognized, Unquoted, DoubleEnd;
    var at := SingleEnd(arg);
    if at.None? {
      QuotedPlain(arg);
      PassSingle(arg, rest, None);
      assert Quoted(arg) + rest == [QUOTE] + arg + [QUOTE] + rest;
    } else {
      var p, q := arg[..at.value], arg[at.value + 1..];
      QuotedSpliced(arg, p, q, "", rest);
      hide Quoted;
      var tail := Quoted(q) + rest;
      PassSingle(p, "\"'\"" + tail, None);
      PassDouble(tail, None);
      UnquotedQuoted(q, rest);
      assert arg == p + "'" + q;
      if Unquoted(rest).Some? {
        assert p + ("'" + (q + Unquoted(rest).value)) == arg + Unquoted(rest).value;
      }
    }
  }

  lemma QuotedPlain(arg: string)
    requires SingleEnd(arg).None?
    ensures QUOTE !in arg && Quoted(arg) == [QUOTE] + arg + [QUOTE]
  {
    NoQuote(arg);
    ReplacedParts(arg, "");
    assert arg + "" == arg && Replaced(arg) == arg;
  }

  lemma {:induction false} NoQuote(s: string)
    requires SingleEnd(s).None?
    ensures QUOTE !in s
  {
    if s != "" {
      NoQuote(s[1..]);
      assert s == [s[0]] + s[1..];
    }
  }

  lemma QuotedParts(arg: string, p: string, q: string)
    requires QUOTE !in p && arg == p + [QUOTE] + q
    ensures Quoted(arg) == [QUOTE] + p + [QUOTE] + "\"'\"" + Quoted(q)
  {
    assert arg == p + ([QUOTE] + q);
    ReplacedParts(p, [QUOTE] + q);
    assert ([QUOTE] + q)[1..] == q;
    assert Replaced([QUOTE] + q) == "'\"'\"'" + Replaced(q);
  }

  /** The text that is written: an argument stands in single quotes, each apostrophe of it
      in double quotes between two of them, and a space stands between arguments. */
  lemma QuotedExactly(p: string, q: string, more: seq<string>)
    requires '\'' !in p
    ensures Quoted(p) == "'" + p + "'"
    ensures Quoted(p + "'" + q) == "'" + p + "'\"'\"" + Quoted(q)
    ensures Joined([p]) == Quoted(p) && (more != [] ==> Joined([q] + more) == Quoted(q) + " " + Joined(more))
  {
    ReplacedParts(p, "");
    assert p + "" == p;
    QuotedParts(p + "'" + q, p, q);
    assert ([q] + more)[1..] == more;
  }

  lemma QuotedSpliced(arg: string, p: string, q: string, before: string, rest: string)
    requires QUOTE !in p && arg == p + [QUOTE] + q
    ensures Quoted(arg) + rest == [QUOTE] + p + [QUOTE] + ("\"'\"" + (Quoted(q) + rest))
    ensures before + [QUOTE] + p + [QUOTE] + "\"'\"" + Quoted(q) == before + Quoted(arg)
  {
    QuotedParts(arg, p, q);
    hide Quoted;
    assert before + ([QUOTE] + p + [QUOTE] + "\"'\"" + Quoted(q)) == before + [QUOTE] + p + [QUOTE] + "\"'\"" + Quoted(q);
  }

  function AllQuoted(args: seq<string>): seq<string> {
    seq(|args|, i requires 0 <= i < |args| => Quoted(args[i]))
  }

  lemma AllQuotedMore(args: seq<string>)
    requires args != []
    ensures AllQuoted(args) == [Quoted(args[0])] + AllQuoted(args[1..])
  {
  }

  lemma PassFirst(arg: string, rest: string)
    ensures Recognized(Quoted(arg) + rest, None) == Recognized(rest, Some(Quoted(arg)))
  {
    hide Recognized, Quoted;
    var none: Option<string> := None;
    PassQuoted(arg, rest, none);
    assert Text(none) + Quoted(arg) == Quoted(arg);
  }

  lemma TokensOfMore(args: seq<string>)
    requires |args| > 1
    ensures Recognized(Joined(args), None) == WithWord(Some(Quoted(args[0])), Recognized(Joined(args[1..]), None))
  {
    hide Recognized, Quoted;
    var rest := " " + Joined(args[1..]);
    assert Joined(args) == Quoted(args[0]) + rest;
    PassFirst(args[0], rest);
    PassBlank(Joined(args[1..]), Some(Quoted(args[0])));
  }

  lemma {:induction false} TokensOfJoined(args: seq<string>)
    ensures Recognized(Joined(args), None) == Some(AllQuoted(args))
  {
    if args == [] {
      assert AllQuoted(args) == [];
    } else {
      assert Recognized("", Some(Quoted(args[0]))) == Some([Quoted(args[0])]) && AllQuoted([]) == [];
      hide Recognized, Quoted, AllQuoted;
      AllQuotedMore(args);
      if |args| == 1 {
        PassFirst(args[0], "");
        assert Quoted(args[0]) + "" == Quoted(args[0]);
        assert args[1..] == [];
        assert [Quoted(args[0])] + [] == [Quoted(args[0])];
      } else {
        TokensOfMore(args);
        TokensOfJoined(args[1..]);
      }
    }
  }

  lemma PassBlank(rest: string, token: Option<string>)
    ensures Recognized(" " + rest, token) == WithWord(token, Recognized(rest, None))
  {
    var s := " " + rest;
    assert s[1..] == rest && TurnOf(s, token) == Go(1, token, None);
  }

  lemma {:induction false} UnquotedBack(args: seq<string>)
    ensures AllUnquoted(AllQuoted(args)) == Some(args)
  {
    if args != [] {
      var first := Quoted(args[0]);
      UnquotedQuoted(args[0], "");
      assert first + "" == first && args[0] + "" == args[0];
      assert AllQuoted(args)[1..] == AllQuoted(args[1..]);
      UnquotedBack(args[1..]);
      assert args == [args[0]] + args[1..];
    }
  }

  /** The shell reads back exactly the arguments: empty ones, and ones with quotes,
      blanks, newlines or anything else. */
  lemma SplitJoined(args: seq<string>)
    ensures Split(Joined(args)) == Some(args)
  {
    TokensOfJoined(args);
    UnquotedBack(args);
  }

  /** So no two lists of arguments are written alike. */
  lemma JoinedOnce(a: seq<string>, b: seq<string>)
    requires Joined(a) == Joined(b)
    ensures a == b
  {
    SplitJoined(a);
    SplitJoined(b);
  }

  /** Arguments may follow any text that is whole words: the words are those of the
      text and then the arguments. */
  lemma SplitAfter(text: string, args: seq<string>)
    requires Split(text).Some?
    ensures Split(text + " " + Joined(args)) == Some(Split(text).value + args)
  {
    TokensOfJoined(args);
    UnquotedBack(args);
    Follows(text, Joined(args), None);
    AllUnquotedJoin(Recognized(text, None).value, AllQuoted(args));
  }

  lemma {:induction false} AllUnquotedJoin(a: seq<string>, b: seq<string>)
    requires AllUnquoted(a).Some? && AllUnquoted(b).Some?
    ensures AllUnquoted(a + b) == Some(AllUnquoted(a).value + AllUnquoted(b).value)
  {
    if a == [] {
      assert a + b == b && AllUnquoted(a).value + AllUnquoted(b).value == AllUnquoted(b).value;
    } else {
      assert (a + b)[1..] == a[1..] + b;
      AllUnquotedJoin(a[1..], b);
      var first := [Unquoted(a[0]).value];
      assert first + (AllUnquoted(a[1..]).value + AllUnquoted(b).value) == first + AllUnquoted(a[1..]).value + AllUnquoted(b).value;
    }
  }

  lemma {:induction false} Follows(text: string, rest: string, token: Option<string>)
    requires Recognized(text, token).Some? && Recognized(rest, None).Some?
    ensures Recognized(text + " " + rest, token)
            == Some(Recognized(text, token).value + Recognized(rest, None).value)
    decreases |text|
  {
    hide TurnOf;
    var s, after := text + " " + rest, Recognized(rest, None).value;
    if text == "" {
      assert s == " " + rest;
      PassBlank(rest, token);
      WithWordBefore(token, [], after);
      assert [] + after == after;
      assert WithWord(token, Some([])).value == Recognized(text, token).value;
    } else {
      var turn := TurnOf(text, token);
      TurnStays(text, " " + rest, token);
      assert s == text + (" " + rest);
      assert s[turn.width..] == text[turn.width..] + " " + rest;
      Follows(text[turn.width..], rest, turn.token);
      WithWordBefore(turn.word, Recognized(text[turn.width..], turn.token).value, after);
    }
  }

  lemma WithWordBefore(word: Option<string>, before: seq<string>, after: seq<string>)
    ensures WithWord(word, Some(before + after)) == Some(WithWord(word, Some(before)).value + after)
  {
    if word.Some? {
      assert [word.value] + (before + after) == [word.value] + before + after;
    }
  }

  lemma TurnStays(text: string, more: string, token: Option<string>)
    requires text != "" && TurnOf(text, token).Go?
    ensures TurnOf(text + more, token) == TurnOf(text, token)
  {
    var s, w := text + more, TurnOf(text, token).width;
    assert s[1..] == text[1..] + more && s[0] == text[0] && s[..w] == text[..w];
    SingleEndStays(text[1..], more);
    DoubleEndStays(text[1..], more);
  }

  lemma {:induction false} SingleEndStays(text: string, more: string)
    ensures SingleEnd(text).Some? ==> SingleEnd(text + more) == SingleEnd(text)
  {
    if text != "" {
      assert (text + more)[1..] == text[1..] + more;
      SingleEndStays(text[1..], more);
    }
  }

  lemma {:induction false} DoubleEndStays(text: string, more: string)
    ensures DoubleEnd(text).Some? ==> DoubleEnd(text + more) == DoubleEnd(text)
    decreases |text|
  {
    if text != "" {
      var width := if text[0] == '\\' then 2 else 1;
      if |text| >= width {
        assert (text + more)[width..] == text[width..] + more;
        DoubleEndStays(text[width..], more);
      }
    }
  }
}
