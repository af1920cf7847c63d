/** The tokens of a Rust source (`tokens` of src/emitted_text.rs). */
module Lexer {

  datatype Token = Str(text: string) | Punct(c: char) | Word(word: string)

  /** The character classes of Unicode that the lexer asks for, whatever their
      version, with what is certain of the characters it names itself. */
  datatype Classes = Classes(alphanumeric: char -> bool, whitespace: char -> bool) {
    ghost predicate Valid() {
      && (forall c :: whitespace(c) ==> !alphanumeric(c))
      && (forall c :: c in "\"'/*\\#_" ==> !alphanumeric(c) && !whitespace(c))
      && whitespace(' ') && whitespace('\n')
      && alphanumeric('r') && alphanumeric('b')
    }

    predicate InWord(c: char) {
      alphanumeric(c) || c == '_'
    }
  }

  /** `s` without its first `n` characters, nothing when it has fewer. */
  function Drop(s: string, n: nat): string {
    if n <= |s| then s[n..] else ""
  }

  // ----- what one piece of the source takes

  function LineEnd(s: string): (n: nat)
    ensures n <= |s|
  {
    if s == "" || s[0] == '\n' then 0 else 1 + LineEnd(s[1..])
  }

  predicate Opens(s: string) {
    |s| >= 2 && s[0] == '/' && s[1] == '*'
  }

  predicate Closes(s: string) {
    |s| >= 2 && s[0] == '*' && s[1] == '/'
  }

  /** The rest of a block comment inside `depth` open ones. */
  function CommentEnd(s: string, depth: int): (n: nat)
    ensures n <= |s|
  {
    if s == "" then 0
    else if Opens(s) then 2 + CommentEnd(s[2..], depth + 1)
    else if Closes(s) then (if depth == 1 then 2 else 2 + CommentEnd(s[2..], depth - 1))
    else 1 + CommentEnd(s[1..], depth)
  }

  function Spaces(u: Classes, s: string): (n: nat)
    ensures n <= |s|
  {
    if s == "" || !u.whitespace(s[0]) then 0 else 1 + Spaces(u, s[1..])
  }

  /** The text of a string literal from after its quote, and how far its closing
      quote is; past the end when the source ends in a lone backslash. */
  function StrBody(u: Classes, s: string): (string, nat)
    decreases |s|
  {
    if s == "" || s[0] == '"' then ("", 0)
    else if s[0] == '\\' && |s| >= 2 && s[1] == '\n' then
      var n := 1 + Spaces(u, s[1..]);
      var (text, end) := StrBody(u, s[n..]);
      (text, n + end)
    else if s[0] == '\\' then
      if |s| == 1 then (s, 2)
      else var (text, end) := StrBody(u, s[2..]); (s[..2] + text, 2 + end)
    else var (text, end) := StrBody(u, s[1..]); ([s[0]] + text, 1 + end)
  }

  function QuoteEnd(s: string): (n: nat)
    ensures n <= |s|
  {
    if s == "" || s[0] == '\'' then 0 else 1 + QuoteEnd(s[1..])
  }

  /** What an apostrophe takes: an escaped character, a character, or itself. */
  function QuoteUsed(s: string): nat
    requires s != ""
  {
    if |s| >= 2 && s[1] == '\\' then 2 + QuoteEnd(s[2..]) + 1
    else if |s| >= 3 && s[2] == '\'' then 3
    else 1
  }

  function WordEnd(u: Classes, s: string): (n: nat)
    ensures n <= |s|
    ensures forall i :: 0 <= i < n ==> u.InWord(s[i])
    ensures n < |s| ==> !u.InWord(s[n])
  {
    if s == "" || !u.InWord(s[0]) then 0 else 1 + WordEnd(u, s[1..])
  }

  function Hashes(s: string): (n: nat)
    ensures n <= |s|
  {
    if s == "" || s[0] != '#' then 0 else 1 + Hashes(s[1..])
  }

  /** What closes a raw string of `hashes` hashes. */
  function Closing(hashes: nat): (c: string)
    ensures |c| == hashes + 1 && c[0] == '"' && forall i :: 1 <= i <= hashes ==> c[i] == '#'
  {
    ['"'] + seq(hashes, _ => '#')
  }

  function RawEnd(s: string, closing: string): (n: nat)
    ensures n <= |s|
  {
    if s == "" || closing <= s then 0 else 1 + RawEnd(s[1..], closing)
  }

  datatype Step = Step(tokens: seq<Token>, used: nat)

  /** A raw string from after its prefix letters. */
  function RawStep(s: string, hashes: nat): Step
    requires hashes < |s|
  {
    var body := s[hashes + 1..];
    var end := RawEnd(body, Closing(hashes));
    Step([Str(body[..end])], hashes + 1 + end + hashes + 1)
  }

  function WordStep(u: Classes, s: string): Step {
    var n := WordEnd(u, s);
    var word, rest := s[..n], s[n..];
    var hashes := Hashes(rest);
    if (word == "r" || word == "br") && hashes < |rest| && rest[hashes] == '"' then
      var raw := RawStep(rest, hashes);
      Step(raw.tokens, n + raw.used)
    else if word == "b" && |s| >= 2 && s[1] == '"' then Step([], n)
    else Step([Word(word)], n)
  }

  /** The next piece: its tokens and how much of the source it takes. */
  function NextStep(u: Classes, s: string): (step: Step)
    requires s != ""
    ensures step.used > 0
  {
    var c := s[0];
    if c == '/' && |s| >= 2 && s[1] == '/' then Step([], 2 + LineEnd(s[2..]))
    else if Opens(s) then Step([], CommentEnd(s, 0))
    else if c == '"' then
      var (text, end) := StrBody(u, s[1..]);
      Step([Str(text)], 1 + end + 1)
    else if c == '\'' then Step([], QuoteUsed(s))
    else if u.InWord(c) then WordStep(u, s)
    else Step(if u.whitespace(c) then [] else [Punct(c)], 1)
  }

  /** The tokens of a whole source. */
  function Lex(u: Classes, s: string): seq<Token>
    decreases |s|
  {
    if s == "" then [] else var step := NextStep(u, s); step.tokens + Lex(u, Drop(s, step.used))
  }

  lemma Regroup<T>(a: seq<T>, b: seq<T>, c: seq<T>)
    ensures a + (b + c) == (a + b) + c
  {
  }

  // ----- the lexer as the code has it: a cursor over the characters

  method SkipLine(chars: string, start: nat) returns (at: nat)
    requires start <= |chars|
    ensures at == start + LineEnd(chars[start..]) <= |chars|
  {
    at := start;
    while at < |chars| && chars[at] != '\n'
      invariant start <= at <= |chars|
      invariant at + LineEnd(chars[at..]) == start + LineEnd(chars[start..])
    {
      assert chars[at..][1..] == chars[at + 1..];
      at := at + 1;
    }
  }

  method SkipComment(chars: string, start: nat) returns (at: nat)
    requires start <= |chars| && Opens(chars[start..])
    ensures at == start + CommentEnd(chars[start..], 0) <= |chars|
  {
    at := start;
    var depth := 0;
    while at < |chars|
      invariant start <= at <= |chars|
      invariant at + CommentEnd(chars[at..], depth) == start + CommentEnd(chars[start..], 0)
    {
      var rest := chars[at..];
      if chars[at] == '/' && at + 1 < |chars| && chars[at + 1] == '*' {
        assert Opens(rest) && rest[2..] == chars[at + 2..];
        depth := depth + 1;
        at := at + 2;
      } else if chars[at] == '*' && at + 1 < |chars| && chars[at + 1] == '/' {
        assert Closes(rest) && rest[2..] == chars[at + 2..];
        depth := depth - 1;
        at := at + 2;
        if depth == 0 {
          return;
        }
      } else {
        assert rest[1..] == chars[at + 1..];
        at := at + 1;
      }
    }
  }

  method SkipSpaces(u: Classes, chars: string, start: nat) returns (at: nat)
    requires start <= |chars|
    ensures at == start + Spaces(u, chars[start..]) <= |chars|
  {
    at := start;
    while at < |chars| && u.whitespace(chars[at])
      invariant start <= at <= |chars|
      invariant at + Spaces(u, chars[at..]) == start + Spaces(u, chars[start..])
    {
      assert chars[at..][1..] == chars[at + 1..];
      at := at + 1;
    }
  }

  /** The body of a string literal read from the cursor `at`, and where its
      closing quote is. */
  ghost function StrFrom(u: Classes, chars: string, at: nat): (string, nat) {
    if at <= |chars| then var (text, end) := StrBody(u, chars[at..]); (text, at + end) else ("", at)
  }

  lemma StrJoins(u: Classes, chars: string, at: nat)
    requires at + 1 < |chars| && chars[at] == '\\' && chars[at + 1] == '\n'
    ensures StrFrom(u, chars, at) == StrFrom(u, chars, at + 1 + Spaces(u, chars[at + 1..]))
  {
    var rest := chars[at..];
    assert rest[1..] == chars[at + 1..];
    var n := 1 + Spaces(u, rest[1..]);
    assert rest[n..] == chars[at + n..];
  }

  lemma StrTakes(u: Classes, chars: string, at: nat, n: nat)
    requires at < |chars| && chars[at] != '"'
    requires chars[at] == '\\' ==> !(at + 1 < |chars| && chars[at + 1] == '\n')
    requires n == if chars[at] == '\\' then 2 else 1
    ensures StrFrom(u, chars, at).0 == chars[at..if at + n <= |chars| then at + n else |chars|] + StrFrom(u, chars, at + n).0
    ensures StrFrom(u, chars, at).1 == StrFrom(u, chars, at + n).1
  {
    var rest := chars[at..];
    if |rest| >= n {
      assert rest[n..] == chars[at + n..];
      assert rest[..n] == chars[at..at + n];
    }
  }

  /** A character of a string literal, with the character it escapes. */
  method TakeChar(chars: string, start: nat) returns (taken: string, at: nat)
    requires start < |chars|
    ensures at == start + if chars[start] == '\\' then 2 else 1
    ensures taken == chars[start..if at <= |chars| then at else |chars|]
  {
    at, taken := start, "";
    if chars[at] == '\\' {
      taken := [chars[at]];
      at := at + 1;
    }
    if at < |chars| {
      taken := taken + [chars[at]];
    }
    at := at + 1;
  }

  /** One turn of the loop over a string literal's body: a line continuation,
      or a character. */
  method StringStep(u: Classes, chars: string, at: nat) returns (taken: string, next: nat)
    requires at < |chars| && chars[at] != '"'
    ensures next > at
    ensures StrFrom(u, chars, at).0 == taken + StrFrom(u, chars, next).0
    ensures StrFrom(u, chars, at).1 == StrFrom(u, chars, next).1
  {
    hide StrFrom;
    if chars[at] == '\\' && at + 1 < |chars| && chars[at + 1] == '\n' {
      StrJoins(u, chars, at);
      next := SkipSpaces(u, chars, at + 1);
      taken := "";
    } else {
      StrTakes(u, chars, at, if chars[at] == '\\' then 2 else 1);
      taken, next := TakeChar(chars, at);
    }
  }

  lemma StrEnds(u: Classes, chars: string, at: nat)
    requires at < |chars| ==> chars[at] == '"'
    ensures StrFrom(u, chars, at) == ("", at)
  {
  }

  /** The body of a string literal whose quote is at `start - 1`. */
  method ReadString(u: Classes, chars: string, start: nat) returns (text: string, at: nat)
    requires start <= |chars|
    ensures text == StrFrom(u, chars, start).0 && at == StrFrom(u, chars, start).1
  {
    at, text := start, "";
    while at < |chars| && chars[at] != '"'
      invariant StrFrom(u, chars, start).0 == text + StrFrom(u, chars, at).0
      invariant StrFrom(u, chars, start).1 == StrFrom(u, chars, at).1
      decreases |chars| - at
    {
      var taken, next := StringStep(u, chars, at);
      Regroup(text, taken, StrFrom(u, chars, next).0);
      text, at := text + taken, next;
    }
    StrEnds(u, chars, at);
    assert text + "" == text;
  }

  method SkipQuote(chars: string, start: nat) returns (at: nat)
    requires start < |chars| && chars[start] == '\''
    ensures at == start + QuoteUsed(chars[start..])
  {
    ghost var rest := chars[start..];
    if start + 1 < |chars| && chars[start + 1] == '\\' {
      at := start + 2;
      assert rest[2..] == chars[at..];
      while at < |chars| && chars[at] != '\''
        invariant start + 2 <= at <= |chars|
        invariant at + QuoteEnd(chars[at..]) == start + 2 + QuoteEnd(rest[2..])
      {
        assert chars[at..][1..] == chars[at + 1..];
        at := at + 1;
      }
      at := at + 1;
    } else if start + 2 < |chars| && chars[start + 2] == '\'' {
      at := start + 3;
    } else {
      at := start + 1;
    }
  }

  method CountHashes(chars: string, start: nat) returns (n: nat)
    requires start <= |chars|
    ensures n == Hashes(chars[start..])
  {
    n := 0;
    while start + n < |chars| && chars[start + n] == '#'
      invariant start + n <= |chars|
      invariant n + Hashes(chars[start + n..]) == Hashes(chars[start..])
    {
      assert chars[start + n..][1..] == chars[start + n + 1..];
      n := n + 1;
    }
  }

  /** A raw string of `hashes` hashes, from after its prefix letters. */
  method ReadRaw(chars: string, start: nat, hashes: nat) returns (tokens: seq<Token>, at: nat)
    requires start + hashes < |chars|
    ensures at >= start && Step(tokens, at - start) == RawStep(chars[start..], hashes)
  {
    var closing := Closing(hashes);
    var begin := start + hashes + 1;
    ghost var body := chars[start..][hashes + 1..];
    assert body == chars[begin..];
    at := begin;
    while at < |chars| && !(closing <= chars[at..])
      invariant begin <= at <= |chars|
      invariant at + RawEnd(chars[at..], closing) == begin + RawEnd(body, closing)
    {
      assert chars[at..][1..] == chars[at + 1..];
      at := at + 1;
    }
    assert body[..at - begin] == chars[begin..at];
    tokens := [Str(chars[begin..at])];
    at := at + |closing|;
  }

  method SkipWord(u: Classes, chars: string, start: nat) returns (at: nat)
    requires start <= |chars|
    ensures at == start + WordEnd(u, chars[start..]) <= |chars|
  {
    at := start;
    while at < |chars| && u.InWord(chars[at])
      invariant start <= at <= |chars|
      invariant at + WordEnd(u, chars[at..]) == start + WordEnd(u, chars[start..])
    {
      assert chars[at..][1..] == chars[at + 1..];
      at := at + 1;
    }
  }

  /** Whether a raw string follows the prefix letters `word`. */
  method FindRaw(chars: string, at: nat, word: string) returns (raw: bool, hashes: nat)
    requires at <= |chars|
    ensures hashes == Hashes(chars[at..])
    ensures raw <==> (word == "r" || word == "br") && hashes < |chars[at..]| && chars[at..][hashes] == '"'
  {
    hashes := CountHashes(chars, at);
    raw := (word == "r" || word == "br") && at + hashes < |chars| && chars[at + hashes] == '"';
  }

  /** A word, a raw string, or the prefix of a byte string. */
  method ReadWord(u: Classes, chars: string, start: nat) returns (tokens: seq<Token>, at: nat)
    requires start < |chars|
    ensures at >= start && Step(tokens, at - start) == WordStep(u, chars[start..])
  {
    at := SkipWord(u, chars, start);
    ghost var s, n := chars[start..], at - start;
    var word := chars[start..at];
    assert word == s[..n] && s[n..] == chars[at..];
    var raw, hashes := FindRaw(chars, at, word);
    if raw {
      tokens, at := ReadRaw(chars, at, hashes);
    } else {
      tokens := if word != "b" || !(start + 1 < |chars| && chars[start + 1] == '"') then [Word(word)] else [];
    }
  }

  /** One turn of the main loop: the piece at the cursor. */
  method NextPiece(u: Classes, chars: string, start: nat) returns (step: Step)
    requires start < |chars|
    ensures step == NextStep(u, chars[start..])
  {
    ghost var s := chars[start..];
    var c := chars[start];
    var tokens, at := [], start;
    if c == '/' && start + 1 < |chars| && chars[start + 1] == '/' {
      assert s[2..] == chars[start + 2..];
      at := SkipLine(chars, start + 2);
    } else if c == '/' && start + 1 < |chars| && chars[start + 1] == '*' {
      at := SkipComment(chars, start);
    } else if c == '"' {
      assert s[1..] == chars[start + 1..];
      var text;
      text, at := ReadString(u, chars, start + 1);
      at := at + 1;
      tokens := [Str(text)];
    } else if c == '\'' {
      at := SkipQuote(chars, start);
    } else if u.InWord(c) {
      tokens, at := ReadWord(u, chars, start);
    } else {
      if !u.whitespace(c) {
        tokens := [Punct(c)];
      }
      at := start + 1;
    }
    step := Step(tokens, at - start);
  }

  /** The tokens from the cursor on; none past the end. */
  ghost function LexFrom(u: Classes, chars: string, at: nat): seq<Token> {
    if at <= |chars| then Lex(u, chars[at..]) else []
  }

  lemma LexAdvances(u: Classes, chars: string, at: nat, step: Step)
    requires at < |chars| && step == NextStep(u, chars[at..])
    ensures LexFrom(u, chars, at) == step.tokens + LexFrom(u, chars, at + step.used)
  {
    var rest := Drop(chars[at..], step.used);
    assert Lex(u, chars[at..]) == step.tokens + Lex(u, rest);
    if at + step.used <= |chars| {
      assert rest == chars[at + step.used..];
    } else {
      assert rest == "" && Lex(u, rest) == [];
    }
  }

  /** The next piece's tokens come before those from the new cursor. */
  method Advance(u: Classes, chars: string, at: nat) returns (more: seq<Token>, next: nat)
    requires at < |chars|
    ensures next > at && LexFrom(u, chars, at) == more + LexFrom(u, chars, next)
  {
    hide NextStep;
    var step := NextPiece(u, chars, at);
    LexAdvances(u, chars, at, step);
    more, next := step.tokens, at + step.used;
  }

  /** `tokens`: on any source at all the cursor advances to the end, no index is
      out of range, and the tokens are those of `Lex`. */
  method Tokens(u: Classes, chars: string) returns (out: seq<Token>)
    ensures out == Lex(u, chars)
  {
    out := [];
    var at := 0;
    assert chars[0..] == chars;
    while at < |chars|
      invariant LexFrom(u, chars, 0) == out + LexFrom(u, chars, at)
      decreases |chars| - at
    {
      var more, next := Advance(u, chars, at);
      Regroup(out, more, LexFrom(u, chars, next));
      out, at := out + more, next;
    }
    assert LexFrom(u, chars, at) == [];
  }
}
