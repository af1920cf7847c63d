/** What the lexer makes of a piece that the end of the source cuts off, and of the
    marks the test items are found by (src/emitted_text.rs). */
module LexerEnds {
  import opened Lexer
  import opened LexerRoundTrip
  import opened TestItems

  /** A step that takes all that is left. */
  lemma LexLast(u: Classes, s: string, tokens: seq<Token>, used: nat)
    requires s != "" && NextStep(u, s) == Step(tokens, used) && used >= |s|
    ensures Lex(u, s) == tokens
  {
    hide NextStep;
    assert Lex(u, s) == tokens + Lex(u, Drop(s, used));
    assert Drop(s, used) == "";
  }

  // ----- string literals

  /** What the end of the source leaves of a string literal after its last whole unit. */
  function Cut(backslash: bool): string {
    if backslash then "\\" else ""
  }

  lemma CutEnds(u: Classes, backslash: bool)
    ensures StrBody(u, Cut(backslash)).0 == Cut(backslash) && StrBody(u, Cut(backslash)).1 >= |Cut(backslash)|
  {
  }

  lemma CutStart(u: Classes, units: seq<Unit>, backslash: bool)
    requires u.Valid() && UnitsOk(u, units) && (units != [] && units[0].Plain? ==> !u.whitespace(units[0].c))
    ensures var s := PrintUnits(units) + Cut(backslash);
            s == "" || !u.whitespace(s[0])
  {
    assert '\\' in "\"'/*\\#_";
  }

  lemma {:induction false} CutBodyIs(u: Classes, units: seq<Unit>, backslash: bool)
    requires u.Valid() && UnitsOk(u, units)
    ensures var s := PrintUnits(units) + Cut(backslash);
            StrBody(u, s).0 == TextOf(units) + Cut(backslash) && StrBody(u, s).1 >= |s|
  {
    hide StrBody;
    var cut := Cut(backslash);
    if units == [] {
      CutEnds(u, backslash);
      assert PrintUnits(units) + cut == cut == TextOf(units) + cut;
    } else {
      var unit, more := units[0], units[1..];
      var tail := PrintUnits(more) + cut;
      assert PrintUnits(units) + cut == PrintUnit(unit) + tail;
      CutBodyIs(u, more, backslash);
      if unit.Continue? {
        CutStart(u, more, backslash);
        hide UnitsOk, Cut;
        StrBodyContinues(u, unit.spaces, tail);
        assert TextOf(units) == TextOf(more);
      } else {
        hide Cut;
        StrBodyTakes(u, unit, tail);
      }
    }
  }

  /** A string literal that nothing closes is the text up to the end, a last lone
      backslash in it. */
  lemma LexCutString(u: Classes, units: seq<Unit>, backslash: bool)
    requires u.Valid() && UnitsOk(u, units)
    ensures Lex(u, "\"" + (PrintUnits(units) + Cut(backslash))) == [Str(TextOf(units) + Cut(backslash))]
  {
    var body := PrintUnits(units) + Cut(backslash);
    var s := "\"" + body;
    CutBodyIs(u, units, backslash);
    hide StrBody, UnitsOk, PrintUnits, TextOf, Cut;
    assert s[1..] == body;
    LexLast(u, s, [Str(TextOf(units) + Cut(backslash))], 1 + StrBody(u, body).1 + 1);
  }

  // ----- raw strings

  lemma NoClosingAt(body: string, hashes: nat, i: nat)
    requires RawOk(body, hashes) && i < |body|
    ensures !(Closing(hashes) <= body[i..])
  {
    if i + hashes + 1 <= |body| {
      assert body[i..][..hashes + 1] == body[i..i + hashes + 1];
      assert !ClosesAt(body, hashes, i);
    }
  }

  lemma {:induction false} CutRawEndIs(body: string, hashes: nat, i: nat)
    requires RawOk(body, hashes) && i <= |body|
    ensures RawEnd(body[i..], Closing(hashes)) == |body| - i
    decreases |body| - i
  {
    if i < |body| {
      NoClosingAt(body, hashes, i);
      assert body[i..][1..] == body[i + 1..];
      CutRawEndIs(body, hashes, i + 1);
    }
  }

  lemma CutRawStepIs(body: string, hashes: nat)
    requires RawOk(body, hashes)
    ensures var after := seq(hashes, _ => '#') + ("\"" + body);
            && Hashes(after) == hashes && after[hashes] == '"'
            && RawStep(after, hashes) == Step([Str(body)], hashes + 1 + |body| + hashes + 1)
  {
    var after := seq(hashes, _ => '#') + ("\"" + body);
    HashesIs(hashes, "\"" + body);
    assert after[hashes + 1..] == body;
    assert body[0..] == body;
    CutRawEndIs(body, hashes, 0);
    assert body[..|body|] == body;
  }

  /** A raw string that nothing closes is its body up to the end. */
  lemma LexCutRaw(u: Classes, body: string, hashes: nat, bytes: bool)
    requires u.Valid() && RawOk(body, hashes)
    ensures Lex(u, (if bytes then "br" else "r") + (seq(hashes, _ => '#') + ("\"" + body))) == [Str(body)]
  {
    hide RawStep, RawOk, Lex;
    var prefix := if bytes then "br" else "r";
    var after := seq(hashes, _ => '#') + ("\"" + body);
    var s := prefix + after;
    CutRawStepIs(body, hashes);
    assert after[0] in "\"#";
    assert !u.InWord('"') && !u.InWord('#') by {
      assert '"' in "\"'/*\\#_" && '#' in "\"'/*\\#_";
    }
    WordEndIs(u, prefix, after);
    assert s[..|prefix|] == prefix && s[|prefix|..] == after;
    assert WordStep(u, s) == Step([Str(body)], |prefix| + hashes + 1 + |body| + hashes + 1);
    assert s[0] !in "\"'/*\\#_" && u.InWord(s[0]);
    LexLast(u, s, [Str(body)], |prefix| + hashes + 1 + |body| + hashes + 1);
  }

  // ----- comments

  lemma CutCommentEnds(depth: int)
    ensures CommentEnd("", depth) == 0
  {
  }

  lemma CutChar(ch: char, more: Comment, depth: int)
    requires CommentOk(Char(ch, more))
    ensures CommentEnd(PrintComment(Char(ch, more)), depth) == 1 + CommentEnd(PrintComment(more), depth)
  {
    var tail := PrintComment(more);
    var s := PrintComment(Char(ch, more));
    assert s == [ch] + tail && s[1..] == tail;
    assert tail != "" ==> tail[0] == (tail + "*/")[0];
  }

  lemma {:induction false} CutCommentIs(c: Comment, depth: int)
    requires CommentOk(c) && depth >= 1
    ensures CommentEnd(PrintComment(c), depth) == |PrintComment(c)|
  {
    hide CommentEnd;
    match c
    case End => CutCommentEnds(depth);
    case Char(ch, more) =>
      CutChar(ch, more, depth);
      CutCommentIs(more, depth);
    case Nested(inner, more) =>
      var tail := PrintComment(more);
      CommentOpens(PrintComment(inner) + "*/" + tail, depth);
      assert PrintComment(c) == "/*" + (PrintComment(inner) + "*/" + tail);
      CommentEndIs(inner, depth + 1, tail);
      CutCommentIs(more, depth);
  }

  /** A block comment that nothing closes takes the rest of the source. */
  lemma LexCutComment(u: Classes, c: Comment)
    requires CommentOk(c)
    ensures Lex(u, "/*" + PrintComment(c)) == []
  {
    var s := "/*" + PrintComment(c);
    CommentOpens(PrintComment(c), 0);
    CutCommentIs(c, 1);
    hide CommentEnd, PrintComment, CommentOk, StrBody, WordStep, QuoteUsed, LineEnd;
    assert Opens(s);
    LexLast(u, s, [], |s|);
  }

  lemma {:induction false} CutLineIs(text: string)
    requires '\n' !in text
    ensures LineEnd(text) == |text|
  {
    if text != "" {
      CutLineIs(text[1..]);
    }
  }

  /** So does a line comment without a newline. */
  lemma LexCutLine(u: Classes, text: string)
    requires '\n' !in text
    ensures Lex(u, "//" + text) == []
  {
    var s := "//" + text;
    assert s[2..] == text;
    CutLineIs(text);
    LexLast(u, s, [], |s|);
  }

  // ----- apostrophes

  lemma {:induction false} CutQuoteIs(text: string)
    requires '\'' !in text
    ensures QuoteEnd(text) == |text|
  {
    if text != "" {
      CutQuoteIs(text[1..]);
    }
  }

  /** An escaped character literal that nothing closes takes the rest of the source. */
  lemma LexCutEscape(u: Classes, text: string)
    requires '\'' !in text
    ensures Lex(u, "'\\" + text) == []
  {
    var s := "'\\" + text;
    assert s[2..] == text;
    CutQuoteIs(text);
    LexLast(u, s, [], |s| + 1);
  }

  /** An apostrophe that begins no character literal is dropped alone. */
  lemma LexApostrophe(u: Classes, rest: string)
    requires rest != "" ==> rest[0] != '\\'
    requires |rest| >= 2 ==> rest[1] != '\''
    ensures Lex(u, "'" + rest) == Lex(u, rest)
  {
    LexStep(u, "'", rest, []);
  }

  // ----- the tokens of a cfg

  lemma MarkIsApart(u: Classes, word: string, mark: char, rest: string)
    requires |word| > 2 && IsPunct(u, mark) && mark != '/'
    ensures WordApart(u, word, [mark] + rest) && Apart(u, PunctPiece(mark), rest)
  {
  }

  lemma LexWordAndMark(u: Classes, word: string, mark: char, rest: string)
    requires u.Valid() && IsWord(u, word) && |word| > 2 && IsPunct(u, mark) && mark != '/'
    ensures Lex(u, word + ([mark] + rest)) == [Word(word), Punct(mark)] + Lex(u, rest)
  {
    MarkIsApart(u, word, mark, rest);
    hide *;
    LexWord(u, word, [mark] + rest);
    LexPunct(u, mark, rest);
    Regroup([Word(word)], [Punct(mark)], Lex(u, rest));
  }

  lemma LexMarks(u: Classes, first: char, second: char, rest: string)
    requires u.Valid() && IsPunct(u, first) && IsPunct(u, second) && first != '/' && second != '/'
    ensures Lex(u, [first] + ([second] + rest)) == [Punct(first), Punct(second)] + Lex(u, rest)
  {
    hide Lex, IsPunct;
    LexPunct(u, second, rest);
    LexPunct(u, first, [second] + rest);
    Regroup([Punct(first)], [Punct(second)], Lex(u, rest));
  }

  lemma CfgWritten(rest: string)
    ensures "#[cfg(test)]" + rest == ['#'] + (['['] + ("cfg" + (['('] + ("test" + ([')'] + ([']'] + rest))))))
  {
  }

  lemma CfgTokens(rest: seq<Token>)
    ensures CFG_TEST + rest ==
            [Punct('#'), Punct('[')] + ([Word("cfg"), Punct('(')] + ([Word("test"), Punct(')')] + ([Punct(']')] + rest)))
  {
  }

  /** Whatever follows it, `#[cfg(test)]` lexes to the tokens a test item is found by;
      in Unicode the letters are alphanumeric and the brackets neither that nor whitespace. */
  lemma LexCfg(u: Classes, rest: string)
    requires u.Valid() && (forall c :: 'a' <= c <= 'z' ==> u.alphanumeric(c))
    requires forall c :: c in "[]()" ==> !u.alphanumeric(c) && !u.whitespace(c)
    ensures Lex(u, "#[cfg(test)]" + rest) == CFG_TEST + Lex(u, rest)
  {
    forall c | c in "#[]()" ensures IsPunct(u, c) && c != '/' {
      assert c == '#' ==> c in "\"'/*\\#_";
    }
    assert '#' in "#[]()" && '[' in "#[]()" && ']' in "#[]()" && '(' in "#[]()" && ')' in "#[]()";
    assert IsWord(u, "cfg") && IsWord(u, "test") && |"cfg"| > 2 && |"test"| > 2;
    CfgWritten(rest);
    CfgTokens(Lex(u, rest));
    hide *;
    LexPunct(u, ']', rest);
    LexWordAndMark(u, "test", ')', [']'] + rest);
    LexWordAndMark(u, "cfg", '(', "test" + ([')'] + ([']'] + rest)));
    LexMarks(u, '#', '[', "cfg" + (['('] + ("test" + ([')'] + ([']'] + rest)))));
  }
}
