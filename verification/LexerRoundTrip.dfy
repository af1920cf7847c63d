/** Lexing inverts printing: sources built from well-formed pieces, with any
    whitespace and comments between them, lex to the tokens of the pieces. */
module LexerRoundTrip {
  import opened Lexer

  // ----- pieces of a source

  /** What a string literal's body is made of: a character, an escape, or a line
      continuation with the whitespace after it. */
  datatype Unit = Plain(c: char) | Escape(c: char) | Continue(spaces: string)

  /** The inside of a block comment. */
  datatype Comment = End | Char(c: char, rest: Comment) | Nested(inner: Comment, rest: Comment)

  datatype Piece =
    | WordPiece(word: string)
    | PunctPiece(c: char)
    | StrPiece(units: seq<Unit>, bytes: bool)
    | RawPiece(body: string, hashes: nat, bytes: bool)
    | CharPiece(c: char)                 // a character literal
    | EscapedCharPiece(escaped: string)  // one written with a backslash
    | Lifetime(name: string)
    | LinePiece(text: string)
    | BlockPiece(comment: Comment)

  function PrintUnit(unit: Unit): string {
    match unit
    case Plain(c) => [c]
    case Escape(c) => ['\\', c]
    case Continue(spaces) => "\\\n" + spaces
  }

  function PrintUnits(units: seq<Unit>): string {
    if units == [] then "" else PrintUnit(units[0]) + PrintUnits(units[1..])
  }

  /** The text the lexer keeps: escapes as they are written, continuations not at all. */
  function TextOf(units: seq<Unit>): string {
    if units == [] then ""
    else (if units[0].Continue? then "" else PrintUnit(units[0])) + TextOf(units[1..])
  }

  function PrintComment(c: Comment): string {
    match c
    case End => ""
    case Char(ch, rest) => [ch] + PrintComment(rest)
    case Nested(inner, rest) => "/*" + PrintComment(inner) + "*/" + PrintComment(rest)
  }

  function Print(p: Piece): string {
    match p
    case WordPiece(word) => word
    case PunctPiece(c) => [c]
    case StrPiece(units, bytes) => (if bytes then "b" else "") + "\"" + PrintUnits(units) + "\""
    case RawPiece(body, hashes, bytes) =>
      (if bytes then "br" else "r") + seq(hashes, _ => '#') + "\"" + body + Closing(hashes)
    case CharPiece(c) => ['\'', c, '\'']
    case EscapedCharPiece(escaped) => "'\\" + escaped + "'"
    case Lifetime(name) => "'" + name
    case LinePiece(text) => "//" + text + "\n"
    case BlockPiece(comment) => "/*" + PrintComment(comment) + "*/"
  }

  /** The tokens a piece stands for. A lifetime leaves its name as a word: the
      lexer drops only the apostrophe. */
  function TokensOf(p: Piece): seq<Token> {
    match p
    case WordPiece(word) => [Word(word)]
    case PunctPiece(c) => [Punct(c)]
    case StrPiece(units, _) => [Str(TextOf(units))]
    case RawPiece(body, _, _) => [Str(body)]
    case Lifetime(name) => [Word(name)]
    case _ => []
  }

  // ----- well-formed pieces

  predicate IsWord(u: Classes, w: string) {
    w != "" && forall i :: 0 <= i < |w| ==> u.alphanumeric(w[i]) || w[i] == '_'
  }

  predicate IsPunct(u: Classes, c: char) {
    !u.alphanumeric(c) && c != '_' && !u.whitespace(c) && c != '"' && c != '\''
  }

  predicate AllSpaces(u: Classes, s: string) {
    forall i :: 0 <= i < |s| ==> u.whitespace(s[i])
  }

  /** No bare quote or backslash, no escaped newline, and a continuation takes all
      the whitespace after it. */
  predicate UnitsOk(u: Classes, units: seq<Unit>) {
    units == [] || (
      && UnitsOk(u, units[1..])
      && match units[0]
         case Plain(c) => c != '"' && c != '\\'
         case Escape(c) => c != '\n'
         case Continue(spaces) =>
           AllSpaces(u, spaces) && (|units| > 1 && units[1].Plain? ==> !u.whitespace(units[1].c)))
  }

  /** No "/*" or "*/" but those of the nested comments. */
  predicate CommentOk(c: Comment) {
    match c
    case End => true
    case Char(ch, rest) =>
      var next := (PrintComment(rest) + "*/")[0];
      CommentOk(rest) && !(ch == '/' && next == '*') && !(ch == '*' && next == '/')
    case Nested(inner, rest) => CommentOk(inner) && CommentOk(rest)
  }

  predicate ClosesAt(body: string, hashes: nat, i: nat) {
    i + hashes + 1 <= |body| && body[i..i + hashes + 1] == Closing(hashes)
  }

  /** The body holds no closing of its own. */
  ghost predicate RawOk(body: string, hashes: nat) {
    forall i: nat :: !ClosesAt(body, hashes, i)
  }

  ghost predicate PieceOk(u: Classes, p: Piece) {
    match p
    case WordPiece(word) => IsWord(u, word)
    case PunctPiece(c) => IsPunct(u, c)
    case StrPiece(units, _) => UnitsOk(u, units)
    case RawPiece(body, hashes, _) => RawOk(body, hashes)
    case CharPiece(c) => c != '\\'
    case EscapedCharPiece(escaped) => escaped != "" && '\'' !in escaped
    case Lifetime(name) => IsWord(u, name)
    case LinePiece(text) => '\n' !in text
    case BlockPiece(comment) => CommentOk(comment)
  }

  // ----- each piece lexes to its tokens

  /** What follows a piece: nothing, or whitespace. */
  predicate Gap(u: Classes, rest: string) {
    rest == "" || u.whitespace(rest[0])
  }

  /** The word ends where `rest` starts, and is not the prefix of a string literal there. */
  predicate WordApart(u: Classes, w: string, rest: string) {
    && (rest != "" ==> !u.alphanumeric(rest[0]) && rest[0] != '_')
    && !((w == "r" || w == "br") && Hashes(rest) < |rest| && rest[Hashes(rest)] == '"')
    && !(w == "b" && rest != "" && rest[0] == '"')
  }

  /** The piece does not run into what follows it: a word or lifetime into more of a word
      or a literal it would be the prefix of, a lifetime into an apostrophe that makes it a
      character literal, a slash into what makes it a comment. */
  predicate Apart(u: Classes, p: Piece, rest: string) {
    match p
    case WordPiece(word) => WordApart(u, word, rest)
    case PunctPiece(c) => c == '/' && rest != "" ==> rest[0] !in "/*"
    case Lifetime(name) => WordApart(u, name, rest) && (|name| == 1 && rest != "" ==> rest[0] != '\'')
    case _ => true
  }

  lemma GapIsApart(u: Classes, p: Piece, rest: string)
    requires u.Valid() && Gap(u, rest)
    ensures Apart(u, p, rest)
  {
    GapIsNoWord(u, rest);
    assert Hashes(rest) == 0;
  }

  /** One step of the lexer over `piece`. */
  lemma LexStep(u: Classes, piece: string, rest: string, tokens: seq<Token>)
    requires piece != "" && NextStep(u, piece + rest) == Step(tokens, |piece|)
    ensures Lex(u, piece + rest) == tokens + Lex(u, rest)
  {
    hide NextStep;
    assert Drop(piece + rest, |piece|) == rest;
  }

  lemma {:induction false} LexSpaces(u: Classes, gap: string, rest: string)
    requires u.Valid() && AllSpaces(u, gap)
    ensures Lex(u, gap + rest) == Lex(u, rest)
  {
    if gap == "" {
      assert gap + rest == rest;
    } else {
      var s := gap[1..] + rest;
      assert gap + rest == [gap[0]] + s;
      assert gap[0] !in "\"'/*\\#_";
      LexStep(u, [gap[0]], s, []);
      LexSpaces(u, gap[1..], rest);
    }
  }

  lemma {:induction false} WordEndIs(u: Classes, w: string, rest: string)
    requires forall i :: 0 <= i < |w| ==> u.InWord(w[i])
    requires rest == "" || !u.InWord(rest[0])
    ensures WordEnd(u, w + rest) == |w|
  {
    if w == "" {
      assert w + rest == rest;
    } else {
      assert (w + rest)[1..] == w[1..] + rest;
      WordEndIs(u, w[1..], rest);
    }
  }

  lemma GapIsNoWord(u: Classes, rest: string)
    requires u.Valid() && Gap(u, rest)
    ensures rest != "" ==> !u.InWord(rest[0]) && rest[0] !in "\"'/*\\#_"
  {
  }

  lemma LexWord(u: Classes, w: string, rest: string)
    requires u.Valid() && IsWord(u, w) && WordApart(u, w, rest)
    ensures Lex(u, w + rest) == [Word(w)] + Lex(u, rest)
  {
    WordEndIs(u, w, rest);
    var s := w + rest;
    assert s[..|w|] == w && s[|w|..] == rest;
    assert w == "b" && |s| >= 2 ==> s[1] == rest[0];
    assert w[0] !in "\"'/*\\#" && u.InWord(s[0]);
    assert WordStep(u, s) == Step([Word(w)], |w|);
    LexStep(u, w, rest, [Word(w)]);
  }

  lemma LexPunct(u: Classes, c: char, rest: string)
    requires u.Valid() && IsPunct(u, c) && Apart(u, PunctPiece(c), rest)
    ensures Lex(u, [c] + rest) == [Punct(c)] + Lex(u, rest)
  {
    assert |[c] + rest| >= 2 ==> ([c] + rest)[1] == rest[0];
    LexStep(u, [c], rest, [Punct(c)]);
  }

  lemma {:induction false} SpacesIs(u: Classes, spaces: string, rest: string)
    requires AllSpaces(u, spaces) && (rest == "" || !u.whitespace(rest[0]))
    ensures Spaces(u, spaces + rest) == |spaces|
  {
    if spaces == "" {
      assert spaces + rest == rest;
    } else {
      assert (spaces + rest)[1..] == spaces[1..] + rest;
      SpacesIs(u, spaces[1..], rest);
    }
  }

  lemma UnitsStart(u: Classes, units: seq<Unit>, rest: string)
    requires u.Valid() && UnitsOk(u, units) && (units != [] && units[0].Plain? ==> !u.whitespace(units[0].c))
    ensures !u.whitespace((PrintUnits(units) + "\"" + rest)[0])
  {
    assert '\\' in "\"'/*\\#_" && '"' in "\"'/*\\#_";
  }

  lemma StrBodyAtContinue(u: Classes, s: string)
    requires |s| >= 2 && s[0] == '\\' && s[1] == '\n'
    ensures var n := 1 + Spaces(u, s[1..]);
            StrBody(u, s).0 == StrBody(u, s[n..]).0 && StrBody(u, s).1 == n + StrBody(u, s[n..]).1
  {
  }

  lemma StrBodyContinues(u: Classes, spaces: string, tail: string)
    requires u.Valid() && AllSpaces(u, spaces) && (tail == "" || !u.whitespace(tail[0]))
    ensures var s := "\\\n" + spaces + tail;
            StrBody(u, s).0 == StrBody(u, tail).0 && StrBody(u, s).1 == 2 + |spaces| + StrBody(u, tail).1
  {
    hide StrBody;
    var s := "\\\n" + spaces + tail;
    SpacesIs(u, ['\n'] + spaces, tail);
    assert s[1..] == ['\n'] + spaces + tail;
    assert s[2 + |spaces|..] == tail;
    StrBodyAtContinue(u, s);
  }

  lemma StrBodyTakes(u: Classes, unit: Unit, tail: string)
    requires (unit.Plain? && unit.c != '"' && unit.c != '\\') || (unit.Escape? && unit.c != '\n')
    ensures StrBody(u, PrintUnit(unit) + tail).0 == PrintUnit(unit) + StrBody(u, tail).0
    ensures StrBody(u, PrintUnit(unit) + tail).1 == |PrintUnit(unit)| + StrBody(u, tail).1
  {
    var s := PrintUnit(unit) + tail;
    var n := |PrintUnit(unit)|;
    assert s[n..] == tail && s[..n] == PrintUnit(unit);
  }

  lemma StrBodyEnds(u: Classes, rest: string)
    ensures StrBody(u, "\"" + rest) == ("", 0)
  {
  }

  lemma {:induction false} StrBodyIs(u: Classes, units: seq<Unit>, rest: string)
    requires u.Valid() && UnitsOk(u, units)
    ensures StrBody(u, PrintUnits(units) + "\"" + rest).0 == TextOf(units)
    ensures StrBody(u, PrintUnits(units) + "\"" + rest).1 == |PrintUnits(units)|
  {
    hide StrBody;
    if units == [] {
      StrBodyEnds(u, rest);
      assert PrintUnits(units) + "\"" + rest == "\"" + rest;
    } else {
      var unit, more := units[0], units[1..];
      var tail := PrintUnits(more) + "\"" + rest;
      assert PrintUnits(units) + "\"" + rest == PrintUnit(unit) + tail;
      StrBodyIs(u, more, rest);
      if unit.Continue? {
        UnitsStart(u, more, rest);
        StrBodyContinues(u, unit.spaces, tail);
        assert TextOf(units) == TextOf(more);
      } else {
        StrBodyTakes(u, unit, tail);
      }
    }
  }

  lemma LexStr(u: Classes, units: seq<Unit>, rest: string)
    requires u.Valid() && UnitsOk(u, units)
    ensures Lex(u, "\"" + PrintUnits(units) + "\"" + rest) == [Str(TextOf(units))] + Lex(u, rest)
  {
    hide Lex, StrBody, UnitsOk;
    StrBodyIs(u, units, rest);
    var piece := "\"" + PrintUnits(units) + "\"";
    assert (piece + rest)[1..] == PrintUnits(units) + "\"" + rest;
    assert NextStep(u, piece + rest) == Step([Str(TextOf(units))], |piece|);
    LexStep(u, piece, rest, [Str(TextOf(units))]);
  }

  /** The prefix of a byte string leaves no token. */
  lemma LexBytePrefix(u: Classes, rest: string)
    requires u.Valid() && rest != "" && rest[0] == '"'
    ensures Lex(u, "b" + rest) == Lex(u, rest)
  {
    assert '"' in "\"'/*\\#_";
    WordEndIs(u, "b", rest);
    var s := "b" + rest;
    assert s[..1] == "b" && s[1..] == rest;
    assert WordStep(u, s) == Step([], 1);
    LexStep(u, "b", rest, []);
  }

  lemma {:induction false} HashesIs(hashes: nat, rest: string)
    requires rest == "" || rest[0] != '#'
    ensures Hashes(seq(hashes, _ => '#') + rest) == hashes
  {
    var all := seq(hashes, _ => '#');
    if hashes == 0 {
      assert all + rest == rest;
    } else {
      assert (all + rest)[1..] == seq(hashes - 1, _ => '#') + rest;
      HashesIs(hashes - 1, rest);
    }
  }

  /** A closing quote found inside the body would be a closing of the body's own. */
  lemma NoEarlyClosing(body: string, hashes: nat, rest: string, i: nat)
    requires RawOk(body, hashes) && i < |body|
    ensures !(Closing(hashes) <= body[i..] + Closing(hashes) + rest)
  {
    var closing := Closing(hashes);
    var s := body[i..] + closing + rest;
    if i + hashes + 1 <= |body| {
      assert s[..hashes + 1] == body[i..i + hashes + 1];
      assert !ClosesAt(body, hashes, i);
    } else {
      var k := |body| - i;
      assert s[k] == closing[0] == '"' && closing[k] == '#';
    }
  }

  lemma {:induction false} RawEndIs(body: string, hashes: nat, rest: string, i: nat)
    requires RawOk(body, hashes) && i <= |body|
    ensures RawEnd(body[i..] + Closing(hashes) + rest, Closing(hashes)) == |body| - i
    decreases |body| - i
  {
    var closing := Closing(hashes);
    var s := body[i..] + closing + rest;
    if i == |body| {
      assert s == closing + rest;
    } else {
      NoEarlyClosing(body, hashes, rest, i);
      assert s[1..] == body[i + 1..] + closing + rest;
      RawEndIs(body, hashes, rest, i + 1);
    }
  }

  lemma RawStepIs(body: string, hashes: nat, rest: string)
    requires RawOk(body, hashes)
    ensures var after := seq(hashes, _ => '#') + ("\"" + (body + Closing(hashes) + rest));
            && Hashes(after) == hashes && after[hashes] == '"'
            && RawStep(after, hashes) == Step([Str(body)], hashes + 1 + |body| + hashes + 1)
  {
    var inner := body + Closing(hashes) + rest;
    var after := seq(hashes, _ => '#') + ("\"" + inner);
    HashesIs(hashes, "\"" + inner);
    assert after[hashes + 1..] == inner;
    assert body[0..] == body;
    RawEndIs(body, hashes, rest, 0);
    assert inner[..|body|] == body;
  }

  lemma LexRaw(u: Classes, body: string, hashes: nat, bytes: bool, rest: string)
    requires u.Valid() && RawOk(body, hashes)
    ensures Lex(u, Print(RawPiece(body, hashes, bytes)) + rest) == [Str(body)] + Lex(u, rest)
  {
    hide RawStep, RawOk, Lex;
    var prefix := if bytes then "br" else "r";
    var piece := Print(RawPiece(body, hashes, bytes));
    var s := piece + rest;
    var after := seq(hashes, _ => '#') + ("\"" + (body + Closing(hashes) + rest));
    assert s == prefix + after;
    RawStepIs(body, hashes, rest);
    assert after[0] in "\"#";
    assert !u.InWord('"') && !u.InWord('#') by {
      assert '"' in "\"'/*\\#_" && '#' in "\"'/*\\#_";
    }
    WordEndIs(u, prefix, after);
    assert s[..|prefix|] == prefix && s[|prefix|..] == after;
    assert WordStep(u, s) == Step([Str(body)], |piece|);
    assert s[0] !in "\"'/*\\#_" && u.InWord(s[0]);
    LexStep(u, piece, rest, [Str(body)]);
  }

  lemma CommentEnds(depth: int, rest: string)
    ensures CommentEnd(PrintComment(End) + "*/" + rest, depth) ==
            2 + if depth == 1 then 0 else CommentEnd(rest, depth - 1)
  {
    var s := PrintComment(End) + "*/" + rest;
    assert Closes(s) && s[2..] == rest;
  }

  lemma CommentChar(ch: char, more: Comment, depth: int, rest: string)
    requires CommentOk(Char(ch, more))
    ensures var tail := PrintComment(more) + "*/" + rest;
            CommentEnd(PrintComment(Char(ch, more)) + "*/" + rest, depth) == 1 + CommentEnd(tail, depth)
  {
    var tail := PrintComment(more) + "*/" + rest;
    var s := PrintComment(Char(ch, more)) + "*/" + rest;
    assert s == [ch] + tail && s[1..] == tail;
    assert tail[0] == (PrintComment(more) + "*/")[0];
  }

  lemma CommentOpens(tail: string, depth: int)
    ensures CommentEnd("/*" + tail, depth) == 2 + CommentEnd(tail, depth + 1)
  {
    var s := "/*" + tail;
    assert Opens(s) && s[2..] == tail;
  }

  lemma CommentNests(inner: Comment, more: Comment, depth: int, rest: string)
    ensures var tail := PrintComment(more) + "*/" + rest;
            CommentEnd(PrintComment(Nested(inner, more)) + "*/" + rest, depth) ==
            2 + CommentEnd(PrintComment(inner) + "*/" + tail, depth + 1)
  {
    hide CommentEnd;
    var tail := PrintComment(more) + "*/" + rest;
    CommentOpens(PrintComment(inner) + "*/" + tail, depth);
    assert PrintComment(Nested(inner, more)) + "*/" + rest == "/*" + (PrintComment(inner) + "*/" + tail);
  }

  lemma {:induction false} CommentEndIs(c: Comment, depth: int, rest: string)
    requires CommentOk(c) && depth >= 1
    ensures CommentEnd(PrintComment(c) + "*/" + rest, depth) ==
            |PrintComment(c)| + 2 + if depth == 1 then 0 else CommentEnd(rest, depth - 1)
  {
    hide CommentEnd;
    match c
    case End => CommentEnds(depth, rest);
    case Char(ch, more) =>
      CommentChar(ch, more, depth, rest);
      CommentEndIs(more, depth, rest);
    case Nested(inner, more) =>
      CommentNests(inner, more, depth, rest);
      CommentEndIs(inner, depth + 1, PrintComment(more) + "*/" + rest);
      CommentEndIs(more, depth, rest);
  }

  lemma LexBlock(u: Classes, c: Comment, rest: string)
    requires CommentOk(c)
    ensures Lex(u, "/*" + PrintComment(c) + "*/" + rest) == Lex(u, rest)
  {
    hide NextStep, CommentOk, Lex;
    BlockStep(u, c, rest);
    LexStep(u, "/*" + PrintComment(c) + "*/", rest, []);
  }

  lemma BlockStep(u: Classes, c: Comment, rest: string)
    requires CommentOk(c)
    ensures NextStep(u, "/*" + PrintComment(c) + "*/" + rest) == Step([], |"/*" + PrintComment(c) + "*/"|)
  {
    var piece := "/*" + PrintComment(c) + "*/";
    CommentEndIs(c, 1, rest);
    hide PrintComment, CommentOk, StrBody, WordStep, QuoteUsed, LineEnd;
    assert (piece + rest)[2..] == PrintComment(c) + "*/" + rest;
    assert Opens(piece + rest);
  }

  lemma {:induction false} LineEndIs(text: string, rest: string)
    requires '\n' !in text
    ensures LineEnd(text + "\n" + rest) == |text|
  {
    var s := text + "\n" + rest;
    if text != "" {
      assert s[1..] == text[1..] + "\n" + rest;
      LineEndIs(text[1..], rest);
    }
  }

  lemma LexLine(u: Classes, text: string, rest: string)
    requires u.Valid() && '\n' !in text
    ensures Lex(u, "//" + text + "\n" + rest) == Lex(u, rest)
  {
    var piece := "//" + text;
    assert "//" + text + "\n" + rest == piece + ("\n" + rest);
    assert (piece + ("\n" + rest))[2..] == text + "\n" + rest;
    LineEndIs(text, rest);
    LexStep(u, piece, "\n" + rest, []);
    LexSpaces(u, "\n", rest);
  }

  lemma {:induction false} QuoteEndIs(text: string, rest: string)
    requires '\'' !in text && rest != "" && rest[0] == '\''
    ensures QuoteEnd(text + rest) == |text|
  {
    if text == "" {
      assert text + rest == rest;
    } else {
      assert (text + rest)[1..] == text[1..] + rest;
      QuoteEndIs(text[1..], rest);
    }
  }

  /** An escaped character literal is dropped; its first escaped character, which
      the cursor looks at again, is not an apostrophe. */
  lemma LexEscapedChar(u: Classes, escaped: string, rest: string)
    requires escaped != "" && '\'' !in escaped
    ensures Lex(u, "'\\" + escaped + "'" + rest) == Lex(u, rest)
  {
    var piece := "'\\" + escaped + "'";
    assert (piece + rest)[2..] == escaped + ("'" + rest);
    QuoteEndIs(escaped, "'" + rest);
    LexStep(u, piece, rest, []);
  }

  lemma LexChar(u: Classes, c: char, rest: string)
    requires c != '\\'
    ensures Lex(u, ['\'', c, '\''] + rest) == Lex(u, rest)
  {
    LexStep(u, ['\'', c, '\''], rest, []);
  }

  lemma LexLifetime(u: Classes, name: string, rest: string)
    requires u.Valid() && IsWord(u, name) && Apart(u, Lifetime(name), rest)
    ensures Lex(u, "'" + name + rest) == [Word(name)] + Lex(u, rest)
  {
    var s := "'" + (name + rest);
    assert "'" + name + rest == s;
    assert name[0] !in "\"'/*\\#";
    assert |name| > 1 ==> u.InWord(name[1]) && name[1] !in "\"'/*\\#";
    assert |s| >= 3 ==> s[2] == if |name| > 1 then name[1] else rest[0];
    LexStep(u, "'", name + rest, []);
    LexWord(u, name, rest);
  }

  lemma LexStrPiece(u: Classes, units: seq<Unit>, bytes: bool, rest: string)
    requires u.Valid() && UnitsOk(u, units)
    ensures Lex(u, Print(StrPiece(units, bytes)) + rest) == [Str(TextOf(units))] + Lex(u, rest)
  {
    hide Lex, UnitsOk, PrintUnits, TextOf;
    var body := "\"" + PrintUnits(units) + "\"" + rest;
    LexStr(u, units, rest);
    if bytes {
      LexBytePrefix(u, body);
      assert Print(StrPiece(units, bytes)) + rest == "b" + body;
    } else {
      assert Print(StrPiece(units, bytes)) + rest == body;
    }
  }

  /** A well-formed piece lexes to its tokens, whatever follows that it does not run into. */
  lemma LexPiece(u: Classes, p: Piece, rest: string)
    requires u.Valid() && PieceOk(u, p) && Apart(u, p, rest)
    ensures Lex(u, Print(p) + rest) == TokensOf(p) + Lex(u, rest)
  {
    hide Lex, UnitsOk, RawOk, CommentOk, IsWord, IsPunct, PrintUnits, PrintComment, TextOf;
    match p
    case WordPiece(word) => LexWord(u, word, rest);
    case PunctPiece(c) => LexPunct(u, c, rest);
    case StrPiece(units, bytes) =>
      LexStrPiece(u, units, bytes, rest);
    case RawPiece(body, hashes, bytes) => LexRaw(u, body, hashes, bytes, rest);
    case CharPiece(c) => LexChar(u, c, rest);
    case EscapedCharPiece(escaped) => LexEscapedChar(u, escaped, rest);
    case Lifetime(name) => LexLifetime(u, name, rest);
    case LinePiece(text) => LexLine(u, text, rest);
    case BlockPiece(comment) => LexBlock(u, comment, rest);
  }

  // ----- whole sources

  /** A piece and the whitespace after it. */
  datatype Item = Item(piece: Piece, gap: string)

  function PrintAll(items: seq<Item>): string {
    if items == [] then "" else Print(items[0].piece) + items[0].gap + PrintAll(items[1..])
  }

  function AllTokens(items: seq<Item>): seq<Token> {
    if items == [] then [] else TokensOf(items[0].piece) + AllTokens(items[1..])
  }

  /** Well-formed pieces, with whitespace, if any, between them, none running into the next. */
  ghost predicate ItemsOk(u: Classes, items: seq<Item>) {
    items == [] || (
      && PieceOk(u, items[0].piece) && AllSpaces(u, items[0].gap)
      && Apart(u, items[0].piece, items[0].gap + PrintAll(items[1..])) && ItemsOk(u, items[1..]))
  }

  /** Pieces with whitespace after each never run together. */
  lemma {:induction false} SpacedItemsOk(u: Classes, items: seq<Item>)
    requires u.Valid()
    requires forall i :: 0 <= i < |items| ==>
               PieceOk(u, items[i].piece) && AllSpaces(u, items[i].gap) && (items[i].gap != "" || i == |items| - 1)
    ensures ItemsOk(u, items)
  {
    if items != [] {
      SpacedItemsOk(u, items[1..]);
      GapIsApart(u, items[0].piece, items[0].gap + PrintAll(items[1..]));
    }
  }

  /** Lexing inverts printing: well-formed words, punctuation, string literals of
      every kind, comments, lifetimes and character literals, in any order and with
      whitespace only where two would run together, lex to exactly their tokens. */
  lemma {:induction false} LexInvertsPrint(u: Classes, items: seq<Item>)
    requires u.Valid() && ItemsOk(u, items)
    ensures Lex(u, PrintAll(items)) == AllTokens(items)
  {
    if items != [] {
      var item, more := items[0], items[1..];
      var rest := item.gap + PrintAll(more);
      assert PrintAll(items) == Print(item.piece) + rest;
      LexPiece(u, item.piece, rest);
      LexSpaces(u, item.gap, PrintAll(more));
      LexInvertsPrint(u, more);
    }
  }

  // ----- printing a token list

  /** `text` is a string literal's body: quotes and backslashes only escaped. */
  predicate Escaped(text: string) {
    text == "" || (
      if text[0] == '\\' then |text| >= 2 && text[1] != '\n' && Escaped(text[2..])
      else text[0] != '"' && Escaped(text[1..]))
  }

  function UnitsOf(text: string): (units: seq<Unit>)
    requires Escaped(text)
    ensures PrintUnits(units) == text == TextOf(units)
    ensures forall i :: 0 <= i < |units| ==> !units[i].Continue?
  {
    if text == "" then []
    else if text[0] == '\\' then
      assert text == PrintUnit(Escape(text[1])) + text[2..];
      [Escape(text[1])] + UnitsOf(text[2..])
    else
      assert text == PrintUnit(Plain(text[0])) + text[1..];
      [Plain(text[0])] + UnitsOf(text[1..])
  }

  lemma {:induction false} UnitsOfOk(u: Classes, text: string)
    requires Escaped(text)
    ensures UnitsOk(u, UnitsOf(text))
  {
    if text != "" {
      var n := if text[0] == '\\' then 2 else 1;
      UnitsOfOk(u, text[n..]);
      assert UnitsOf(text)[1..] == UnitsOf(text[n..]);
    }
  }

  function PrintToken(t: Token): string {
    match t
    case Word(word) => word
    case Punct(c) => [c]
    case Str(text) => "\"" + text + "\""
  }

  /** The tokens with a space after each. */
  function PrintTokens(tokens: seq<Token>): string {
    if tokens == [] then "" else PrintToken(tokens[0]) + " " + PrintTokens(tokens[1..])
  }

  predicate TokenOk(u: Classes, t: Token) {
    match t
    case Word(word) => IsWord(u, word)
    case Punct(c) => IsPunct(u, c)
    case Str(text) => Escaped(text)
  }

  function PieceOf(t: Token): (p: Piece)
    requires t.Str? ==> Escaped(t.text)
    ensures Print(p) == PrintToken(t) && TokensOf(p) == [t]
  {
    match t
    case Word(word) => WordPiece(word)
    case Punct(c) => PunctPiece(c)
    case Str(text) =>
      assert "" + "\"" == "\"";
      StrPiece(UnitsOf(text), false)
  }

  lemma LexToken(u: Classes, t: Token, more: string)
    requires u.Valid() && TokenOk(u, t)
    ensures Lex(u, PrintToken(t) + " " + more) == [t] + Lex(u, more)
  {
    hide Lex;
    if t.Str? {
      UnitsOfOk(u, t.text);
    }
    GapIsApart(u, PieceOf(t), " " + more);
    LexPiece(u, PieceOf(t), " " + more);
    LexSpaces(u, " ", more);
    assert PrintToken(t) + " " + more == PrintToken(t) + (" " + more);
  }

  /** Any list of well-formed tokens, printed with separating spaces, lexes back to itself. */
  lemma {:induction false} TokensRoundTrip(u: Classes, tokens: seq<Token>)
    requires u.Valid() && forall i :: 0 <= i < |tokens| ==> TokenOk(u, tokens[i])
    ensures Lex(u, PrintTokens(tokens)) == tokens
  {
    if tokens != [] {
      LexToken(u, tokens[0], PrintTokens(tokens[1..]));
      TokensRoundTrip(u, tokens[1..]);
    }
  }

  // ----- what any source lexes to

  ghost predicate Produced(u: Classes, t: Token) {
    t.Str? || TokenOk(u, t)
  }

  lemma StepProduces(u: Classes, s: string)
    requires u.Valid() && s != ""
    ensures forall i :: 0 <= i < |NextStep(u, s).tokens| ==> Produced(u, NextStep(u, s).tokens[i])
  {
    var n := WordEnd(u, s);
    assert u.InWord(s[0]) ==> n > 0 && IsWord(u, s[..n]);
  }

  /** Whatever the source, each word it lexes to is one and each punctuation mark is one. */
  lemma {:induction false} LexedAreProduced(u: Classes, s: string)
    requires u.Valid()
    ensures forall i :: 0 <= i < |Lex(u, s)| ==> Produced(u, Lex(u, s)[i])
    decreases |s|
  {
    if s != "" {
      var step := NextStep(u, s);
      StepProduces(u, s);
      LexedAreProduced(u, Drop(s, step.used));
      hide NextStep;
      assert Lex(u, s) == step.tokens + Lex(u, Drop(s, step.used));
    }
  }

  /** So lexing, printing and lexing again changes nothing when the string literals
      are escaped ones. */
  lemma LexIsStable(u: Classes, s: string)
    requires u.Valid()
    requires forall i :: 0 <= i < |Lex(u, s)| && Lex(u, s)[i].Str? ==> Escaped(Lex(u, s)[i].text)
    ensures Lex(u, PrintTokens(Lex(u, s))) == Lex(u, s)
  {
    LexedAreProduced(u, s);
    TokensRoundTrip(u, Lex(u, s));
  }

  // ----- where the lexer departs from Rust

  /** The literal of an escaped apostrophe ends one character early: its closing
      apostrophe is read again as an opening one. */
  lemma EscapedApostropheEndsEarly(u: Classes, rest: string)
    ensures Lex(u, "'\\'" + ("'" + rest)) == Lex(u, "'" + rest)
  {
    var s := "'\\'" + ("'" + rest);
    assert s[2..] == "''" + rest;
    LexStep(u, "'\\'", "'" + rest, []);
  }

  lemma ReadAgain(u: Classes)
    requires u.Valid()
    ensures Lex(u, "'r'") == [] && Lex(u, "r'") != []
  {
    LexChar(u, 'r', "");
    assert ['\'', 'r', '\''] + "" == "'r'" && Lex(u, "") == [];
    var s := "r'";
    assert s[1..] == "'" && u.InWord('r') && !u.InWord('\'') && WordEnd(u, s) == 1;
    assert s[..1] == "r" && NextStep(u, s) == Step([Word("r")], 1);
  }

  /** A character literal with an escape is dropped whatever follows exactly when what
      it escapes is not an apostrophe. */
  lemma EscapedCharDroppedExact(u: Classes, escaped: string)
    requires u.Valid() && escaped != "" && (escaped == "'" || '\'' !in escaped)
    ensures (forall rest :: Lex(u, "'\\" + escaped + "'" + rest) == Lex(u, rest)) <==> escaped != "'"
  {
    hide Lex;
    if escaped == "'" {
      var rest := "r'";
      EscapedApostropheEndsEarly(u, rest);
      assert "'\\" + escaped + "'" + rest == "'\\'" + ("'" + rest) && "'" + rest == "'r'";
      ReadAgain(u);
      assert Lex(u, "'\\" + escaped + "'" + rest) != Lex(u, rest);
    } else {
      forall rest ensures Lex(u, "'\\" + escaped + "'" + rest) == Lex(u, rest) {
        LexEscapedChar(u, escaped, rest);
      }
    }
  }

  lemma UnclosedString(u: Classes)
    ensures Lex(u, "\"'") == [Str("'")]
  {
    var s := "\"'";
    assert s[1..] == "'" && "'"[1..] == "";
    assert StrBody(u, "'").1 == 1 && StrBody(u, "'").0 == "'" + StrBody(u, "").0 == "'";
    assert NextStep(u, s) == Step([Str("'")], 3);
    hide NextStep, StrBody;
    assert Lex(u, s) == [Str("'")] + Lex(u, Drop(s, 3));
  }

  /** So the two character literals of an apostrophe and a quote, with a comma
      between, lex to a string literal. */
  lemma EscapedApostropheMakesString(u: Classes)
    ensures Lex(u, "'\\'','\"'") == [Str("'")]
  {
    hide Lex;
    EscapedApostropheEndsEarly(u, ",'\"'");
    assert "'\\'" + ("'" + ",'\"'") == "'\\'','\"'";
    LexChar(u, ',', "\"'");
    assert ['\'', ',', '\''] + "\"'" == "'" + ",'\"'";
    UnclosedString(u);
  }
}
