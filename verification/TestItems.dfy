/** The string literals of a token list outside its test items
    (`production_strings` of src/emitted_text.rs). */
module TestItems {
  import opened Lexer
  import opened Wrappers

  const CFG_TEST: seq<Token> :=
    [Punct('#'), Punct('['), Word("cfg"), Punct('('), Word("test"), Punct(')'), Punct(']')]

  datatype Found = Found(strings: seq<string>, modules: seq<string>)

  // ----- what the scan takes

  /** The tokens before the one that ends the header of an item: a `,`, `}`, `;`
      or `{` outside its brackets. */
  function HeaderLen(item: seq<Token>, depth: int): (n: nat)
    ensures n <= |item|
  {
    if item == [] then 0
    else match item[0]
      case Punct(c) =>
        if c == '(' || c == '[' then 1 + HeaderLen(item[1..], depth + 1)
        else if c == ')' || c == ']' then 1 + HeaderLen(item[1..], depth - 1)
        else if c in ",};{" && depth == 0 then 0
        else 1 + HeaderLen(item[1..], depth)
      case _ => 1 + HeaderLen(item[1..], depth)
  }

  /** The tokens before the `}` that closes the last open brace. */
  function BodyLen(item: seq<Token>, braces: int): (n: nat)
    ensures n <= |item|
  {
    if item == [] then 0
    else if item[0] == Punct('{') then 1 + BodyLen(item[1..], braces + 1)
    else if item[0] == Punct('}') then (if braces == 1 then 0 else 1 + BodyLen(item[1..], braces - 1))
    else 1 + BodyLen(item[1..], braces)
  }

  /** The name a `mod name` header declares. */
  function ModuleOf(header: seq<Token>): seq<string> {
    var n := |header|;
    if n >= 2 && header[n - 2] == Word("mod") && header[n - 1].Word? then [header[n - 1].word] else []
  }

  /** The tokens of an item, its end included, and the module it declares. */
  function SkipItem(item: seq<Token>): (r: (nat, seq<string>))
  {
    var n := HeaderLen(item, 0);
    if n < |item| && item[n] == Punct('{') then (n + BodyLen(item[n..], 0) + 1, [])
    else (n + 1, if n < |item| && item[n] == Punct(';') then ModuleOf(item[..n]) else [])
  }

  function Rest(tokens: seq<Token>, n: nat): seq<Token> {
    if n <= |tokens| then tokens[n..] else []
  }

  function StrOf(t: Token): seq<string> {
    if t.Str? then [t.text] else []
  }

  function Production(tokens: seq<Token>): Found
    decreases |tokens|
  {
    if tokens == [] then Found([], [])
    else if !(CFG_TEST <= tokens) then
      var rest := Production(tokens[1..]);
      Found(StrOf(tokens[0]) + rest.strings, rest.modules)
    else
      var (used, declared) := SkipItem(tokens[7..]);
      var rest := Production(Rest(tokens, 7 + used));
      Found(rest.strings, declared + rest.modules)
  }

  // ----- the scan as the code has it

  method FindBodyEnd(tokens: seq<Token>, start: nat) returns (at: nat)
    requires start <= |tokens|
    ensures at == start + BodyLen(tokens[start..], 0) <= |tokens|
  {
    at := start;
    var braces := 0;
    while at < |tokens|
      invariant start <= at <= |tokens|
      invariant at + BodyLen(tokens[at..], braces) == start + BodyLen(tokens[start..], 0)
    {
      assert tokens[at..][1..] == tokens[at + 1..];
      if tokens[at] == Punct('{') {
        braces := braces + 1;
      } else if tokens[at] == Punct('}') {
        braces := braces - 1;
        if braces == 0 {
          return;
        }
      }
      at := at + 1;
    }
  }

  method FindHeaderEnd(tokens: seq<Token>, start: nat) returns (at: nat)
    requires start <= |tokens|
    ensures at == start + HeaderLen(tokens[start..], 0) <= |tokens|
  {
    at := start;
    var depth := 0;
    while at < |tokens|
      invariant start <= at <= |tokens|
      invariant at + HeaderLen(tokens[at..], depth) == start + HeaderLen(tokens[start..], 0)
    {
      assert tokens[at..][1..] == tokens[at + 1..];
      match tokens[at] {
        case Punct(c) =>
          if c == '(' || c == '[' {
            depth := depth + 1;
          } else if c == ')' || c == ']' {
            depth := depth - 1;
          } else if c in ",};{" && depth == 0 {
            return;
          }
        case _ =>
      }
      at := at + 1;
    }
  }

  /** From after the cfg to after the item's end. */
  method Skip(tokens: seq<Token>, start: nat) returns (at: nat, declared: seq<string>)
    requires start <= |tokens|
    ensures at >= start && (at - start, declared) == SkipItem(tokens[start..])
  {
    at := FindHeaderEnd(tokens, start);
    ghost var item := tokens[start..];
    assert item[..at - start] == tokens[start..at];
    declared := [];
    if at < |tokens| && tokens[at] == Punct('{') {
      assert item[at - start..] == tokens[at..];
      at := FindBodyEnd(tokens, at);
    } else if at < |tokens| && tokens[at] == Punct(';') {
      declared := ModuleOf(tokens[start..at]);
    }
    at := at + 1;
  }

  /** What the scan finds from the cursor on; nothing past the end. */
  ghost function ProductionFrom(tokens: seq<Token>, at: nat): Found {
    Production(Rest(tokens, at))
  }

  ghost function Prepend(strings: seq<string>, modules: seq<string>, rest: Found): Found {
    Found(strings + rest.strings, modules + rest.modules)
  }

  lemma ProductionAtItem(tokens: seq<Token>)
    requires CFG_TEST <= tokens
    ensures var (used, declared) := SkipItem(tokens[7..]);
      && Production(tokens).strings == Production(Rest(tokens, 7 + used)).strings
      && Production(tokens).modules == declared + Production(Rest(tokens, 7 + used)).modules
  {
    hide SkipItem, Rest;
  }

  lemma SkippedFrom(tokens: seq<Token>, at: nat, next: nat, modules: seq<string>)
    requires at < |tokens| && CFG_TEST <= tokens[at..] && next >= at + 7
    requires (next - at - 7, modules) == SkipItem(tokens[at + 7..])
    ensures ProductionFrom(tokens, at) == Prepend([], modules, ProductionFrom(tokens, next))
  {
    hide SkipItem, Production;
    var rest := tokens[at..];
    assert rest[7..] == tokens[at + 7..];
    assert Rest(rest, next - at) == Rest(tokens, next);
    assert Rest(tokens, at) == rest;
    ProductionAtItem(rest);
  }

  /** One turn of the main loop: a token outside test items, or a test item. */
  method Advance(tokens: seq<Token>, at: nat) returns (next: nat, strings: seq<string>, modules: seq<string>)
    requires at < |tokens|
    ensures next > at
    ensures ProductionFrom(tokens, at) == Prepend(strings, modules, ProductionFrom(tokens, next))
  {
    hide SkipItem;
    if !(CFG_TEST <= tokens[at..]) {
      assert tokens[at..][1..] == tokens[at + 1..];
      return at + 1, StrOf(tokens[at]), [];
    }
    next, modules := Skip(tokens, at + 7);
    strings := [];
    SkippedFrom(tokens, at, next, modules);
  }

  /** `production_strings`: on any tokens the scan ends, having found what
      `Production` says. */
  method ProductionStrings(tokens: seq<Token>) returns (strings: seq<string>, modules: seq<string>)
    ensures Found(strings, modules) == Production(tokens)
  {
    strings, modules := [], [];
    var at := 0;
    while at < |tokens|
      invariant Production(tokens) == Prepend(strings, modules, ProductionFrom(tokens, at))
      decreases |tokens| - at
    {
      var next, moreStrings, moreModules := Advance(tokens, at);
      Regroup(strings, moreStrings, ProductionFrom(tokens, next).strings);
      Regroup(modules, moreModules, ProductionFrom(tokens, next).modules);
      at, strings, modules := next, strings + moreStrings, modules + moreModules;
    }
  }

  // ----- well-formed test items

  /** Tokens with nested groups. */
  datatype Tree = Nil | Tok(t: Token, rest: Tree) | Group(open: char, inner: Tree, close: char, rest: Tree)

  function Flat(tree: Tree): seq<Token> {
    match tree
    case Nil => []
    case Tok(t, rest) => [t] + Flat(rest)
    case Group(open, inner, close, rest) => [Punct(open)] + Flat(inner) + [Punct(close)] + Flat(rest)
  }

  predicate IsAny(t: Token, marks: string) {
    t.Punct? && t.c in marks
  }

  /** Round and square brackets nested, and outside all of them no `,`, `;` or brace. */
  predicate HeaderOk(tree: Tree, outside: bool) {
    match tree
    case Nil => true
    case Tok(t, rest) => !IsAny(t, "()[]") && (outside ==> !IsAny(t, ",;{}")) && HeaderOk(rest, outside)
    case Group(open, inner, close, rest) =>
      open in "([" && close in ")]" && HeaderOk(inner, false) && HeaderOk(rest, outside)
  }

  /** Braces nested. */
  predicate BodyOk(tree: Tree) {
    match tree
    case Nil => true
    case Tok(t, rest) => !IsAny(t, "{}") && BodyOk(rest)
    case Group(open, inner, close, rest) => open == '{' && close == '}' && BodyOk(inner) && BodyOk(rest)
  }

  /** How an item ends: by `;` or `,`, by a body, or by the `}` of what holds it. */
  datatype Ending = Semicolon | Comma | Braces(body: Tree) | Enclosing

  function EndTokens(e: Ending): seq<Token> {
    match e
    case Semicolon => [Punct(';')]
    case Comma => [Punct(',')]
    case Braces(body) => [Punct('{')] + Flat(body) + [Punct('}')]
    case Enclosing => [Punct('}')]
  }

  /** A source: tokens outside test items, and test items. */
  datatype Chunk = Plain(t: Token) | TestItem(header: Tree, ending: Ending)

  predicate ChunkOk(c: Chunk) {
    c.TestItem? ==> HeaderOk(c.header, true) && (c.ending.Braces? ==> BodyOk(c.ending.body))
  }

  function ChunkTokens(c: Chunk): seq<Token> {
    match c
    case Plain(t) => [t]
    case TestItem(header, ending) => CFG_TEST + Flat(header) + EndTokens(ending)
  }

  function Source(chunks: seq<Chunk>): seq<Token> {
    if chunks == [] then [] else ChunkTokens(chunks[0]) + Source(chunks[1..])
  }

  /** The module a test item declares: `mod name;` and nothing else. */
  function Declares(c: Chunk): seq<string> {
    if c.TestItem? && c.ending.Semicolon? then ModuleOf(Flat(c.header)) else []
  }

  /** The strings of the plain tokens and the modules of the items. */
  function Expected(chunks: seq<Chunk>): Found {
    if chunks == [] then Found([], [])
    else
      var rest := Expected(chunks[1..]);
      Found((if chunks[0].Plain? then StrOf(chunks[0].t) else []) + rest.strings, Declares(chunks[0]) + rest.modules)
  }

  /** No plain tokens spell a `#[cfg(test)]`. */
  predicate Clean(chunks: seq<Chunk>) {
    chunks == [] || ((chunks[0].Plain? ==> !(CFG_TEST <= Source(chunks))) && Clean(chunks[1..]))
  }

  // ----- the scan finds exactly what the source's grammar says

  /** A token that is no bracket, nor outside brackets a separator, is of the header. */
  lemma HeaderTakes(t: Token, more: seq<Token>, outside: bool, depth: int)
    requires !IsAny(t, "()[]") && (outside ==> !IsAny(t, ",;{}")) && (!outside ==> depth > 0)
    ensures HeaderLen([t] + more, depth) == 1 + HeaderLen(more, depth)
  {
    assert ([t] + more)[1..] == more;
  }

  lemma HeaderOpens(open: char, more: seq<Token>, depth: int)
    requires open in "(["
    ensures HeaderLen([Punct(open)] + more, depth) == 1 + HeaderLen(more, depth + 1)
  {
    assert ([Punct(open)] + more)[1..] == more;
  }

  lemma HeaderCloses(close: char, more: seq<Token>, depth: int)
    requires close in ")]"
    ensures HeaderLen([Punct(close)] + more, depth) == 1 + HeaderLen(more, depth - 1)
  {
    assert ([Punct(close)] + more)[1..] == more;
  }

  lemma {:induction false} HeaderLenIs(tree: Tree, outside: bool, rest: seq<Token>, depth: int)
    requires HeaderOk(tree, outside) && (if outside then depth == 0 else depth > 0)
    ensures HeaderLen(Flat(tree) + rest, depth) == |Flat(tree)| + HeaderLen(rest, depth)
  {
    hide HeaderLen, IsAny;
    match tree
    case Nil =>
      assert Flat(tree) + rest == rest;
    case Tok(t, more) =>
      assert Flat(tree) + rest == [t] + (Flat(more) + rest);
      HeaderTakes(t, Flat(more) + rest, outside, depth);
      HeaderLenIs(more, outside, rest, depth);
    case Group(open, inner, close, more) =>
      var tail := [Punct(close)] + (Flat(more) + rest);
      assert Flat(tree) + rest == [Punct(open)] + (Flat(inner) + tail);
      HeaderOpens(open, Flat(inner) + tail, depth);
      HeaderLenIs(inner, false, tail, depth + 1);
      HeaderCloses(close, Flat(more) + rest, depth + 1);
      HeaderLenIs(more, outside, rest, depth);
  }

  lemma BodyTakes(t: Token, more: seq<Token>, braces: int)
    requires !IsAny(t, "{}")
    ensures BodyLen([t] + more, braces) == 1 + BodyLen(more, braces)
  {
    assert ([t] + more)[1..] == more;
  }

  lemma BodyOpens(more: seq<Token>, braces: int)
    ensures BodyLen([Punct('{')] + more, braces) == 1 + BodyLen(more, braces + 1)
  {
    assert ([Punct('{')] + more)[1..] == more;
  }

  lemma BodyCloses(more: seq<Token>, braces: int)
    requires braces > 1
    ensures BodyLen([Punct('}')] + more, braces) == 1 + BodyLen(more, braces - 1)
  {
    assert ([Punct('}')] + more)[1..] == more;
  }

  lemma {:induction false} BodyLenIs(tree: Tree, rest: seq<Token>, braces: int)
    requires BodyOk(tree) && braces > 0
    ensures BodyLen(Flat(tree) + rest, braces) == |Flat(tree)| + BodyLen(rest, braces)
  {
    hide BodyLen, IsAny;
    match tree
    case Nil =>
      assert Flat(tree) + rest == rest;
    case Tok(t, more) =>
      assert Flat(tree) + rest == [t] + (Flat(more) + rest);
      BodyTakes(t, Flat(more) + rest, braces);
      BodyLenIs(more, rest, braces);
    case Group(open, inner, close, more) =>
      var tail := [Punct(close)] + (Flat(more) + rest);
      assert Flat(tree) + rest == [Punct(open)] + (Flat(inner) + tail);
      BodyOpens(Flat(inner) + tail, braces);
      BodyLenIs(inner, tail, braces + 1);
      BodyCloses(Flat(more) + rest, braces + 1);
      BodyLenIs(more, rest, braces);
  }

  lemma HeaderStops(e: Ending, rest: seq<Token>)
    ensures HeaderLen(EndTokens(e) + rest, 0) == 0
  {
  }

  lemma BodyOfIs(body: Tree, rest: seq<Token>)
    requires BodyOk(body)
    ensures BodyLen(EndTokens(Braces(body)) + rest, 0) == |Flat(body)| + 1
  {
    var tail := [Punct('}')] + rest;
    var s := EndTokens(Braces(body)) + rest;
    assert s == [Punct('{')] + (Flat(body) + tail);
    assert s[1..] == Flat(body) + tail;
    BodyLenIs(body, tail, 1);
  }

  /** The scan of an item takes the item and its end. */
  lemma SkipItemIs(c: Chunk, rest: seq<Token>)
    requires c.TestItem? && ChunkOk(c)
    ensures SkipItem(Flat(c.header) + EndTokens(c.ending) + rest).0 == |Flat(c.header)| + |EndTokens(c.ending)|
    ensures SkipItem(Flat(c.header) + EndTokens(c.ending) + rest).1 == Declares(c)
  {
    var header, end := Flat(c.header), EndTokens(c.ending) + rest;
    var item := header + EndTokens(c.ending) + rest;
    assert item == header + end;
    HeaderLenIs(c.header, true, end, 0);
    HeaderStops(c.ending, rest);
    hide HeaderLen, BodyLen, HeaderOk, BodyOk, Flat, ModuleOf;
    assert item[|header|] == end[0] && item[..|header|] == header && item[|header|..] == end;
    if c.ending.Braces? {
      BodyOfIs(c.ending.body, rest);
    }
  }

  lemma ItemTokens(c: Chunk, rest: seq<Token>)
    requires c.TestItem?
    ensures var tokens := ChunkTokens(c) + rest;
            && CFG_TEST <= tokens && tokens[7..] == Flat(c.header) + EndTokens(c.ending) + rest
            && |ChunkTokens(c)| == 7 + |Flat(c.header)| + |EndTokens(c.ending)|
            && tokens[|ChunkTokens(c)|..] == rest
  {
    hide Flat, EndTokens;
    var tail := Flat(c.header) + EndTokens(c.ending);
    assert ChunkTokens(c) == CFG_TEST + tail;
    assert ChunkTokens(c) + rest == CFG_TEST + (tail + rest);
  }

  lemma ProductionOfItem(c: Chunk, rest: seq<Token>)
    requires c.TestItem? && ChunkOk(c)
    ensures var all := Production(ChunkTokens(c) + rest);
            all.strings == Production(rest).strings && all.modules == Declares(c) + Production(rest).modules
  {
    hide SkipItem, Flat, EndTokens, ChunkOk, ChunkTokens, Production, Declares;
    ItemTokens(c, rest);
    SkipItemIs(c, rest);
    ProductionAtItem(ChunkTokens(c) + rest);
  }

  lemma ProductionOfPlain(t: Token, rest: seq<Token>)
    requires !(CFG_TEST <= [t] + rest)
    ensures var all := Production([t] + rest);
            all.strings == StrOf(t) + Production(rest).strings && all.modules == Production(rest).modules
  {
    assert ([t] + rest)[1..] == rest;
  }

  /** On every source made of plain tokens and well-formed test items, the scan
      returns the strings of the plain tokens and the modules of the items. */
  lemma {:induction false} ProductionIsExpected(chunks: seq<Chunk>)
    requires Clean(chunks) && forall i :: 0 <= i < |chunks| ==> ChunkOk(chunks[i])
    ensures Production(Source(chunks)) == Expected(chunks)
  {
    hide Production, ChunkOk;
    if chunks == [] {
      ProductionOfNothing();
    } else {
      var c, more := chunks[0], chunks[1..];
      ProductionIsExpected(more);
      if c.Plain? {
        ProductionOfPlain(c.t, Source(more));
      } else {
        ProductionOfItem(c, Source(more));
      }
    }
  }

  lemma ProductionOfNothing()
    ensures Production([]) == Found([], [])
  {
  }

  lemma SkipUnended(header: Tree, body: Option<Tree>)
    requires HeaderOk(header, true) && (body.Some? ==> BodyOk(body.value))
    ensures SkipItem(Flat(header) + BegunBody(body)) == (|Flat(header) + BegunBody(body)| + 1, [])
  {
    var rest := BegunBody(body);
    var item := Flat(header) + rest;
    HeaderLenIs(header, true, rest, 0);
    BodyOfBegun(body);
    assert item[|Flat(header)|..] == rest && (rest != [] ==> item[|Flat(header)|] == rest[0]);
    hide HeaderLen, BodyLen, Flat, HeaderOk, BodyOk, ModuleOf;
  }

  lemma BodyOfBegun(body: Option<Tree>)
    requires body.Some? ==> BodyOk(body.value)
    ensures HeaderLen(BegunBody(body), 0) == 0
    ensures body.Some? ==> BodyLen(BegunBody(body), 0) == |BegunBody(body)|
  {
    if body.Some? {
      assert BegunBody(body)[1..] == Flat(body.value) == Flat(body.value) + [];
      BodyLenIs(body.value, [], 1);
    }
  }

  /** A last item that nothing ends, in its header or in its body, leaves nothing. */
  lemma UnendedItem(header: Tree, body: Option<Tree>)
    requires HeaderOk(header, true) && (body.Some? ==> BodyOk(body.value))
    ensures Production(CFG_TEST + (Flat(header) + BegunBody(body))) == Found([], [])
  {
    var item := Flat(header) + BegunBody(body);
    SkipUnended(header, body);
    hide SkipItem, Flat, BegunBody, HeaderOk, BodyOk, Production;
    assert (CFG_TEST + item)[7..] == item;
    ProductionAtItem(CFG_TEST + item);
    ProductionOfNothing();
  }

  function BegunBody(body: Option<Tree>): seq<Token> {
    if body.Some? then [Punct('{')] + Flat(body.value) else []
  }

  // ----- inserting a test item

  /** What a source has where the item goes: the `}` that holds the item when it
      is that which ends it. */
  function Replaced(c: Chunk): seq<Chunk> {
    if c.TestItem? && c.ending.Enclosing? then [Plain(Punct('}'))] else []
  }

  lemma {:induction false} SourceOfJoin(a: seq<Chunk>, b: seq<Chunk>)
    ensures Source(a + b) == Source(a) + Source(b)
  {
    if a == [] {
      assert a + b == b;
    } else {
      assert (a + b)[1..] == a[1..] + b;
      SourceOfJoin(a[1..], b);
    }
  }

  lemma {:induction false} ExpectedOfJoin(a: seq<Chunk>, b: seq<Chunk>)
    ensures Expected(a + b).strings == Expected(a).strings + Expected(b).strings
    ensures Expected(a + b).modules == Expected(a).modules + Expected(b).modules
  {
    hide Declares, StrOf;
    if a == [] {
      assert a + b == b;
    } else {
      assert (a + b)[1..] == a[1..] + b && (a + b)[0] == a[0];
      ExpectedOfJoin(a[1..], b);
      assert Expected(a + b).modules == Declares(a[0]) + Expected(a[1..] + b).modules;
    }
  }

  /** A cfg does not begin inside another: plain tokens before an item cannot run
      into its cfg. */
  lemma NoCfgAcross(before: seq<Token>, after: seq<Token>)
    requires before != [] && !(CFG_TEST <= before)
    ensures !(CFG_TEST <= before + (CFG_TEST + after))
  {
    var s := before + (CFG_TEST + after);
    if |before| < 7 {
      assert s[|before|] == Punct('#') && CFG_TEST[|before|] != Punct('#');
    } else {
      assert s[..7] == before[..7];
    }
  }

  lemma {:induction false} InsertKeepsClean(pre: seq<Chunk>, c: Chunk, post: seq<Chunk>)
    requires c.TestItem? && Clean(pre + (Replaced(c) + post))
    ensures Clean(pre + ([c] + post))
  {
    if pre == [] {
      assert pre + ([c] + post) == [c] + post && ([c] + post)[1..] == post;
      assert pre + (Replaced(c) + post) == Replaced(c) + post;
      if Replaced(c) != [] {
        assert (Replaced(c) + post)[1..] == post;
      } else {
        assert Replaced(c) + post == post;
      }
    } else {
      assert (pre + ([c] + post))[1..] == pre[1..] + ([c] + post);
      assert (pre + (Replaced(c) + post))[1..] == pre[1..] + (Replaced(c) + post);
      InsertKeepsClean(pre[1..], c, post);
      if pre[0].Plain? {
        SourceOfJoin(pre, [c] + post);
        SourceOfJoin(pre, Replaced(c) + post);
        HeadStaysClean(pre, c, post);
      }
    }
  }

  lemma PrefixExtends<T>(p: seq<T>, a: seq<T>, b: seq<T>)
    requires p <= a
    ensures p <= a + b
  {
  }

  lemma SourceOfItem(c: Chunk, post: seq<Chunk>) returns (after: seq<Token>)
    requires c.TestItem?
    ensures Source([c] + post) == CFG_TEST + after
  {
    hide Flat, EndTokens;
    var tail := Flat(c.header) + EndTokens(c.ending);
    after := tail + Source(post);
    assert ([c] + post)[1..] == post;
    assert Source([c] + post) == ChunkTokens(c) + Source(post);
    Regroup(CFG_TEST, Flat(c.header), EndTokens(c.ending));
    Regroup(CFG_TEST, tail, Source(post));
    hide *;
  }

  lemma HeadStaysClean(pre: seq<Chunk>, c: Chunk, post: seq<Chunk>)
    requires pre != [] && pre[0].Plain? && c.TestItem?
    requires !(CFG_TEST <= Source(pre) + Source(Replaced(c) + post))
    ensures !(CFG_TEST <= Source(pre) + Source([c] + post))
  {
    var after := SourceOfItem(c, post);
    assert Source(pre)[0] == pre[0].t;
    hide Source;
    if CFG_TEST <= Source(pre) {
      PrefixExtends(CFG_TEST, Source(pre), Source(Replaced(c) + post));
    } else {
      NoCfgAcross(Source(pre), after);
    }
  }

  /** Inserting a well-formed test item leaves the strings as they are, and adds
      the name of the module it declares, if any, to the modules. */
  lemma InsertedItemIsSkipped(pre: seq<Chunk>, c: Chunk, post: seq<Chunk>)
    requires c.TestItem? && Clean(pre + (Replaced(c) + post))
    requires forall i :: 0 <= i < |pre + ([c] + post)| ==> ChunkOk((pre + ([c] + post))[i])
    ensures var withItem, without := Production(Source(pre + ([c] + post))), Production(Source(pre + (Replaced(c) + post)));
      && withItem.strings == without.strings
      && without.modules == Expected(pre).modules + Expected(post).modules
      && withItem.modules == Expected(pre).modules + (Declares(c) + Expected(post).modules)
  {
    var newChunks, oldChunks := pre + ([c] + post), pre + (Replaced(c) + post);
    InsertKeepsClean(pre, c, post);
    assert forall i :: 0 <= i < |oldChunks| ==> ChunkOk(oldChunks[i]) by {
      forall i | 0 <= i < |oldChunks| ensures ChunkOk(oldChunks[i]) {
        if i < |pre| {
          assert oldChunks[i] == newChunks[i];
        } else if i >= |pre| + |Replaced(c)| {
          assert oldChunks[i] == newChunks[i + 1 - |Replaced(c)|];
        }
      }
    }
    hide Production, Clean, ChunkOk, Source;
    ProductionIsExpected(newChunks);
    ProductionIsExpected(oldChunks);
    ExpectedOfJoin(pre, [c] + post);
    ExpectedOfJoin(pre, Replaced(c) + post);
    ExpectedOfItem(c, post);
  }

  lemma ExpectedOfItem(c: Chunk, post: seq<Chunk>)
    requires c.TestItem?
    ensures Expected([c] + post).strings == Expected(post).strings == Expected(Replaced(c) + post).strings
    ensures Expected([c] + post).modules == Declares(c) + Expected(post).modules
    ensures Expected(Replaced(c) + post).modules == Expected(post).modules
  {
    assert ([c] + post)[1..] == post;
    if Replaced(c) == [] {
      assert Replaced(c) + post == post;
    } else {
      assert (Replaced(c) + post)[1..] == post;
    }
  }

  // ----- the same, written out on positions

  ghost predicate Increasing(where: seq<nat>) {
    forall i, j :: 0 <= i < j < |where| ==> where[i] < where[j]
  }

  /** The strings stand, in order, in the plain string tokens at `where`, and there are no others. */
  ghost predicate StringsAt(chunks: seq<Chunk>, strings: seq<string>, where: seq<nat>) {
    && Increasing(where) && |where| == |strings|
    && (forall j :: 0 <= j < |where| ==> where[j] < |chunks| && chunks[where[j]] == Plain(Str(strings[j])))
    && (forall i :: 0 <= i < |chunks| && chunks[i].Plain? && chunks[i].t.Str? ==> i in where)
  }

  /** The item is a `mod name;`, with whatever stands before the `mod`. */
  ghost predicate DeclaresModule(c: Chunk, name: string) {
    c.TestItem? && c.ending == Semicolon && exists before :: Flat(c.header) == before + [Word("mod"), Word(name)]
  }

  /** The modules are those of the items at `where`, in order, and no other item declares one. */
  ghost predicate ModulesAt(chunks: seq<Chunk>, modules: seq<string>, where: seq<nat>) {
    && Increasing(where) && |where| == |modules|
    && (forall j :: 0 <= j < |where| ==> where[j] < |chunks| && DeclaresModule(chunks[where[j]], modules[j]))
    && (forall i, name :: 0 <= i < |chunks| && DeclaresModule(chunks[i], name) ==> i in where)
  }

  lemma DeclaresExact(c: Chunk, name: string)
    ensures DeclaresModule(c, name) <==> Declares(c) == [name]
  {
    if c.TestItem? {
      var header := Flat(c.header);
      var n := |header|;
      if Declares(c) == [name] {
        assert header == header[..n - 2] + [Word("mod"), Word(name)];
      }
    }
  }

  lemma DeclaresOne(c: Chunk)
    ensures Declares(c) == [] || exists name :: Declares(c) == [name]
  {
  }

  lemma ExpectedOfOne(c: Chunk)
    ensures Expected([c]) == Found(if c.Plain? && c.t.Str? then [c.t.text] else [], Declares(c))
  {
    assert Expected([c][1..]) == Found([], []);
    assert (if c.Plain? && c.t.Str? then [c.t.text] else []) + [] == if c.Plain? && c.t.Str? then [c.t.text] else [];
    assert Declares(c) + [] == Declares(c);
  }

  lemma ExpectedOfLast(chunks: seq<Chunk>)
    requires chunks != []
    ensures var n := |chunks| - 1; var c := chunks[n];
      && Expected(chunks).strings == Expected(chunks[..n]).strings + (if c.Plain? && c.t.Str? then [c.t.text] else [])
      && Expected(chunks).modules == Expected(chunks[..n]).modules + Declares(c)
  {
    var n := |chunks| - 1;
    assert chunks == chunks[..n] + [chunks[n]];
    ExpectedOfJoin(chunks[..n], [chunks[n]]);
    ExpectedOfOne(chunks[n]);
  }

  lemma StringsMore(chunks: seq<Chunk>, c: Chunk, strings: seq<string>, where: seq<nat>)
    requires StringsAt(chunks, strings, where)
    ensures if c.Plain? && c.t.Str? then StringsAt(chunks + [c], strings + [c.t.text], where + [|chunks|])
            else StringsAt(chunks + [c], strings, where)
  {
    var all := chunks + [c];
    assert all[|chunks|] == c && forall i :: 0 <= i < |chunks| ==> all[i] == chunks[i];
    assert forall i :: i in where ==> i in where + [|chunks|];
    assert (where + [|chunks|])[|where|] == |chunks|;
  }

  lemma {:induction false} StringsListed(chunks: seq<Chunk>) returns (where: seq<nat>)
    ensures StringsAt(chunks, Expected(chunks).strings, where)
    decreases |chunks|
  {
    where := [];
    if chunks != [] {
      var n := |chunks| - 1;
      hide StringsAt, Expected;
      where := StringsListed(chunks[..n]);
      ExpectedOfLast(chunks);
      StringsMore(chunks[..n], chunks[n], Expected(chunks[..n]).strings, where);
      assert chunks == chunks[..n] + [chunks[n]];
      if chunks[n].Plain? && chunks[n].t.Str? {
        where := where + [n];
      }
    }
  }

  lemma ModulesMore(chunks: seq<Chunk>, c: Chunk, modules: seq<string>, where: seq<nat>)
    requires ModulesAt(chunks, modules, where)
    ensures if exists name :: DeclaresModule(c, name) then
              forall name :: DeclaresModule(c, name) ==> ModulesAt(chunks + [c], modules + [name], where + [|chunks|])
            else ModulesAt(chunks + [c], modules, where)
  {
    hide DeclaresModule;
    var all := chunks + [c];
    assert all[|chunks|] == c && forall i :: 0 <= i < |chunks| ==> all[i] == chunks[i];
    assert forall i :: i in where ==> i in where + [|chunks|];
    assert (where + [|chunks|])[|where|] == |chunks|;
  }

  lemma {:induction false} ModulesListed(chunks: seq<Chunk>) returns (where: seq<nat>)
    ensures ModulesAt(chunks, Expected(chunks).modules, where)
    decreases |chunks|
  {
    where := [];
    if chunks != [] {
      var n := |chunks| - 1;
      DeclaresOne(chunks[n]);
      forall name ensures DeclaresModule(chunks[n], name) <==> Declares(chunks[n]) == [name] {
        DeclaresExact(chunks[n], name);
      }
      hide DeclaresModule, Declares, Expected, ModulesAt;
      where := ModulesListed(chunks[..n]);
      ExpectedOfLast(chunks);
      assert chunks == chunks[..n] + [chunks[n]];
      ModulesMore(chunks[..n], chunks[n], Expected(chunks[..n]).modules, where);
      if Declares(chunks[n]) != [] {
        where := where + [n];
      }
    }
  }

  /** What the scan finds in plain tokens and well-formed test items: the strings are
      the texts of the plain string literals, in order, and the modules the names of the
      items that are a `mod name;`, in order. */
  lemma FoundExactly(chunks: seq<Chunk>)
    requires Clean(chunks) && forall i :: 0 <= i < |chunks| ==> ChunkOk(chunks[i])
    ensures exists where :: StringsAt(chunks, Production(Source(chunks)).strings, where)
    ensures exists where :: ModulesAt(chunks, Production(Source(chunks)).modules, where)
  {
    hide Production, ChunkOk, Clean;
    ProductionIsExpected(chunks);
    var strings := StringsListed(chunks);
    var modules := ModulesListed(chunks);
  }

  /** The strings are the texts of the string tokens at `where`, in order, and of no others. */
  ghost predicate LiteralsAt(tokens: seq<Token>, strings: seq<string>, where: seq<nat>) {
    && Increasing(where) && |where| == |strings|
    && (forall j :: 0 <= j < |where| ==> where[j] < |tokens| && tokens[where[j]] == Str(strings[j]))
    && (forall i :: 0 <= i < |tokens| && tokens[i].Str? ==> i in where)
  }

  function AllPlain(tokens: seq<Token>): seq<Chunk> {
    seq(|tokens|, i requires 0 <= i < |tokens| => Plain(tokens[i]))
  }

  lemma AllPlainRest(tokens: seq<Token>)
    requires tokens != []
    ensures AllPlain(tokens)[0] == Plain(tokens[0]) && AllPlain(tokens)[1..] == AllPlain(tokens[1..])
  {
  }

  lemma {:induction false} PlainSource(tokens: seq<Token>)
    requires forall i :: 0 <= i < |tokens| ==> !(CFG_TEST <= tokens[i..])
    ensures Source(AllPlain(tokens)) == tokens && Clean(AllPlain(tokens))
  {
    if tokens != [] {
      var more, chunks := tokens[1..], AllPlain(tokens);
      assert forall i :: 0 <= i < |more| ==> more[i..] == tokens[i + 1..];
      PlainSource(more);
      AllPlainRest(tokens);
      hide AllPlain;
      assert tokens == [tokens[0]] + more && tokens[0..] == tokens;
      assert Source(chunks) == tokens;
    }
  }

  /** Without a `#[cfg(test)]` every string literal is found, in order, and no module. */
  lemma NoTestItems(tokens: seq<Token>)
    requires forall i :: 0 <= i < |tokens| ==> !(CFG_TEST <= tokens[i..])
    ensures Production(tokens).modules == [] && exists where :: LiteralsAt(tokens, Production(tokens).strings, where)
  {
    var chunks := AllPlain(tokens);
    PlainSource(tokens);
    FoundExactly(chunks);
    hide Production, Source, Clean, StringsAt, ModulesAt, LiteralsAt, AllPlain;
    var where :| StringsAt(chunks, Production(tokens).strings, where);
    PlainStrings(tokens, Production(tokens).strings, where);
    var none :| ModulesAt(chunks, Production(tokens).modules, none);
    PlainModules(tokens, Production(tokens).modules, none);
  }

  lemma PlainStrings(tokens: seq<Token>, strings: seq<string>, where: seq<nat>)
    requires StringsAt(AllPlain(tokens), strings, where)
    ensures LiteralsAt(tokens, strings, where)
  {
    forall i | 0 <= i < |tokens| && tokens[i].Str? ensures i in where {
      assert AllPlain(tokens)[i].Plain?;
    }
  }

  lemma PlainDeclaresNone()
    ensures forall t, name :: !DeclaresModule(Plain(t), name)
  {
  }

  lemma PlainModules(tokens: seq<Token>, modules: seq<string>, where: seq<nat>)
    requires ModulesAt(AllPlain(tokens), modules, where)
    ensures modules == []
  {
    hide DeclaresModule;
    assert modules != [] ==> DeclaresModule(AllPlain(tokens)[where[0]], modules[0]);
    PlainDeclaresNone();
  }

  /** The brackets opened and not closed in the first `n` tokens. */
  function Nesting(tokens: seq<Token>, open: string, close: string, n: nat): int
    requires n <= |tokens|
  {
    if n == 0 then 0
    else Nesting(tokens, open, close, n - 1)
         + (if IsAny(tokens[n - 1], open) then 1 else 0) - (if IsAny(tokens[n - 1], close) then 1 else 0)
  }

  lemma {:induction false} NestingOfRest(tokens: seq<Token>, open: string, close: string, n: nat)
    requires 0 < n <= |tokens|
    ensures Nesting(tokens, open, close, n) == Nesting(tokens, open, close, 1) + Nesting(tokens[1..], open, close, n - 1)
  {
    if n > 1 {
      NestingOfRest(tokens, open, close, n - 1);
      assert tokens[1..][n - 2] == tokens[n - 1];
    }
  }

  /** A separator outside all round and square brackets. */
  predicate HeaderEndsAt(item: seq<Token>, depth: int, n: nat)
    requires n < |item|
  {
    item[n] in [Punct(','), Punct('}'), Punct(';'), Punct('{')] && depth + Nesting(item, "([", ")]", n) == 0
  }

  /** A header, of whatever tokens, ends before the first separator outside all brackets. */
  lemma {:induction false} HeaderLenExact(item: seq<Token>, depth: int)
    ensures var n := HeaderLen(item, depth);
            (n < |item| ==> HeaderEndsAt(item, depth, n)) && forall k :: 0 <= k < n ==> !HeaderEndsAt(item, depth, k)
  {
    if item != [] && !HeaderEndsAt(item, depth, 0) {
      var n, more, inner := HeaderLen(item, depth), item[1..], depth + Nesting(item, "([", ")]", 1);
      assert Nesting(item, "([", ")]", 0) == 0;
      HeaderLenExact(more, inner);
      assert n == 1 + HeaderLen(more, inner);
      forall k | 0 < k < |item| ensures HeaderEndsAt(item, depth, k) <==> HeaderEndsAt(more, inner, k - 1) {
        NestingOfRest(item, "([", ")]", k);
        assert item[k] == more[k - 1];
      }
    }
  }

  /** A `}` with as many braces closed as opened up to it. */
  predicate BodyEndsAt(item: seq<Token>, braces: int, n: nat)
    requires n < |item|
  {
    item[n] == Punct('}') && braces + Nesting(item, "{", "}", n + 1) == 0
  }

  /** A body, of whatever tokens, ends with the first `}` that closes all it has opened. */
  lemma {:induction false} BodyLenExact(item: seq<Token>, braces: int)
    ensures var n := BodyLen(item, braces);
            (n < |item| ==> BodyEndsAt(item, braces, n)) && forall k :: 0 <= k < n ==> !BodyEndsAt(item, braces, k)
  {
    assert item != [] ==> Nesting(item, "{", "}", 0) == 0 && (BodyEndsAt(item, braces, 0) <==> item[0] == Punct('}') && braces == 1);
    if item != [] && !BodyEndsAt(item, braces, 0) {
      var n, more, inner := BodyLen(item, braces), item[1..], braces + Nesting(item, "{", "}", 1);
      BodyLenExact(more, inner);
      assert n == 1 + BodyLen(more, inner);
      hide BodyLen;
      forall k | 0 < k < |item| ensures BodyEndsAt(item, braces, k) <==> BodyEndsAt(more, inner, k - 1) {
        NestingOfRest(item, "{", "}", k + 1);
        assert item[k] == more[k - 1];
      }
    }
  }
}
