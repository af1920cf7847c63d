/** The string literals of a source outside its test items: the lexer and then the
    scan of its tokens (src/emitted_text.rs). */
module EmittedText {
  import opened Lexer
  import opened LexerRoundTrip
  import opened TestItems

  /** `production_strings` of the tokens of a source. */
  method SourceStrings(u: Classes, source: string) returns (strings: seq<string>, modules: seq<string>)
    ensures Found(strings, modules) == Production(Lex(u, source))
  {
    var tokens := Tokens(u, source);
    strings, modules := ProductionStrings(tokens);
  }

  lemma {:induction false} AllTokensJoin(a: seq<Item>, b: seq<Item>)
    ensures AllTokens(a + b) == AllTokens(a) + AllTokens(b)
  {
    if a == [] {
      assert a + b == b;
    } else {
      assert (a + b)[1..] == a[1..] + b;
      AllTokensJoin(a[1..], b);
    }
  }

  /** A source whose pieces have the tokens of the three stretches of chunks lexes to
      the tokens of them all. */
  lemma LexesTo(u: Classes, pre: seq<Item>, mid: seq<Item>, post: seq<Item>, a: seq<Chunk>, b: seq<Chunk>, c: seq<Chunk>)
    requires u.Valid() && ItemsOk(u, pre + (mid + post))
    requires AllTokens(pre) == Source(a) && AllTokens(mid) == Source(b) && AllTokens(post) == Source(c)
    ensures Lex(u, PrintAll(pre + (mid + post))) == Source(a + (b + c))
  {
    hide *;
    LexInvertsPrint(u, pre + (mid + post));
    AllTokensOf(pre, mid, post);
    SourceOf(a, b, c);
  }

  lemma AllTokensOf(pre: seq<Item>, mid: seq<Item>, post: seq<Item>)
    ensures AllTokens(pre + (mid + post)) == AllTokens(pre) + (AllTokens(mid) + AllTokens(post))
  {
    hide AllTokens;
    AllTokensJoin(pre, mid + post);
    AllTokensJoin(mid, post);
  }

  lemma SourceOf(a: seq<Chunk>, b: seq<Chunk>, c: seq<Chunk>)
    ensures Source(a + (b + c)) == Source(a) + (Source(b) + Source(c))
  {
    hide Source;
    SourceOfJoin(a, b + c);
    SourceOfJoin(b, c);
  }

  /** Writing a well-formed test item into a source leaves its strings as they are, and
      adds the module the item declares, if any: `item` has the item's tokens and `kept`
      those that stand there without it, and the pieces around them, with any comments
      and whitespace, those of plain tokens and of other items. */
  lemma InsertedInSource(u: Classes, pre: seq<Item>, item: seq<Item>, kept: seq<Item>, post: seq<Item>,
                         before: seq<Chunk>, c: Chunk, after: seq<Chunk>)
    requires u.Valid() && ItemsOk(u, pre + (item + post)) && ItemsOk(u, pre + (kept + post))
    requires AllTokens(pre) == Source(before) && AllTokens(post) == Source(after)
    requires AllTokens(item) == Source([c]) && AllTokens(kept) == Source(Replaced(c))
    requires c.TestItem? && Clean(before + (Replaced(c) + after))
    requires forall i :: 0 <= i < |before + ([c] + after)| ==> ChunkOk((before + ([c] + after))[i])
    ensures var withItem := Production(Lex(u, PrintAll(pre + (item + post))));
            var without := Production(Lex(u, PrintAll(pre + (kept + post))));
      && withItem.strings == without.strings
      && without.modules == Expected(before).modules + Expected(after).modules
      && withItem.modules == Expected(before).modules + (Declares(c) + Expected(after).modules)
  {
    hide Lex, Production, ItemsOk, PrintAll, AllTokens, Source, Clean, ChunkOk;
    LexesTo(u, pre, item, post, before, [c], after);
    LexesTo(u, pre, kept, post, before, Replaced(c), after);
    InsertedItemIsSkipped(before, c, after);
  }
}
