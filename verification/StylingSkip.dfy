// Skipping spans and blocks. The decoder skips recursively; here the same is
// said as one pass with a nesting counter.
module StylingSkip {
  import opened Wrappers
  import opened StylingModel
  import opened StylingConservation
  import opened Utf8

  const BLOCK_STARTS: Style := {BlockPreStart, BlockQuoteStart}
  const BLOCK_ENDS: Style := {BlockPreEnd, BlockQuoteEnd}
  const STARTS: Style := BLOCK_STARTS + {SpanEmphStart, SpanStrongStart, SpanStrikeStart, SpanPreStart}
  const ENDS: Style := BLOCK_ENDS + {SpanEmphEnd, SpanStrongEnd, SpanStrikeEnd, SpanPreEnd}

  // What a token does to the nesting, given the quotation depth before it. A
  // quotation marker goes down only if it deepens the quotation; a plain token
  // that ends a line ends a plain block.
  datatype Kind = Down | Up | Same

  function KindOf(spans: bool, before: nat, x: Lexer): Kind
    requires Linked(x.level)
  {
    var style := LexerStyle(x);
    var starts, ends := if spans then STARTS else BLOCK_STARTS, if spans then ENDS else BLOCK_ENDS;
    if style * (starts - {BlockQuoteStart}) != {} || (BlockQuoteStart in style && LexerQuote(x) > before) then Down
    else if style * ends != {} || (style == {} && x.level.lastNewline) then Up
    else Same
  }

  datatype Skipped = Skipped(lexer: Lexer, found: bool)

  // Read tokens until the nesting that was depth at x has been left.
  function Skip(spans: bool, x: Lexer, depth: nat): (r: Skipped)
    requires Ready(x)
    ensures Ready(r.lexer)
    decreases |Unread(x.reader)|, x.insertBlockClose
  {
    NextConserves(x);
    var s := Next(x);
    if s.token.None? then Skipped(s.lexer, false)
    else match KindOf(spans, LexerQuote(x), s.lexer)
      case Down => Skip(spans, s.lexer, depth + 1)
      case Same => Skip(spans, s.lexer, depth)
      case Up => if depth == 0 then Skipped(s.lexer, true) else Skip(spans, s.lexer, depth - 1)
  }

  // Leaving an outer nesting is leaving the inner one and going on.
  lemma {:induction false} SkipInsideOut(spans: bool, x: Lexer, inner: nat, outer: nat)
    requires Ready(x)
    ensures var r := Skip(spans, x, inner);
            Skip(spans, x, inner + 1 + outer) == if r.found then Skip(spans, r.lexer, outer) else r
    decreases |Unread(x.reader)|, x.insertBlockClose
  {
    hide Next, KindOf;
    NextConserves(x);
    var s := Next(x);
    if s.token.Some? {
      match KindOf(spans, LexerQuote(x), s.lexer)
      case Down => SkipInsideOut(spans, s.lexer, inner + 1, outer);
      case Same => SkipInsideOut(spans, s.lexer, inner, outer);
      case Up => if inner > 0 { SkipInsideOut(spans, s.lexer, inner - 1, outer); }
    }
  }

  // Skipping only reads on: it stops at a suffix of the outstanding input, after
  // at least one token, and reports failure only when the input is used up.
  lemma {:induction false} SkipReadsOn(spans: bool, x: Lexer, depth: nat) returns (consumed: seq<byte>)
    requires Ready(x)
    ensures var r := Skip(spans, x, depth);
            && consumed + Outstanding(r.lexer) == Outstanding(x)
            && (!r.found ==> Outstanding(x) == consumed)
            && (r.found ==> Shrunk(x, r.lexer))
    decreases |Unread(x.reader)|, x.insertBlockClose
  {
    hide Next, KindOf;
    NextConserves(x);
    var s := Next(x);
    if s.token.None? {
      consumed := [];
    } else {
      var data := s.token.value.data;
      var kind := KindOf(spans, LexerQuote(x), s.lexer);
      if kind == Up && depth == 0 {
        consumed := data;
      } else {
        var rest := SkipReadsOn(spans, s.lexer,
          match kind case Down => depth + 1 case Same => depth case Up => depth - 1);
        consumed := data + rest;
        var r := Skip(spans, x, depth);
        assert consumed + Outstanding(r.lexer) == data + (rest + Outstanding(r.lexer));
      }
    }
  }
}
