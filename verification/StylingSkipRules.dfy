// How far skipping goes, told from the rules for tokens.
module StylingSkipRules {
  import opened Wrappers
  import opened Utf8
  import opened StylingModel
  import opened StylingConservation
  import opened StylingSpans
  import opened StylingSkip
  import opened StylingRules
  import opened StylingRuled
  import opened StylingOpenings

  // What a token does to the nesting that skipping counts: blocks go down where
  // they open and up where they end, quotations only where they get deeper and at
  // the inserted tokens; spans likewise, if they are counted; and a line of plain
  // text outside quotations and spans is a block of its own.
  function KindRule(spans: bool, before: nat, p: Place, u: seq<byte>, n: nat, style: Style): Kind
    requires 1 <= n <= |u|
  {
    if InBlock(p) then (if BlockPreEnd in style then Up else Same)
    else if p.stack == [] && u[0] == '>' as int then (if p.marks + 1 > before then Down else Same)
    else if p.stack == [] && Fenced(u) then Down
    else if style * SPAN_STARTS != {} then (if spans then Down else Same)
    else if style * SPAN_ENDS != {} then (if spans then Up else Same)
    else if p.stack == [] && p.marks == 0 && u[n - 1] == NEWLINE then Up
    else Same
  }

  lemma SpanMarks(p: Place, u: seq<byte>, event: Event, style: Style)
    requires u != [] && AllDirectives(p.stack) && style == Quoted(p) + SpanStyle(p.stack, event, u[0])
    requires event != Nothing ==> IsDirective(u[0])
    ensures style * BLOCK_STARTS == {} && style * BLOCK_ENDS == {}
    ensures style * STARTS == style * SPAN_STARTS && style * ENDS == style * SPAN_ENDS
    ensures BlockQuoteStart !in style
    ensures style == {} <==> event == Nothing && p.marks == 0 && p.stack == []
  {
    BitsAreSpans(p.stack);
    BitsAreSpans(p.stack + [u[0]]);
    assert p.stack != [] ==> SpanFlag(p.stack[0]) in Bits(p.stack);
  }

  lemma KindMeans(spans: bool, before: nat, y: Lexer, p: Place, u: seq<byte>, n: nat)
    requires Linked(y.level) && !y.insertBlockClose && 1 <= n <= |u| && AllDirectives(p.stack)
    requires TokenRule(p, u, n, StyleOf(y.level)) && Quote(y.level) == DepthOf(p, StyleOf(y.level))
    requires y.level.lastNewline <==> u[n - 1] == NEWLINE
    ensures KindOf(spans, before, y) == KindRule(spans, before, p, u, n, StyleOf(y.level))
  {
    hide SpanRule, BlockRule, MarkerRule, Bits;
    var style := StyleOf(y.level);
    if !InBlock(p) && !(p.stack == [] && (u[0] == GREATER || Fenced(u))) {
      var event := EventOfStyle(p, u, n, style);
      SpanMarks(p, u, event, style);
    }
  }

  // An inserted end of a quotation ends one nesting.
  lemma InsertedEnds(spans: bool, before: nat, y: Lexer)
    requires Linked(y.level) && y.insertBlockClose
    ensures KindOf(spans, before, y) == Up
  {
    assert BlockQuoteEnd in LexerStyle(y) * BLOCK_ENDS && BlockQuoteEnd in LexerStyle(y) * ENDS;
    assert LexerStyle(y) * (STARTS - {BlockQuoteStart}) == {};
    assert LexerStyle(y) * (BLOCK_STARTS - {BlockQuoteStart}) == {};
  }

  // ----- Out of a span -----

  // A lexer that is not about to hand out a token behind an inserted one.
  predicate Steadily(x: Lexer) { LexerSound(x) && Blocks(x.level) && !x.insertBlockClose }

  lemma NotedNewline(l: Level, t: seq<byte>, u: seq<byte>, p: Place)
    requires Linked(l) && t != [] && t <= u && Fits(p, u, Split(l, |t|))
    requires NoteNewline(Split(l, |t|), u) == Split(l, |t|)
    ensures l.lastNewline <==> u[|t| - 1] == NEWLINE
  {
    hide TokenRule, After;
  }

  // One token with spans open or outside quotations: it follows the rule, and no
  // token is inserted. The text does not end with spans open.
  lemma RealToken(x: Lexer)
    requires Steadily(x) && (ActiveStack(x.level) != [] || Quote(x.level) == 0)
    ensures ActiveStack(x.level) != [] ==> Next(x).token.Some?
    ensures var s := Next(x);
            s.token.Some? ==>
            && Steadily(s.lexer)
            && var p, u, t := PlaceOf(x.level), Unread(x.reader), s.token.value.data;
               && t != [] && t <= u && TokenRule(p, u, |t|, StyleOf(s.lexer.level))
               && PlaceOf(s.lexer.level) == After(p, t, StyleOf(s.lexer.level))
               && Quote(s.lexer.level) == DepthOf(p, StyleOf(s.lexer.level))
               && (s.lexer.level.lastNewline <==> u[|t| - 1] == NEWLINE)
  {
    hide Scan, ScanToken, Sound, TokenRule, After, Shows, InfoOf, Blocks, DepthOf, StyleOf, Fits, NoteNewline;
    NextShows(x);
    ScanTokenSound(x.reader, x.level);
    ScanTokenFits(x.reader, x.level, []);
    var s := ScanToken(x.reader, x.level);
    if s.token.Some? {
      NotedIs(s.level, s.token.value, Unread(x.reader), PlaceOf(x.level));
      NotedNewline(s.level, s.token.value, Unread(x.reader), PlaceOf(x.level));
    }
  }

  lemma {:induction false} ActiveDirectives(l: Level, u: seq<byte>)
    requires Sound(l, u) && Linked(l)
    ensures AllDirectives(ActiveStack(l))
  {
    if l.quoteStarted { ActiveDirectives(l.quoteSplit.value, u); }
  }

  lemma SteadyParts(x: Lexer)
    requires Steadily(x)
    ensures Ready(x) && !x.insertBlockClose && AllDirectives(ActiveStack(x.level))
  {
    hide Sound;
    ActiveDirectives(x.level, x.reader.buf);
  }

  // With spans open, tokens open one more, close the innermost, or do neither.
  lemma SpanKinds(p: Place, u: seq<byte>, t: seq<byte>, style: Style, before: nat)
    requires t != [] && t <= u && p.stack != [] && AllDirectives(p.stack) && TokenRule(p, u, |t|, style)
    ensures var q := After(p, t, style).stack;
            match KindRule(true, before, p, u, |t|, style)
            case Down => |q| == |p.stack| + 1 && p.stack <= q
            case Up => q == p.stack[..|p.stack| - 1] && style * SPAN_ENDS == {EndFlag(Top(p.stack))}
            case Same => q == p.stack
  {
    hide SpanRule, Bits;
    assert u[0] == t[0];
    var event := EventOfStyle(p, u, |t|, style);
    EventMeans(p.stack, u, |t|, event);
    if event == Closing {
      BitsAreSpans(p.stack);
      assert IsDirective(u[0]);
    }
  }

  // Skipping from inside a span, below it so many others: it succeeds, and stops
  // behind the token that closes the span, with those around it still open.
  lemma {:induction false} SkipLeavesSpan(x: Lexer, stack: seq<byte>, depth: nat)
    requires Steadily(x) && |ActiveStack(x.level)| == |stack| + 1 + depth && stack <= ActiveStack(x.level)
    ensures var r := Skip(true, x, depth);
            r.found && Steadily(r.lexer) && ActiveStack(r.lexer.level) == stack
            && LexerStyle(r.lexer) * SPAN_ENDS == {EndFlag(ActiveStack(x.level)[|stack|])}
    decreases |Unread(x.reader)|
  {
    hide Next, KindOf, TokenRule, LexerSound, Steadily, Bits;
    SteadyParts(x);
    NextConserves(x);
    RealToken(x);
    var s := Next(x);
    var p, u, t, style := PlaceOf(x.level), Unread(x.reader), s.token.value.data, StyleOf(s.lexer.level);
    SteadyParts(s.lexer);
    KindMeans(true, LexerQuote(x), s.lexer, p, u, |t|);
    SpanKinds(p, u, t, style, LexerQuote(x));
    match KindOf(true, LexerQuote(x), s.lexer)
    case Down =>
      assert ActiveStack(s.lexer.level)[|stack|] == ActiveStack(x.level)[|stack|];
      SkipLeavesSpan(s.lexer, stack, depth + 1);
    case Same => SkipLeavesSpan(s.lexer, stack, depth);
    case Up =>
      if depth > 0 {
        assert ActiveStack(s.lexer.level)[|stack|] == ActiveStack(x.level)[|stack|];
        SkipLeavesSpan(s.lexer, stack, depth - 1);
      } else {
        assert p.stack[..|p.stack| - 1] == stack;
      }
  }

  // ----- Out of a preformatted block -----

  lemma BlockKinds(p: Place, u: seq<byte>, t: seq<byte>, style: Style)
    requires t != [] && t <= u && p == Place([], 0, Some(0)) && TokenRule(p, u, |t|, style)
    ensures After(p, t, style) == (if BlockPreEnd in style then OUTSET else p) && DepthOf(p, style) == 0
  {
  }

  // Skipping from inside a preformatted block outside quotations: it stops behind
  // the fence that ends the block, and fails only if none does.
  lemma {:induction false} SkipLeavesBlock(spans: bool, x: Lexer)
    requires Steadily(x) && PlaceOf(x.level) == Place([], 0, Some(0)) && Quote(x.level) == 0
    ensures var r := Skip(spans, x, 0);
            if r.found then BlockPreEnd in LexerStyle(r.lexer) && PlaceOf(r.lexer.level) == OUTSET
            else Outstanding(r.lexer) == []
    decreases |Unread(x.reader)|
  {
    hide Next, KindOf, TokenRule, LexerSound, Steadily, Bits;
    SteadyParts(x);
    NextConserves(x);
    RealToken(x);
    var s := Next(x);
    if s.token.Some? {
      var p, u, t, style := PlaceOf(x.level), Unread(x.reader), s.token.value.data, StyleOf(s.lexer.level);
      SteadyParts(s.lexer);
      KindMeans(spans, LexerQuote(x), s.lexer, p, u, |t|);
      BlockKinds(p, u, t, style);
      if BlockPreEnd !in style { SkipLeavesBlock(spans, s.lexer); }
    }
  }
}
