// What the styling decoder hands out, told from the text alone (XEP-0393,
// sections 5 and 6.2): which tokens there are, what styles they show and how deep
// the quotation is. Nothing here looks at the state of the decoder.
module StylingRules {
  import opened Wrappers
  import opened Utf8
  import opened StylingModel
  import opened StylingConservation
  import opened StylingSpans

  // ----- Directives and white space -----

  // The four directives and the style bits of their spans.
  lemma DirectiveFlags(b: byte)
    ensures IsDirective(b) <==> b == '*' as int || b == '_' as int || b == '~' as int || b == '`' as int
    ensures b == '*' as int
            ==> SpanFlag(b) == SpanStrong && StartFlag(b) == SpanStrongStart && EndFlag(b) == SpanStrongEnd
    ensures b == '_' as int ==> SpanFlag(b) == SpanEmph && StartFlag(b) == SpanEmphStart && EndFlag(b) == SpanEmphEnd
    ensures b == '~' as int
            ==> SpanFlag(b) == SpanStrike && StartFlag(b) == SpanStrikeStart && EndFlag(b) == SpanStrikeEnd
    ensures b == '`' as int ==> SpanFlag(b) == SpanPre && StartFlag(b) == SpanPreStart && EndFlag(b) == SpanPreEnd
  {
  }

  // The code points that count as white space.
  lemma WhiteSpaces(r: int)
    ensures IsSpace(r)
            <==> r in {0x9, 0xA, 0xB, 0xC, 0xD, 0x20, 0x85, 0xA0, 0x1680, 0x2000, 0x2001, 0x2002, 0x2003,
                       0x2004, 0x2005, 0x2006, 0x2007, 0x2008, 0x2009, 0x200A, 0x2028, 0x2029, 0x202F, 0x205F, 0x3000}
  {
  }

  // ----- Where spans open and close -----

  predicate SpaceBefore(u: seq<byte>, i: nat)
    requires i <= |u|
  {
    IsSpace(DecodeLast(u[..i]).rune)
  }

  predicate SpaceBehind(u: seq<byte>, i: nat)
    requires i < |u|
  {
    IsSpace(Decode(u[i + 1..]).rune)
  }

  // A directive may open a span at the front of the text that is left or behind
  // white space, with neither white space nor the same directive behind it.
  predicate OpensAt(u: seq<byte>, i: nat)
    requires i < |u|
  {
    && (u[i] == '*' as int || u[i] == '_' as int || u[i] == '~' as int || u[i] == '`' as int)
    && (i == 0 || SpaceBefore(u, i)) && !SpaceBehind(u, i) && !(i + 1 < |u| && u[i + 1] == u[i])
  }

  // It does if the same directive follows, not at once and not behind white space.
  predicate ClosesAt(u: seq<byte>, c: nat, k: nat)
    requires c < |u| && k < |u|
  {
    c + 1 < k && u[k] == u[c] && !SpaceBefore(u, k)
  }

  // The first newline or closing directive of the innermost open span.
  function Limit(stack: seq<byte>, u: seq<byte>): (e: nat)
    ensures e <= |u| && forall i | 0 <= i < e :: u[i] != NEWLINE && !(stack != [] && u[i] == Top(stack))
    ensures e < |u| ==> u[e] == NEWLINE || (stack != [] && u[e] == Top(stack))
  {
    if u == [] || u[0] == NEWLINE || (stack != [] && u[0] == Top(stack)) then 0 else 1 + Limit(stack, u[1..])
  }

  // The first directive that may open a span does, at c, because of the one at k.
  // Nothing opens in a preformatted span.
  predicate Pair(stack: seq<byte>, u: seq<byte>, c: nat, k: nat) {
    && BACKTICK !in stack && c < k < Limit(stack, u)
    && OpensAt(u, c) && (forall i | 0 <= i < c :: !OpensAt(u, i)) && ClosesAt(u, c, k)
  }

  datatype Event = Opening | Closing | Nothing

  // The token of length n at the front of u, with these spans open: the opening
  // directive, or the text before it; or the closing directive of the innermost
  // span, or the text before it; or the rest of the line.
  ghost predicate SpanRule(stack: seq<byte>, u: seq<byte>, n: nat, event: Event) {
    var e := Limit(stack, u);
    && (forall c, k | Pair(stack, u, c, k) ::
          if c == 0 then n == 1 && event == Opening else n == c && event == Nothing)
    && ((forall c, k :: !Pair(stack, u, c, k)) ==>
          if e == |u| then n == e && event == Nothing
          else if u[e] == NEWLINE then n == e + 1 && event == Nothing
          else if e == 0 then n == 1 && event == Closing
          else n == e && event == Nothing)
  }

  // What it shows.
  function SpanStyle(stack: seq<byte>, event: Event, b: byte): Style {
    match event
    case Opening => Bits(stack + [b]) + {StartFlag(b)}
    case Closing => Bits(stack) + {EndFlag(b)}
    case Nothing => Bits(stack)
  }

  // ----- Blocks -----

  // Open spans, quotation markers read on this line, and the quotation depth at
  // which a preformatted block is open.
  datatype Place = Place(stack: seq<byte>, marks: nat, pre: Option<nat>)

  const OUTSET := Place([], 0, None)

  predicate InBlock(p: Place) { p.stack == [] && p.pre == Some(p.marks) }

  predicate White(w: seq<byte>)
    decreases |w|
  {
    w == [] || (IsSpace(Decode(w).rune) && White(w[Decode(w).size..]))
  }

  // A quotation marker takes the white space behind it as far as it has been read.
  predicate MarkerRule(u: seq<byte>, n: nat) {
    && 1 <= n <= |u| && White(u[1..n])
    && exists m | n <= m <= |u| :: m == n || !IsSpace(Decode(u[n..m]).rune)
  }

  predicate Fenced(u: seq<byte>) { |u| >= 3 && u[0] == '`' as int && u[1] == '`' as int && u[2] == '`' as int }

  // Length of the first line of u.
  function Line(u: seq<byte>): (n: nat)
    ensures n <= |u|
  {
    if u == [] then 0 else if u[0] == NEWLINE then 1 else 1 + Line(u[1..])
  }

  // A line of a preformatted block, all of the rest, or a fence that ends it.
  predicate BlockRule(u: seq<byte>, n: nat, ends: bool) {
    if ends then Fenced(u) && (n == 3 || (n == 4 && |u| >= 4 && u[3] == NEWLINE))
    else if n == |u| && !Fenced(u) then true
    else n == Line(u) && 1 <= n && u[n - 1] == NEWLINE && !(Fenced(u) && |u| >= 4 && u[3] == NEWLINE)
  }

  function Quoted(p: Place): Style { if p.marks > 0 then {BlockQuote} else {} }

  // The token of length n at the front of u and its style.
  ghost predicate TokenRule(p: Place, u: seq<byte>, n: nat, style: Style)
    requires 1 <= n <= |u|
  {
    if InBlock(p) then
      && BlockRule(u, n, BlockPreEnd in style)
      && style == Quoted(p) + {BlockPre} + (if BlockPreEnd in style then {BlockPreEnd} else {})
    else if p.stack == [] && u[0] == '>' as int then
      MarkerRule(u, n) && style == {BlockQuote, BlockQuoteStart}
    else if p.stack == [] && Fenced(u) then
      n == Line(u) && style == Quoted(p) + {BlockPre, BlockPreStart}
    else
      exists event :: SpanRule(p.stack, u, n, event) && style == Quoted(p) + SpanStyle(p.stack, event, u[0])
  }

  // The quotation depth of a token: the markers read on its line, its own included.
  function DepthOf(p: Place, style: Style): nat { p.marks + if BlockQuoteStart in style then 1 else 0 }

  // Where that leads.
  function After(p: Place, token: seq<byte>, style: Style): Place
    requires token != []
  {
    Place(if style * SPAN_STARTS != {} then p.stack + token
          else if style * SPAN_ENDS != {} && p.stack != [] then p.stack[..|p.stack| - 1]
          else p.stack,
          if token[|token| - 1] == NEWLINE then 0 else DepthOf(p, style),
          if BlockQuoteStart in style then p.pre
          else if BlockPreStart in style then Some(p.marks)
          else if BlockPre in style && BlockPreEnd !in style then p.pre
          else None)
  }

  // What a token with a fence that starts a block says behind the fence.
  predicate InfoRule(t: Token, style: Style) {
    if BlockPreStart in style && t.info.Some? then
      t.info.value != [] && (t.data == FENCE + t.info.value || t.data == FENCE + t.info.value + [NEWLINE])
    else t.info == None && (BlockPreStart in style ==> t.data == FENCE || t.data == FENCE + [NEWLINE])
  }

  // ----- Whole runs -----

  ghost predicate TokenExplained(p: Place, out: seq<Seen>)
    requires out != [] && out[0].token.data != []
  {
    && out[0].token.data <= Joined(out) && TokenRule(p, Joined(out), |out[0].token.data|, out[0].style)
    && out[0].quote == DepthOf(p, out[0].style)
  }

  // A run from place p, at quotation depth quote. Where the depth falls, one token
  // without data says so; the token behind it comes without its info.
  ghost predicate Explained(p: Place, quote: nat, out: seq<Seen>)
    decreases |out|
  {
    if out == [] then p.stack == []
    else
      var x := out[0];
      if x.token.data == [] then
        && x.style == {BlockQuoteEnd, BlockQuote} && x.token.info == None
        && |out| > 1 && out[1].token.data != [] && out[1].token.info == None
        && out[1].quote < quote && x.quote == out[1].quote + 1
        && TokenExplained(p, out[1..]) && Explained(After(p, out[1].token.data, out[1].style), out[1].quote, out[2..])
      else
        && quote <= x.quote && InfoRule(x.token, x.style)
        && TokenExplained(p, out) && Explained(After(p, x.token.data, x.style), x.quote, out[1..])
  }
}
