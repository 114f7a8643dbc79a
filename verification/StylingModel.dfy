// The message styling lexer (XEP-0393) as a pure function from lexer state and
// buffer to the next token. The class in Styling.dfy updates its fields in
// place and is proved equal to these functions.
module StylingModel {
  import opened Wrappers
  import opened Utf8

  // A style bitmask is modelled as the set of its bits.
  datatype Flag =
    | BlockPre | BlockQuote
    | SpanEmph | SpanStrong | SpanStrike | SpanPre
    | BlockPreStart | BlockPreEnd | BlockQuoteStart | BlockQuoteEnd
    | SpanEmphStart | SpanEmphEnd | SpanStrongStart | SpanStrongEnd
    | SpanStrikeStart | SpanStrikeEnd | SpanPreStart | SpanPreEnd

  type Style = set<Flag>

  // One quote level of the decoder. Each level owns the decoder of the next
  // level once a quotation has been seen.
  datatype Level = Level(
    mask: Style,
    clearMask: Style,
    quoteStarted: bool,
    lastNewline: bool,
    hasRun: bool,
    spanStack: seq<byte>,
    quoteSplit: Option<Level>)

  const FRESH := Level({}, {}, false, false, false, [], None)

  // What a split function answers: the new state, and how many bytes at the
  // front of the buffer form the token (0 asks for more data).
  datatype Split = Split(level: Level, advance: nat)

  const NEWLINE: byte := 10
  const GREATER: byte := 62
  const STAR: byte := 42
  const UNDERSCORE: byte := 95
  const BACKTICK: byte := 96
  const TILDE: byte := 126
  const FENCE: seq<byte> := [BACKTICK, BACKTICK, BACKTICK]

  predicate IsDirective(b: byte) { b == STAR || b == UNDERSCORE || b == BACKTICK || b == TILDE }

  function SpanFlag(b: byte): Flag {
    if b == STAR then SpanStrong else if b == UNDERSCORE then SpanEmph
    else if b == TILDE then SpanStrike else SpanPre
  }

  function StartFlag(b: byte): Flag {
    if b == STAR then SpanStrongStart else if b == UNDERSCORE then SpanEmphStart
    else if b == TILDE then SpanStrikeStart else SpanPreStart
  }

  function EndFlag(b: byte): Flag {
    if b == STAR then SpanStrongEnd else if b == UNDERSCORE then SpanEmphEnd
    else if b == TILDE then SpanStrikeEnd else SpanPreEnd
  }

  function Depth(l: Level): nat {
    1 + if l.quoteSplit.Some? then Depth(l.quoteSplit.value) else 0
  }

  // A started quotation always has a decoder for its inside.
  predicate Linked(l: Level) {
    && (l.quoteStarted ==> l.quoteSplit.Some?)
    && (l.quoteSplit.Some? ==> Linked(l.quoteSplit.value))
  }

  // At the start of a line every level forgets that it was entered.
  function Forget(l: Level): (r: Level)
    ensures Depth(r) == Depth(l)
    ensures Linked(l) ==> Linked(r)
  {
    l.(quoteStarted := false, hasRun := false,
       quoteSplit := if l.quoteSplit.None? then None else Some(Forget(l.quoteSplit.value)))
  }

  function NextSpace(data: seq<byte>, i: nat): bool
    requires i < |data|
  {
    IsSpace(Decode(data[i + 1..]).rune)
  }

  function PrevSpace(data: seq<byte>, i: nat): bool
    requires i < |data|
  {
    IsSpace(DecodeLast(data[..i]).rune)
  }

  predicate HasFence(data: seq<byte>) { |data| >= 3 && data[..3] == FENCE }

  // Index of the first newline at or after i, or -1.
  function NewlineFrom(data: seq<byte>, i: nat): (r: int)
    requires i <= |data|
    ensures -1 <= r < |data|
    ensures r == -1 ==> forall k | i <= k < |data| :: data[k] != NEWLINE
    ensures r != -1 ==> i <= r && data[r] == NEWLINE && forall k | i <= k < r :: data[k] != NEWLINE
    decreases |data| - i
  {
    if i == |data| then -1 else if data[i] == NEWLINE then i else NewlineFrom(data, i + 1)
  }

  function SpacesFrom(data: seq<byte>, l: nat): (r: nat)
    requires l <= |data|
    ensures l <= r <= |data|
    decreases |data| - l
  {
    if l == |data| then l
    else
      var d := Decode(data[l..]);
      if IsSpace(d.rune) then SpacesFrom(data, l + d.size) else l
  }

  // Length of the quotation marker that data starts with, white space included.
  function QuoteMarker(data: seq<byte>): (l: nat)
    ensures l <= |data|
    ensures l > 0 <==> |data| > 0 && data[0] == GREATER
  {
    if data == [] || data[0] != GREATER then 0 else SpacesFrom(data, 1)
  }

  // What the span scanner finds first: text of some length, the closing
  // directive of the innermost span, an opening directive, or nothing yet.
  datatype Hit = Text(len: nat) | Closer(directive: byte) | Opener(directive: byte) | Miss

  function Top(stack: seq<byte>): byte
    requires stack != []
  {
    stack[|stack| - 1]
  }

  // Whether the directive at i may open a span (section 6.2 of XEP-0393).
  predicate MayOpen(data: seq<byte>, i: nat)
    requires i < |data|
  {
    && (i == 0 || PrevSpace(data, i))
    && !NextSpace(data, i)
    && !(|data| > i + 1 && data[i + 1] == data[i])
  }

  // Walk over the buffer from i; start is where a candidate opening directive
  // was seen, or -1.
  function FindSpan(stack: seq<byte>, inPre: bool, data: seq<byte>, i: nat, start: int): (h: Hit)
    requires -1 <= start < i <= |data| || (start == -1 && i == 0)
    ensures h.Text? ==> 1 <= h.len <= |data|
    ensures h.Closer? || h.Opener? ==> |data| >= 1 && data[0] == h.directive && IsDirective(h.directive)
    ensures h.Closer? ==> stack != [] && h.directive == Top(stack)
    decreases |data| - i
  {
    if i == |data| then Miss
    else
      var b := data[i];
      if b == NEWLINE then Text(i + 1)
      else if !IsDirective(b) then FindSpan(stack, inPre, data, i + 1, start)
      else if stack != [] && b == Top(stack) then
        if i == 0 then Closer(b) else Text(i)
      else if start == -1 && !inPre then
        FindSpan(stack, inPre, data, i + 1, if MayOpen(data, i) then i else -1)
      else if start >= 0 && b == data[start] && !PrevSpace(data, i) && i > start + 1 then
        if start > 0 then Text(start) else Opener(b)
      else FindSpan(stack, inPre, data, i + 1, start)
  }

  function ScanSpan(l: Level, data: seq<byte>, atEOF: bool): (r: Split)
    ensures r.advance <= |data|
  {
    match FindSpan(l.spanStack, SpanPre in l.mask, data, 0, -1)
    case Text(n) => Split(l, n)
    case Closer(b) =>
      Split(l.(mask := l.mask + {EndFlag(b)},
               clearMask := l.clearMask + {SpanFlag(b), EndFlag(b)},
               spanStack := l.spanStack[..|l.spanStack| - 1]), 1)
    case Opener(b) =>
      Split(l.(mask := l.mask + {SpanFlag(b), StartFlag(b)},
               clearMask := l.clearMask + {StartFlag(b)},
               spanStack := l.spanStack + [b]), 1)
    case Miss => Split(l, if atEOF then |data| else 0)
  }

  // Inside a preformatted block only its end and line breaks matter.
  function ScanPre(l: Level, data: seq<byte>, atEOF: bool): (r: Split)
    ensures r.advance <= |data|
  {
    if HasFence(data) && !atEOF && |data| == 3 then Split(l, 0)
    else if HasFence(data) && (atEOF || (|data| > 3 && data[3] == NEWLINE)) then
      Split(l.(mask := l.mask + {BlockPreEnd}, clearMask := l.clearMask + {BlockPre, BlockPreEnd}),
            if atEOF then 3 else 4)
    else if atEOF then Split(l, |data|)
    else Split(l, NewlineFrom(data, 0) + 1)
  }

  // A level that is not inside a quotation looks for a fence, then for spans.
  function ScanPlain(l: Level, data: seq<byte>, atEOF: bool): (r: Split)
    ensures r.advance <= |data|
  {
    var newline := NewlineFrom(data, 0);
    var fenced := l.(mask := l.mask + {BlockPre, BlockPreStart}, clearMask := l.clearMask + {BlockPreStart});
    if HasFence(data) && newline > 0 then Split(fenced, newline + 1)
    else if HasFence(data) && atEOF then Split(fenced, |data|)
    else if HasFence(data) && newline == -1 then Split(l, 0)
    else ScanSpan(l, data, atEOF)
  }

  // The state a call starts from: line-start bookkeeping, then the bits whose
  // removal an earlier call put off.
  function Prepare(l: Level): (r: Level)
    ensures Depth(r) == Depth(l)
    ensures Linked(l) ==> Linked(r)
  {
    var m := if l.lastNewline then Forget(l).(mask := l.mask - {BlockQuote}, lastNewline := false) else l;
    m.(mask := m.mask - m.clearMask, clearMask := {})
  }

  function StartQuote(l: Level): (r: Level)
    ensures Linked(l) ==> Linked(r)
  {
    l.(mask := l.mask + {BlockQuote, BlockQuoteStart},
       clearMask := l.clearMask + {BlockQuoteStart},
       quoteSplit := if l.quoteSplit.None? then Some(FRESH) else l.quoteSplit,
       quoteStarted := true,
       hasRun := true)
  }

  // A token that ends a line is remembered.
  function NoteNewline(r: Split, data: seq<byte>): Split
    requires r.advance <= |data|
  {
    if r.advance > 0 && data[r.advance - 1] == NEWLINE then r.(level := r.level.(lastNewline := true)) else r
  }

  // The split function of the decoder.
  function Scan(l: Level, data: seq<byte>, atEOF: bool): (r: Split)
    requires Linked(l)
    ensures Linked(r.level)
    ensures r.advance <= |data|
    decreases Depth(l), 1
  {
    if atEOF && data == [] then Split(l, 0)
    else NoteNewline(Dispatch(Prepare(l), data, atEOF), data)
  }

  // Which construct the next token belongs to.
  function Dispatch(p: Level, data: seq<byte>, atEOF: bool): (r: Split)
    requires Linked(p)
    ensures Linked(r.level)
    ensures r.advance <= |data|
    decreases Depth(p), 0
  {
    if p.spanStack != [] then ScanSpan(p, data, atEOF)
    else if BlockPre in p.mask then ScanPre(p.(hasRun := true), data, atEOF)
    else
      var marker := QuoteMarker(data);
      if marker > 0 && !p.quoteStarted then Split(StartQuote(p), marker)
      else if p.quoteStarted then
        var inner := Scan(p.quoteSplit.value, data, atEOF);
        Split(p.(quoteSplit := Some(inner.level)), inner.advance)
      else ScanPlain(p.(quoteSplit := None, hasRun := true), data, atEOF)
  }

  // Block quotation depth at the current position.
  function Quote(l: Level): nat
    requires Linked(l)
  {
    if l.quoteStarted then 1 + Quote(l.quoteSplit.value) else 0
  }

  // Style bits that apply at the current position.
  function StyleOf(l: Level): Style {
    if !l.hasRun then {}
    else if l.quoteSplit.Some? then l.mask + StyleOf(l.quoteSplit.value)
    else l.mask
  }

  // ----- The scanner that feeds the split function -----

  // The unread rest of the buffer, the reads still to come, and whether the
  // reader has reported the end of the input. Reads that return no bytes are
  // retried by the scanner, so only non-empty chunks appear. The last read may
  // come together with the end of the input or before it.
  datatype Reader = Reader(buf: seq<byte>, chunks: seq<seq<byte>>, lastWithEOF: bool, eof: bool)

  predicate Feasible(r: Reader) {
    && (forall i | 0 <= i < |r.chunks| :: r.chunks[i] != [])
    && (r.eof ==> r.chunks == [])
  }

  function Flatten(chunks: seq<seq<byte>>): seq<byte> {
    if chunks == [] then [] else chunks[0] + Flatten(chunks[1..])
  }

  function Unread(r: Reader): seq<byte> { r.buf + Flatten(r.chunks) }

  function Fill(r: Reader): (s: Reader)
    requires Feasible(r) && !r.eof
    ensures Feasible(s)
  {
    if r.chunks == [] then r.(eof := true)
    else r.(buf := r.buf + r.chunks[0], chunks := r.chunks[1..], eof := |r.chunks| == 1 && r.lastWithEOF)
  }

  datatype Scanned = Scanned(reader: Reader, level: Level, token: Option<seq<byte>>)

  // bufio.Scanner.Scan with the decoder's split function.
  function ScanToken(r: Reader, l: Level): (s: Scanned)
    requires Feasible(r) && Linked(l)
    ensures Feasible(s.reader) && Linked(s.level)
    decreases |r.chunks|, !r.eof
  {
    if r.buf == [] && !r.eof then ScanToken(Fill(r), l)
    else
      var split := Scan(l, r.buf, r.eof);
      if split.advance > 0 then
        Scanned(r.(buf := r.buf[split.advance..]), split.level, Some(r.buf[..split.advance]))
      else if r.eof then Scanned(r.(buf := []), split.level, None)
      else ScanToken(Fill(r), split.level)
  }

  // ----- The decoder: virtual end-of-quotation tokens -----

  datatype Token = Token(data: seq<byte>, info: Option<seq<byte>>)

  const VIRTUAL := Token([], None)

  // The decoder between two calls; bytes is the scanner's last token.
  datatype Lexer = Lexer(reader: Reader, level: Level, insertBlockClose: bool, bytes: seq<byte>)

  predicate Ready(x: Lexer) { Feasible(x.reader) && Linked(x.level) }

  function LexerQuote(x: Lexer): nat
    requires Linked(x.level)
  {
    Quote(x.level) + if x.insertBlockClose then 1 else 0
  }

  function LexerStyle(x: Lexer): Style {
    if x.insertBlockClose then {BlockQuoteEnd, BlockQuote} else StyleOf(x.level)
  }

  function InfoOf(style: Style, data: seq<byte>): Option<seq<byte>> {
    var newlineLen := if |data| > 0 && data[|data| - 1] == NEWLINE then 1 else 0;
    if BlockPreStart in style && |data| > 3 + newlineLen then Some(data[3..|data| - newlineLen]) else None
  }

  datatype Stepped = Stepped(lexer: Lexer, token: Option<Token>)

  function Next(x: Lexer): (s: Stepped)
    requires Ready(x)
    ensures Ready(s.lexer)
  {
    if x.insertBlockClose then
      Stepped(x.(insertBlockClose := false), Some(Token(x.bytes, None)))
    else
      var s := ScanToken(x.reader, x.level);
      if s.token.None? then Stepped(x.(reader := s.reader, level := s.level, bytes := []), None)
      else
        var y := x.(reader := s.reader, level := s.level, bytes := s.token.value);
        if Quote(s.level) < Quote(x.level) then
          Stepped(y.(insertBlockClose := true), Some(VIRTUAL))
        else Stepped(y, Some(Token(s.token.value, InfoOf(StyleOf(s.level), s.token.value))))
  }

  // What a reader of the decoder sees for each token.
  datatype Seen = Seen(token: Token, style: Style, quote: nat)

  function Start(chunks: seq<seq<byte>>, lastWithEOF: bool): Lexer {
    Lexer(Reader([], chunks, lastWithEOF, false), FRESH, false, [])
  }
}
