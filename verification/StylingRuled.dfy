// The decoder hands out what the rules say.
module StylingRuled {
  import opened Wrappers
  import opened Utf8
  import opened StylingModel
  import opened StylingConservation
  import opened StylingSpans
  import opened StylingChunks
  import opened StylingCuts
  import opened StylingRules

  // ----- Spans -----

  lemma OpensIsMay(u: seq<byte>, i: nat)
    requires i < |u|
    ensures OpensAt(u, i) <==> IsDirective(u[i]) && MayOpen(u, i)
  {
  }

  // Nothing up to i ends the scan.
  predicate Before(stack: seq<byte>, u: seq<byte>, i: nat) {
    i <= |u| && forall j | 0 <= j < i :: u[j] != NEWLINE && !(stack != [] && u[j] == Top(stack))
  }

  lemma {:induction false} LimitIs(stack: seq<byte>, u: seq<byte>, e: nat)
    requires Before(stack, u, e) && (e < |u| ==> u[e] == NEWLINE || (stack != [] && u[e] == Top(stack)))
    ensures Limit(stack, u) == e
    decreases |u|
  {
    if e > 0 {
      assert u[0] != NEWLINE && !(stack != [] && u[0] == Top(stack));
      assert forall j | 0 <= j < e - 1 :: u[1..][j] == u[j + 1];
      LimitIs(stack, u[1..], e - 1);
    }
  }

  // How a hit reads as a token.
  function Length(h: Hit, u: seq<byte>): nat { match h case Text(n) => n case Miss => |u| case _ => 1 }

  function EventOf(h: Hit): Event {
    match h case Opener(_) => Opening case Closer(_) => Closing case _ => Nothing
  }

  // What the walk over the buffer knows at i.
  predicate Walked(stack: seq<byte>, u: seq<byte>, i: nat, start: int) {
    && Before(stack, u, i) && -1 <= start < i
    && (start == -1 && BACKTICK !in stack ==> forall j | 0 <= j < i :: !OpensAt(u, j))
    && (start >= 0 ==>
          && BACKTICK !in stack && OpensAt(u, start) && (forall j | 0 <= j < start :: !OpensAt(u, j))
          && forall k | start < k < i :: !ClosesAt(u, start, k))
  }

  lemma NotThisPair(stack: seq<byte>, u: seq<byte>, i: nat, start: int, c: nat, k: nat)
    requires Walked(stack, u, i, start) || (i == 0 && start == -1 && Before(stack, u, 0))
    requires Limit(stack, u) == i
    ensures !Pair(stack, u, c, k)
  {
    hide OpensAt, ClosesAt;
  }

  // No pair opens up to i; if i ends the scan, none does at all.
  lemma WalkedNoPair(stack: seq<byte>, u: seq<byte>, i: nat, start: int)
    requires Walked(stack, u, i, start) || (i == 0 && start == -1 && Before(stack, u, 0))
    requires Limit(stack, u) == i
    ensures forall c, k :: !Pair(stack, u, c, k)
  {
    forall c: nat, k: nat ensures !Pair(stack, u, c, k) { NotThisPair(stack, u, i, start, c, k); }
  }

  lemma NotDirective(u: seq<byte>, i: nat, start: int)
    requires i < |u| && !IsDirective(u[i]) && start < i
    ensures start >= 0 && OpensAt(u, start) ==> !ClosesAt(u, start, i)
  {
  }

  lemma TopIsDirective(stack: seq<byte>, b: byte)
    requires AllDirectives(stack) && !IsDirective(b)
    ensures stack != [] ==> b != Top(stack)
  {
  }

  lemma NoClose(u: seq<byte>, start: nat, i: nat)
    requires start < i < |u| && !(u[i] == u[start] && !PrevSpace(u, i) && i > start + 1)
    ensures !ClosesAt(u, start, i)
  {
  }

  lemma OneCandidate(stack: seq<byte>, u: seq<byte>, c: nat, k: nat, c2: nat, k2: nat)
    requires Pair(stack, u, c, k) && Pair(stack, u, c2, k2)
    ensures c == c2
  {
    hide OpensAt;
  }

  lemma {:induction false} LimitBehind(stack: seq<byte>, u: seq<byte>, k: nat)
    requires k < |u| && Before(stack, u, k) && u[k] != NEWLINE && !(stack != [] && u[k] == Top(stack))
    ensures k < Limit(stack, u)
    decreases |u|
  {
    if k > 0 {
      assert u[0] != NEWLINE && !(stack != [] && u[0] == Top(stack));
      assert forall j | 0 <= j < k - 1 :: u[1..][j] == u[j + 1];
      LimitBehind(stack, u[1..], k - 1);
    }
  }

  // The first closing directive for the first opening one.
  lemma PairFound(stack: seq<byte>, u: seq<byte>, c: nat, k: nat)
    requires k < |u| && Walked(stack, u, k, c) && u[k] == u[c] && !PrevSpace(u, k) && k > c + 1
    requires u[k] != NEWLINE && !(stack != [] && u[k] == Top(stack))
    ensures SpanRule(stack, u, if c == 0 then 1 else c, if c == 0 then Opening else Nothing)
  {
    hide OpensAt;
    LimitBehind(stack, u, k);
    assert ClosesAt(u, c, k);
    assert Pair(stack, u, c, k);
    forall c2: nat, k2: nat | Pair(stack, u, c2, k2) ensures c2 == c { OneCandidate(stack, u, c, k, c2, k2); }
  }

  lemma {:induction false} FindSpanRuled(stack: seq<byte>, inPre: bool, u: seq<byte>, i: nat, start: int)
    requires inPre <==> BACKTICK in stack
    requires AllDirectives(stack)
    requires Walked(stack, u, i, start) || (i == 0 && start == -1)
    ensures var h := FindSpan(stack, inPre, u, i, start); SpanRule(stack, u, Length(h, u), EventOf(h))
    decreases |u| - i
  {
    hide MayOpen, OpensAt, ClosesAt, Pair, Limit;
    if i == |u| {
      LimitIs(stack, u, i);
      WalkedNoPair(stack, u, i, start);
    } else {
      var b := u[i];
      OpensIsMay(u, i);
      if b == NEWLINE || (IsDirective(b) && stack != [] && b == Top(stack)) {
        LimitIs(stack, u, i);
        WalkedNoPair(stack, u, i, start);
      } else if !IsDirective(b) {
        NotDirective(u, i, start);
        TopIsDirective(stack, b);
        FindSpanRuled(stack, inPre, u, i + 1, start);
      } else if start == -1 && !inPre {
        FindSpanRuled(stack, inPre, u, i + 1, if MayOpen(u, i) then i else -1);
      } else if start >= 0 && b == u[start] && !PrevSpace(u, i) && i > start + 1 {
        PairFound(stack, u, start, i);
      } else {
        if start >= 0 { NoClose(u, start, i); }
        FindSpanRuled(stack, inPre, u, i + 1, start);
      }
    }
  }

  // ----- The place of a decoder -----

  // How deep inside the decoder a preformatted block is open.
  function PreDepth(l: Level): Option<nat> {
    if BlockPre in l.mask - l.clearMask then Some(0)
    else if l.quoteSplit.None? then None
    else match PreDepth(l.quoteSplit.value) case Some(d) => Some(d + 1) case None => None
  }

  function PlaceOf(l: Level): Place
    requires Linked(l)
  {
    Place(ActiveStack(l), if l.lastNewline then 0 else Quote(l), PreDepth(l))
  }

  // No level of the decoder would still count as entered on the next line.
  predicate Tired(l: Level) {
    && (BlockQuote in l.mask ==> l.lastNewline)
    && (l.quoteSplit.Some? ==> Tired(l.quoteSplit.value))
  }

  // Quotation bits agree with what has been entered, level by level.
  predicate Blocks(l: Level) {
    && (l.quoteStarted ==> BlockQuote in l.mask)
    && (BlockQuote in l.mask && !l.lastNewline ==> l.quoteStarted)
    && BlockQuote !in l.clearMask
    && (l.quoteSplit.Some? ==> Blocks(l.quoteSplit.value))
    && (l.lastNewline && l.quoteSplit.Some? ==> Tired(l.quoteSplit.value))
    && (!l.lastNewline && l.quoteStarted && l.quoteSplit.Some? && l.quoteSplit.value.lastNewline
        ==> Asleep(l.quoteSplit.value))
  }

  lemma {:induction false} AsleepIsTired(l: Level)
    requires Asleep(l) && Blocks(l)
    ensures Tired(l)
  {
    if l.quoteSplit.Some? { AsleepIsTired(l.quoteSplit.value); }
  }

  lemma {:induction false} AsleepIsStill(l: Level)
    requires Asleep(l) && Linked(l)
    ensures Quote(l) == 0 && ActiveStack(l) == [] && StyleOf(l) == {}
  {
  }

  lemma {:induction false} ForgetBlocks(l: Level)
    requires Blocks(l) && Tired(l)
    ensures Blocks(Forget(l)) && Tired(Forget(l)) && PreDepth(Forget(l)) == PreDepth(l)
  {
    if l.quoteSplit.Some? { ForgetBlocks(l.quoteSplit.value); }
  }

  // The bits of a level that is about to scan.
  function ExactMask(p: Level): Style {
    (if BlockPre in p.mask then {BlockPre} else {}) + (if p.quoteStarted then {BlockQuote} else {}) + Bits(p.spanStack)
  }

  lemma PreparePre(l: Level)
    requires l.lastNewline && l.quoteSplit.Some?
             ==> PreDepth(Forget(l.quoteSplit.value)) == PreDepth(l.quoteSplit.value)
    ensures PreDepth(Prepare(l)) == PreDepth(l)
  {
    var p := Prepare(l);
    assert BlockPre in p.mask - p.clearMask <==> BlockPre in l.mask - l.clearMask;
  }

  lemma FlagKinds(f: Flag)
    ensures f in MARKS || f in SPANS || f == BlockPre || f == BlockQuote
  {
  }

  lemma BitsAreSpans(stack: seq<byte>)
    ensures Bits(stack) <= SPANS
  {
  }

  lemma MaskIsExact(p: Level)
    requires GoodMask(p) && p.clearMask == {} && (BlockQuote in p.mask <==> p.quoteStarted)
    ensures p.mask == ExactMask(p)
  {
    assert p.mask - p.clearMask == p.mask && p.mask * MARKS == {};
    forall f ensures f in p.mask <==> f in ExactMask(p) {
      FlagKinds(f);
      BitsAreSpans(p.spanStack);
      assert f in MARKS ==> f !in p.mask * MARKS;
      assert f in SPANS ==> (f in p.mask <==> f in p.mask * SPANS);
    }
  }

  lemma PrepareBlocks(l: Level, u: seq<byte>)
    requires Sound(l, u) && Blocks(l) && Linked(l)
    ensures var p := Prepare(l);
            Prepared(p, u) && Blocks(p) && PlaceOf(p) == PlaceOf(l) && p.mask == ExactMask(p)
  {
    PrepareSound(l, u);
    PrepareActive(l, u);
    var p := Prepare(l);
    if l.lastNewline {
      if l.quoteSplit.Some? { ForgetBlocks(l.quoteSplit.value); }
    }
    PreparePre(l);
    MaskIsExact(p);
  }

  // ----- One call -----

  // What is to be shown of the outcome of a call with u left of the text: its token
  // follows the rule, and the decoder is where that leads.
  ghost predicate Fits(p: Place, u: seq<byte>, r: Split)
    requires Linked(r.level) && 1 <= r.advance <= |u|
  {
    var style, q := StyleOf(r.level), NoteNewline(r, u).level;
    && TokenRule(p, u, r.advance, style)
    && Linked(q) && Blocks(q) && PlaceOf(q) == After(p, u[..r.advance], style)
    && Quote(r.level) == DepthOf(p, style)
    && (q.lastNewline <==> u[r.advance - 1] == NEWLINE)
  }

  // A single level, outside quotations and blocks.
  predicate Single(p: Level, data: seq<byte>) {
    Prepared(p, data) && Blocks(p) && SpanLevel(p) && BlockPre !in p.mask && p.mask == ExactMask(p)
  }

  lemma SinglePlace(p: Level, data: seq<byte>)
    requires Single(p, data)
    ensures PlaceOf(p) == Place(p.spanStack, 0, None) && p.mask == Bits(p.spanStack)
    ensures SpanPre in p.mask <==> BACKTICK in p.spanStack
    ensures AllDirectives(p.spanStack)
  {
    assert p.mask - p.clearMask == p.mask;
    PreBit(p.spanStack);
    if SpanPre in Bits(p.spanStack) {
      var i :| 0 <= i < |p.spanStack| && SpanPre == SpanFlag(p.spanStack[i]);
      assert IsDirective(p.spanStack[i]);
    }
  }

  lemma OpeningStyle(stack: seq<byte>, b: byte)
    requires IsDirective(b) && AllDirectives(stack)
    ensures var style := Bits(stack + [b]) + {StartFlag(b)};
            && style * SPAN_STARTS != {} && BlockQuoteStart !in style && BlockPreStart !in style && BlockPre !in style
            && Bits(stack) + {SpanFlag(b), StartFlag(b)} == style
  {
    BitsPush(stack, b);
    BitsAreSpans(stack + [b]);
    assert StartFlag(b) in (Bits(stack + [b]) + {StartFlag(b)}) * SPAN_STARTS;
  }

  lemma ClosingStyle(stack: seq<byte>, b: byte)
    requires IsDirective(b) && AllDirectives(stack)
    ensures var style := Bits(stack) + {EndFlag(b)};
            && style * SPAN_STARTS == {} && style * SPAN_ENDS != {}
            && BlockQuoteStart !in style && BlockPreStart !in style && BlockPre !in style
  {
    BitsAreSpans(stack);
    assert EndFlag(b) in (Bits(stack) + {EndFlag(b)}) * SPAN_ENDS;
    assert forall f | f in SPANS :: f !in SPAN_STARTS;
  }

  lemma PlainStyle(stack: seq<byte>)
    ensures Bits(stack) * SPAN_STARTS == {} && Bits(stack) * SPAN_ENDS == {}
    ensures BlockQuoteStart !in Bits(stack) && BlockPreStart !in Bits(stack) && BlockPre !in Bits(stack)
  {
    BitsAreSpans(stack);
    assert forall f | f in SPANS :: f !in SPAN_STARTS && f !in SPAN_ENDS;
  }

  // Where a level without quotation and block is after a token.
  lemma PlainPlace(q: Level, stack: seq<byte>)
    requires !q.quoteStarted && q.quoteSplit.None? && q.spanStack == stack && BlockPre !in q.mask
    ensures Linked(q) && PlaceOf(q) == Place(stack, 0, None) && Quote(q) == 0
  {
  }

  lemma PlainRule(p: Place, u: seq<byte>, n: nat, event: Event, style: Style)
    requires 1 <= n <= |u| && p.pre == None && (p.stack != [] || (u[0] != GREATER && !Fenced(u)))
    requires SpanRule(p.stack, u, n, event) && style == Quoted(p) + SpanStyle(p.stack, event, u[0])
    ensures TokenRule(p, u, n, style)
  {
    hide SpanRule;
  }

  // What the span scanner finds in the buffer is what the rule says of the text.
  lemma BufferRule(p: Level, data: seq<byte>, more: seq<byte>, atEOF: bool)
    requires Single(p, data) && (atEOF ==> more == []) && ScanSpan(p, data, atEOF).advance > 0
    ensures var h := FindSpan(p.spanStack, SpanPre in p.mask, data, 0, -1);
            SpanRule(p.spanStack, data + more, ScanSpan(p, data, atEOF).advance, EventOf(h))
  {
    hide SpanRule, FindSpan;
    var stack, inPre := p.spanStack, SpanPre in p.mask;
    SinglePlace(p, data);
    FindSpanRuled(stack, inPre, data + more, 0, -1);
    if !FindSpan(stack, inPre, data, 0, -1).Miss? {
      FindSpanStable(stack, inPre, data, more, 0, -1);
    } else {
      assert data + more == data;
    }
  }

  lemma NoQuoteBits(stack: seq<byte>, event: Event, b: byte)
    ensures BlockQuote !in SpanStyle(stack, event, b)
  {
    BitsAreSpans(stack);
    BitsAreSpans(stack + [b]);
  }

  // A level without quotation and block after a token for spans.
  lemma EventFits(q: Level, stack: seq<byte>, u: seq<byte>, n: nat, event: Event)
    requires 1 <= n <= |u| && AllDirectives(stack) && SpanRule(stack, u, n, event)
    requires stack != [] || (u[0] != GREATER && !Fenced(u))
    requires event == Opening ==> IsDirective(u[0]) && n == 1
    requires event == Closing ==> stack != [] && IsDirective(u[0])
    requires !q.quoteStarted && q.quoteSplit.None? && q.hasRun && !q.lastNewline && BlockQuote !in q.clearMask
    requires q.mask == SpanStyle(stack, event, u[0])
    requires q.spanStack == match event
                            case Opening => stack + [u[0]]
                            case Closing => stack[..|stack| - 1]
                            case Nothing => stack
    ensures Linked(q) && Fits(Place(stack, 0, None), u, Split(q, n))
  {
    hide SpanRule, TokenRule, Bits;
    var style := q.mask;
    match event {
      case Opening =>
        OpeningStyle(stack, u[0]);
        assert u[..1] == [u[0]];
      case Closing => ClosingStyle(stack, u[0]);
      case Nothing => PlainStyle(stack);
    }
    NoQuoteBits(stack, event, u[0]);
    var noted := NoteNewline(Split(q, n), u).level;
    PlainPlace(noted, q.spanStack);
    assert Quoted(Place(stack, 0, None)) + style == style;
    PlainRule(Place(stack, 0, None), u, n, event, style);
  }

  lemma SpanFits(p: Level, data: seq<byte>, more: seq<byte>, atEOF: bool)
    requires Single(p, data) && data != [] && (atEOF ==> more == []) && ScanSpan(p, data, atEOF).advance > 0
    requires p.spanStack != [] || (data[0] != GREATER && !Fenced(data + more))
    ensures var r := ScanSpan(p, data, atEOF); Linked(r.level) && Fits(PlaceOf(p), data + more, r)
  {
    hide SpanRule, FindSpan, Sound, Fits, PlaceOf, Bits;
    var stack, u := p.spanStack, data + more;
    var h, r := FindSpan(stack, SpanPre in p.mask, data, 0, -1), ScanSpan(p, data, atEOF);
    SinglePlace(p, data);
    BufferRule(p, data, more, atEOF);
    assert u[0] == data[0];
    if h.Opener? { OpeningStyle(stack, h.directive); }
    EventFits(r.level, stack, u, r.advance, EventOf(h));
  }

  // ----- Fences, blocks and markers -----

  lemma FencedIs(u: seq<byte>)
    ensures HasFence(u) <==> Fenced(u)
  {
    FenceBytes(u);
  }

  lemma {:induction false} LineUpTo(u: seq<byte>, i: nat)
    requires i <= |u| && (forall j | 0 <= j < i :: u[j] != NEWLINE) && (i == |u| || u[i] == NEWLINE)
    ensures Line(u) == if i == |u| then |u| else i + 1
    decreases |u|
  {
    if i > 0 {
      assert forall j | 0 <= j < i - 1 :: u[1..][j] == u[j + 1];
      LineUpTo(u[1..], i - 1);
    }
  }

  lemma {:induction false} LineIs(u: seq<byte>, i: nat)
    requires i <= |u| && forall j | 0 <= j < i :: u[j] != NEWLINE
    ensures var n := NewlineFrom(u, i); Line(u) == if n == -1 then |u| else n + 1
    decreases |u| - i
  {
    if i == |u| || u[i] == NEWLINE {
      LineUpTo(u, i);
    } else {
      LineIs(u, i + 1);
    }
  }

  // A fence line opens a block.
  lemma FenceFits(p: Level, data: seq<byte>, more: seq<byte>, n: nat)
    requires Single(p, data) && p.spanStack == [] && data != [] && 1 <= n <= |data|
    requires Fenced(data + more) && n == Line(data + more) && data[0] != GREATER
    ensures var q := p.(mask := p.mask + {BlockPre, BlockPreStart}, clearMask := p.clearMask + {BlockPreStart});
            Linked(q) && Fits(PlaceOf(p), data + more, Split(q, n))
  {
    var q := p.(mask := p.mask + {BlockPre, BlockPreStart}, clearMask := p.clearMask + {BlockPreStart});
    SinglePlace(p, data);
    assert Bits([]) == {};
    assert q.mask == {BlockPre, BlockPreStart} && BlockPre in q.mask - q.clearMask;
    assert (data + more)[0] == data[0];
  }

  lemma FenceStart(u: seq<byte>)
    ensures HasFence(u) ==> NewlineFrom(u, 0) != 0
  {
    FenceBytes(u);
  }

  lemma NoFenceAtEnd(data: seq<byte>, more: seq<byte>, atEOF: bool)
    requires HasFence(data + more) && !HasFence(data) && (atEOF ==> more == [])
    ensures !atEOF
  {
    assert atEOF ==> data + more == data;
  }

  lemma PlainFits(p: Level, data: seq<byte>, more: seq<byte>, atEOF: bool)
    requires Single(p, data) && p.spanStack == [] && data != [] && (atEOF ==> more == []) && data[0] != GREATER
    requires ScanPlain(p, data, atEOF).advance > 0
    ensures var r := ScanPlain(p, data, atEOF); Linked(r.level) && Fits(PlaceOf(p), data + more, r)
  {
    hide Fits, Single, ScanSpan;
    var u := data + more;
    FencedIs(data);
    FencedIs(u);
    FenceLonger(data, more);
    NewlineLonger(data, more, 0);
    LineIs(u, 0);
    if HasFence(data) && NewlineFrom(data, 0) > 0 {
      FenceFits(p, data, more, NewlineFrom(data, 0) + 1);
    } else if HasFence(data) && atEOF {
      assert u == data;
      FenceStart(data);
      FenceFits(p, data, more, |data|);
    } else {
      FenceStart(data);
      if HasFence(u) && !HasFence(data) { BegunFence(p, data, more); NoFenceAtEnd(data, more, atEOF); }
      SpanFits(p, data, more, atEOF);
    }
  }

  // A level inside a preformatted block after a token.
  lemma BlockFits(q: Level, u: seq<byte>, n: nat, ends: bool)
    requires 1 <= n <= |u| && BlockRule(u, n, ends) && q.spanStack == [] && !q.quoteStarted && q.quoteSplit.None?
             && q.hasRun
    requires q.mask == {BlockPre} + (if ends then {BlockPreEnd} else {}) && !q.lastNewline
    requires q.clearMask == if ends then {BlockPre, BlockPreEnd} else {}
    ensures Linked(q) && Fits(Place([], 0, Some(0)), u, Split(q, n))
  {
    hide BlockRule;
    var noted := NoteNewline(Split(q, n), u).level;
    assert ends <==> BlockPre !in noted.mask - noted.clearMask;
    assert Quoted(Place([], 0, Some(0))) == {};
    assert u[..n] != [];
  }

  lemma LineHasNewline(data: seq<byte>, u: seq<byte>, n: nat)
    requires 1 <= n <= |data| <= |u| && data == u[..|data|] && u[n - 1] == NEWLINE && HasFence(u)
    ensures |data| >= 4 && HasFence(data) && data[3] == u[3]
  {
    FenceBytes(u);
    FenceBytes(data);
    assert forall i | 0 <= i < |data| :: data[i] == u[i];
  }

  // What is read there is what the rule says.
  lemma PreRuled(p: Level, data: seq<byte>, more: seq<byte>, atEOF: bool)
    requires data != [] && (atEOF ==> more == []) && ScanPre(p, data, atEOF).advance > 0
    ensures BlockRule(data + more, ScanPre(p, data, atEOF).advance,
                      HasFence(data) && (atEOF || (|data| > 3 && data[3] == NEWLINE)))
  {
    var u, n := data + more, ScanPre(p, data, atEOF).advance;
    FencedIs(data);
    FencedIs(u);
    FenceLonger(data, more);
    NewlineLonger(data, more, 0);
    LineIs(u, 0);
    assert atEOF ==> u == data;
    if !(HasFence(data) && (atEOF || (|data| > 3 && data[3] == NEWLINE))) && !atEOF {
      assert data[n - 1] == u[n - 1];
      if HasFence(u) { LineHasNewline(data, u, n); }
    }
  }

  // A level inside a preformatted block.
  lemma PreFits(p: Level, data: seq<byte>, more: seq<byte>, atEOF: bool)
    requires Prepared(p, data) && Blocks(p) && p.mask == ExactMask(p) && BlockPre in p.mask && p.hasRun
    requires data != [] && (atEOF ==> more == []) && ScanPre(p, data, atEOF).advance > 0
    ensures Linked(p)
    ensures var r := ScanPre(p, data, atEOF); Linked(r.level) && Fits(PlaceOf(p), data + more, r)
  {
    hide BlockRule, Fits;
    var r := ScanPre(p, data, atEOF);
    PreRuled(p, data, more, atEOF);
    assert p.quoteSplit.None? && p.spanStack == [] && !p.quoteStarted;
    assert Bits([]) == {};
    assert p.mask == {BlockPre} && BlockPre in p.mask - p.clearMask;
    assert PlaceOf(p) == Place([], 0, Some(0));
    BlockFits(r.level, data + more, r.advance, HasFence(data) && (atEOF || (|data| > 3 && data[3] == NEWLINE)));
  }

  lemma {:induction false} SpacesAreWhite(data: seq<byte>, l: nat)
    requires l <= |data|
    ensures var n := SpacesFrom(data, l);
            White(data[l..n]) && (n == |data| || !IsSpace(Decode(data[n..]).rune))
    decreases |data| - l
  {
    hide Decode, IsSpace;
    if l < |data| {
      var d := Decode(data[l..]);
      if IsSpace(d.rune) {
        SpacesAreWhite(data, l + d.size);
        var n := SpacesFrom(data, l);
        var w := data[l..n];
        assert w == data[l..][..n - l];
        DecodeShorter(data[l..], n - l);
        assert w[d.size..] == data[l + d.size..n];
      }
    }
  }

  lemma PreparedLinked(p: Level, u: seq<byte>)
    requires Prepared(p, u)
    ensures Linked(p)
  {
    SoundIsLinked(p, u);
  }

  lemma MarkerRead(data: seq<byte>, more: seq<byte>)
    requires data != [] && data[0] == GREATER
    ensures MarkerRule(data + more, QuoteMarker(data))
  {
    var u, n := data + more, QuoteMarker(data);
    SpacesAreWhite(data, 1);
    assert u[1..n] == data[1..n] && u[n..|data|] == data[n..] && u[0] == data[0];
  }

  lemma MarkerRuled(p: Place, u: seq<byte>, n: nat)
    requires 1 <= n <= |u| && u[0] == GREATER && p.stack == [] && !InBlock(p) && MarkerRule(u, n)
    ensures TokenRule(p, u, n, {BlockQuote, BlockQuoteStart})
  {
  }

  lemma MarkerPlace(p: Level, data: seq<byte>)
    requires Prepared(p, data) && Blocks(p) && Linked(p) && p.mask == {}
    requires p.spanStack == [] && !p.quoteStarted
    ensures var q := StartQuote(p);
            && PlaceOf(p) == Place([], 0, PreDepth(p)) && !InBlock(PlaceOf(p))
            && PlaceOf(q) == Place([], 1, PreDepth(p)) && Quote(q) == 1
            && StyleOf(q) == q.mask
  {
    var q := StartQuote(p);
    AsleepIsStill(q.quoteSplit.value);
    assert BlockPre !in q.mask - q.clearMask && BlockPre !in p.mask - p.clearMask;
    assert FRESH.mask - FRESH.clearMask == {};
    assert PreDepth(FRESH) == None;
    assert p.quoteSplit.None? ==> PreDepth(p) == None && PreDepth(q) == None;
    assert q.mask + {} == q.mask;
  }

  lemma MarkerBlocks(p: Level, data: seq<byte>)
    requires Prepared(p, data) && Blocks(p) && Linked(p) && p.mask == {} && p.spanStack == [] && !p.quoteStarted
    ensures Blocks(StartQuote(p)) && Blocks(StartQuote(p).(lastNewline := true))
  {
    var inner := StartQuote(p).quoteSplit.value;
    AsleepIsTired(inner);
  }

  lemma MarkerFits(p: Level, data: seq<byte>, more: seq<byte>)
    requires Prepared(p, data) && Blocks(p) && p.mask == ExactMask(p)
    requires p.spanStack == [] && !p.quoteStarted && BlockPre !in p.mask && data != [] && data[0] == GREATER
    ensures Linked(p)
    ensures Linked(StartQuote(p)) && Fits(PlaceOf(p), data + more, Split(StartQuote(p), QuoteMarker(data)))
  {
    hide TokenRule, MarkerRule, QuoteMarker, Sound, Decode;
    var u, n := data + more, QuoteMarker(data);
    PreparedLinked(p, data);
    assert p.mask == {} by { assert Bits([]) == {}; }
    MarkerPlace(p, data);
    var q := StartQuote(p);
    assert q.mask == {BlockQuote, BlockQuoteStart};
    MarkerBlocks(p, data);
    MarkerRead(data, more);
    assert u[0] == data[0];
    MarkerRuled(PlaceOf(p), u, n);
  }

  // ----- Any quotation depth -----

  // The same place seen from one quotation further out.
  function Deeper(p: Place): Place {
    Place(p.stack, p.marks + 1, match p.pre case Some(d) => Some(d + 1) case None => None)
  }

  lemma DeeperRule(p: Place, u: seq<byte>, n: nat, style: Style)
    requires 1 <= n <= |u| && TokenRule(p, u, n, style)
    ensures TokenRule(Deeper(p), u, n, {BlockQuote} + style)
  {
    hide SpanRule, SpanStyle, MarkerRule, BlockRule;
    var d := Deeper(p);
    assert InBlock(d) <==> InBlock(p);
    assert Quoted(d) == {BlockQuote};
    if !InBlock(p) && !(p.stack == [] && (u[0] == GREATER || Fenced(u))) {
      var event :| SpanRule(p.stack, u, n, event) && style == Quoted(p) + SpanStyle(p.stack, event, u[0]);
      assert {BlockQuote} + style == Quoted(d) + SpanStyle(p.stack, event, u[0]);
    } else if !InBlock(p) && u[0] == GREATER && p.stack == [] {
      assert {BlockQuote} + style == style;
    } else {
      assert {BlockQuote} + style == Quoted(d) + (style - {BlockQuote});
      assert BlockPreEnd in {BlockQuote} + style <==> BlockPreEnd in style;
    }
  }

  lemma DeeperAfter(p: Place, token: seq<byte>, style: Style)
    requires token != []
    ensures var q, q2 := After(p, token, style), After(Deeper(p), token, {BlockQuote} + style);
            && q2.stack == q.stack && q2.pre == Deeper(q).pre
            && q2.marks == if token[|token| - 1] == NEWLINE then 0 else q.marks + 1
    ensures DepthOf(Deeper(p), {BlockQuote} + style) == 1 + DepthOf(p, style)
  {
    var s2 := {BlockQuote} + style;
    assert s2 * SPAN_STARTS == style * SPAN_STARTS && s2 * SPAN_ENDS == style * SPAN_ENDS;
  }

  lemma DeeperPlace(p: Level, data: seq<byte>)
    requires Prepared(p, data) && Blocks(p) && p.quoteStarted && Linked(p) && p.mask == ExactMask(p)
    ensures PlaceOf(p) == Deeper(PlaceOf(p.quoteSplit.value)) && p.mask == {BlockQuote} && p.hasRun
  {
    var inner := p.quoteSplit.value;
    if inner.lastNewline { AsleepIsStill(inner); }
    assert BlockPre !in p.mask;
    assert Bits([]) == {};
  }

  lemma DeeperBlocks(q: Level)
    requires q.quoteStarted && q.quoteSplit.Some? && q.mask == {BlockQuote} && q.clearMask == {} && !q.lastNewline
    requires Blocks(q.quoteSplit.value)
    ensures q.quoteSplit.value.lastNewline ==> Blocks(q.(lastNewline := true))
    ensures !q.quoteSplit.value.lastNewline ==> Blocks(q)
  {
  }

  lemma DelegateFits(p: Level, data: seq<byte>, u: seq<byte>, inner: Split)
    requires Prepared(p, data) && Blocks(p) && p.quoteStarted && Linked(p) && p.mask == ExactMask(p)
    requires Linked(inner.level) && 1 <= inner.advance <= |u|
    requires Fits(PlaceOf(p.quoteSplit.value), u, inner) && NoteNewline(inner, u) == inner
    ensures var r := Split(p.(quoteSplit := Some(inner.level)), inner.advance);
            Linked(r.level) && Fits(PlaceOf(p), u, r)
  {
    hide TokenRule, After, Sound, DepthOf;
    var q := p.(quoteSplit := Some(inner.level));
    var style := StyleOf(inner.level);
    DeeperPlace(p, data);
    DeeperRule(PlaceOf(p.quoteSplit.value), u, inner.advance, style);
    DeeperAfter(PlaceOf(p.quoteSplit.value), u[..inner.advance], style);
    assert StyleOf(q) == {BlockQuote} + style;
    DeeperBlocks(q);
    var noted := NoteNewline(Split(q, inner.advance), u).level;
    assert noted.lastNewline <==> u[inner.advance - 1] == NEWLINE;
    assert u[..inner.advance][inner.advance - 1] == u[inner.advance - 1];
    assert BlockPre !in q.mask - q.clearMask;
    assert PreDepth(noted) == Deeper(PlaceOf(inner.level)).pre;
  }

  // A block further in is of no account for a token that is read further out.
  lemma PreForgotten(stack: seq<byte>, pre: Option<nat>, u: seq<byte>, n: nat, style: Style)
    requires 1 <= n <= |u| && pre != Some(0) && (stack != [] || u[0] != GREATER)
    requires TokenRule(Place(stack, 0, None), u, n, style)
    requires BlockQuoteStart !in style && (BlockPre in style ==> BlockPreStart in style)
    ensures TokenRule(Place(stack, 0, pre), u, n, style)
    ensures After(Place(stack, 0, pre), u[..n], style) == After(Place(stack, 0, None), u[..n], style)
    ensures DepthOf(Place(stack, 0, pre), style) == DepthOf(Place(stack, 0, None), style)
  {
    hide SpanRule, BlockRule, MarkerRule;
    if !(stack == [] && Fenced(u)) {
      var event :| SpanRule(stack, u, n, event)
        && style == Quoted(Place(stack, 0, None)) + SpanStyle(stack, event, u[0]);
      assert style == Quoted(Place(stack, 0, pre)) + SpanStyle(stack, event, u[0]);
    }
  }

  lemma RuleStyles(stack: seq<byte>, u: seq<byte>, n: nat, style: Style)
    requires 1 <= n <= |u| && (stack != [] || u[0] != GREATER) && TokenRule(Place(stack, 0, None), u, n, style)
    ensures BlockQuoteStart !in style && (BlockPre in style ==> BlockPreStart in style)
  {
    hide SpanRule;
    var p := Place(stack, 0, None);
    if !(stack == [] && Fenced(u)) {
      var event :| SpanRule(stack, u, n, event) && style == Quoted(p) + SpanStyle(stack, event, u[0]);
      BitsAreSpans(stack);
      BitsAreSpans(stack + [u[0]]);
    }
  }

  lemma SingleFrom(p: Level, data: seq<byte>)
    requires Prepared(p, data) && Blocks(p) && p.mask == ExactMask(p)
    requires p.spanStack == [] && !p.quoteStarted && BlockPre !in p.mask
    ensures Single(p.(quoteSplit := None, hasRun := true), data)
  {
  }

  lemma OuterPlace(p: Level, data: seq<byte>)
    requires Prepared(p, data) && Linked(p) && p.spanStack == [] && !p.quoteStarted && BlockPre !in p.mask
    ensures PlaceOf(p) == Place([], 0, PreDepth(p)) && PreDepth(p) != Some(0)
  {
  }

  // A level that has not entered a quotation and is not in a block.
  lemma OuterFits(p: Level, data: seq<byte>, more: seq<byte>, atEOF: bool)
    requires Prepared(p, data) && Blocks(p) && p.mask == ExactMask(p) && Linked(p)
    requires p.spanStack == [] && !p.quoteStarted && BlockPre !in p.mask
    requires data != [] && (atEOF ==> more == []) && data[0] != GREATER
    requires ScanPlain(p.(quoteSplit := None, hasRun := true), data, atEOF).advance > 0
    ensures var r := ScanPlain(p.(quoteSplit := None, hasRun := true), data, atEOF);
            Linked(r.level) && Fits(PlaceOf(p), data + more, r)
  {
    hide TokenRule, After, Sound, DepthOf, ScanPlain;
    var q := p.(quoteSplit := None, hasRun := true);
    SingleFrom(p, data);
    PlainFits(q, data, more, atEOF);
    var r := ScanPlain(q, data, atEOF);
    SinglePlace(q, data);
    OuterPlace(p, data);
    assert (data + more)[0] == data[0];
    RuleStyles([], data + more, r.advance, StyleOf(r.level));
    PreForgotten([], PreDepth(p), data + more, r.advance, StyleOf(r.level));
  }

  lemma MarkerStarts(data: seq<byte>)
    requires data != []
    ensures QuoteMarker(data) > 0 <==> data[0] == GREATER
  {
  }

  lemma StackIsSingle(p: Level, data: seq<byte>)
    requires Prepared(p, data) && Blocks(p) && p.mask == ExactMask(p) && p.spanStack != []
    ensures Single(p, data)
  {
  }

  lemma RunPlace(p: Level, data: seq<byte>)
    requires Prepared(p, data) && Blocks(p) && Linked(p) && p.mask == ExactMask(p)
    ensures var q := p.(hasRun := true);
            && Prepared(q, data) && Blocks(q) && Linked(q) && q.mask == ExactMask(q) && PlaceOf(q) == PlaceOf(p)
  {
  }

  lemma InnerSound(p: Level, data: seq<byte>)
    requires Prepared(p, data) && Blocks(p) && p.quoteStarted
    ensures p.quoteSplit.Some? && Sound(p.quoteSplit.value, data) && Blocks(p.quoteSplit.value)
  {
  }

  lemma ScanNoted(l: Level, data: seq<byte>, more: seq<byte>, atEOF: bool)
    requires Linked(l) && data != []
    ensures var r := Scan(l, data, atEOF); NoteNewline(r, data + more) == r
  {
    hide Dispatch;
    var r := Dispatch(Prepare(l), data, atEOF);
    assert r.advance > 0 ==> (data + more)[r.advance - 1] == data[r.advance - 1];
  }

  lemma FitsNoted(p: Place, data: seq<byte>, more: seq<byte>, r: Split)
    requires Linked(r.level) && 1 <= r.advance <= |data| && Fits(p, data + more, r)
    ensures var z := NoteNewline(r, data); Linked(z.level) && Fits(p, data + more, z)
  {
    hide TokenRule, After;
    assert (data + more)[r.advance - 1] == data[r.advance - 1];
    var z := NoteNewline(r, data);
    assert StyleOf(z.level) == StyleOf(r.level) && Quote(z.level) == Quote(r.level);
    assert NoteNewline(z, data + more) == NoteNewline(r, data + more);
  }

  // Every token that a call finds, at any quotation depth and with more of the
  // text to come or not, follows the rule, and the decoder is where that leads.
  lemma {:induction false} ScanFits(l: Level, data: seq<byte>, more: seq<byte>, atEOF: bool)
    requires Sound(l, data) && Blocks(l) && data != [] && (atEOF ==> more == [])
    ensures Linked(l)
    ensures var r := Scan(l, data, atEOF);
            r.advance > 0 ==> Linked(r.level) && Fits(PlaceOf(l), data + more, r)
    decreases Depth(l), 1
  {
    hide Fits, Sound, Dispatch;
    SoundIsLinked(l, data);
    PrepareBlocks(l, data);
    var p := Prepare(l);
    var r := Dispatch(p, data, atEOF);
    if r.advance > 0 {
      DispatchFits(p, data, more, atEOF);
      FitsNoted(PlaceOf(l), data, more, r);
    }
  }

  lemma {:induction false} DispatchFits(p: Level, data: seq<byte>, more: seq<byte>, atEOF: bool)
    requires Prepared(p, data) && Blocks(p) && p.mask == ExactMask(p) && Linked(p)
    requires data != [] && (atEOF ==> more == []) && Dispatch(p, data, atEOF).advance > 0
    ensures var r := Dispatch(p, data, atEOF); Linked(r.level) && Fits(PlaceOf(p), data + more, r)
    decreases Depth(p), 0
  {
    hide Fits, Sound, ScanPre, ScanPlain, ScanSpan, QuoteMarker;
    if p.spanStack != [] {
      StackIsSingle(p, data);
      SpanFits(p, data, more, atEOF);
    } else if BlockPre in p.mask {
      RunPlace(p, data);
      PreFits(p.(hasRun := true), data, more, atEOF);
    } else {
      MarkerStarts(data);
      if data[0] == GREATER && !p.quoteStarted {
        MarkerFits(p, data, more);
      } else if p.quoteStarted {
        InnerSound(p, data);
        ScanFits(p.quoteSplit.value, data, more, atEOF);
        var inner := Scan(p.quoteSplit.value, data, atEOF);
        ScanNoted(p.quoteSplit.value, data, more, atEOF);
        DelegateFits(p, data, data + more, inner);
      } else {
        OuterFits(p, data, more, atEOF);
      }
    }
  }

  // ----- Whole runs -----

  lemma NotedIs(l: Level, t: seq<byte>, u: seq<byte>, p: Place)
    requires Linked(l) && t != [] && t <= u && Fits(p, u, Split(l, |t|))
    requires NoteNewline(Split(l, |t|), u) == Split(l, |t|)
    ensures Blocks(l) && PlaceOf(l) == After(p, t, StyleOf(l)) && Quote(l) == DepthOf(p, StyleOf(l))
    ensures TokenRule(p, u, |t|, StyleOf(l))
  {
    hide TokenRule, After;
    assert u[..|t|] == t;
  }

  // The scanner's token follows the rule for the whole rest of the text.
  lemma {:induction false} ScanTokenFits(r: Reader, l: Level, d: seq<byte>)
    requires Feasible(r) && Sound(l, r.buf) && Linked(l) && Blocks(l)
    requires d <= r.buf && (d != [] ==> Scan(l, d, false).advance == 0)
    ensures var s := ScanToken(r, Waiting(l, d));
            s.token.Some? ==>
              var t := s.token.value;
              && t != [] && t <= Unread(r)
              && Fits(PlaceOf(l), Unread(r), Split(s.level, |t|))
              && NoteNewline(Split(s.level, |t|), Unread(r)) == Split(s.level, |t|)
    decreases |r.chunks|, !r.eof
  {
    hide Scan, ScanToken, Waiting, Sound, Fits, Blocks;
    var q, u := Waiting(l, d), Unread(r);
    ScannerTurn(r, q);
    if r.buf == [] && !r.eof {
      FillConserves(r);
      if r.chunks != [] { SoundExtend(l, r.buf, r.chunks[0]); }
      ScanTokenFits(Fill(r), l, d);
    } else if r.buf == [] {
      Empty(q);
    } else {
      WaitingScans(l, d, r.buf, r.eof);
      var more := Flatten(r.chunks);
      var split := Scan(l, r.buf, r.eof);
      if split.advance > 0 {
        ScanFits(l, r.buf, more, r.eof);
        ScanNoted(l, r.buf, more, r.eof);
        BufferCut(r, split.advance);
        var t := r.buf[..split.advance];
        assert t == u[..split.advance];
      } else if !r.eof {
        FillConserves(r);
        if r.chunks != [] { SoundExtend(l, r.buf, r.chunks[0]); }
        WaitingIs(l, r.buf);
        ScanTokenFits(Fill(r), l, r.buf);
      }
    }
  }

  lemma {:induction false} FirstLine(u: seq<byte>, n: nat)
    requires n == Line(u)
    ensures forall i | 0 <= i < n - 1 :: u[i] != NEWLINE
    ensures n < |u| ==> n >= 1 && u[n - 1] == NEWLINE
    decreases |u|
  {
    if u != [] && u[0] != NEWLINE {
      FirstLine(u[1..], n - 1);
      assert forall i | 0 < i < n - 1 :: u[i] == u[1..][i - 1];
    }
  }

  lemma LineOfFence(u: seq<byte>)
    requires Fenced(u)
    ensures Line(u) >= 3
  {
    FirstLine(u, Line(u));
  }

  lemma StartIsFence(p: Place, u: seq<byte>, n: nat, style: Style)
    requires 1 <= n <= |u| && TokenRule(p, u, n, style) && BlockPreStart in style
    ensures Fenced(u) && n == Line(u) && n >= 3
  {
    hide SpanRule, BlockRule, MarkerRule;
    if !InBlock(p) && p.stack == [] && Fenced(u) && u[0] != GREATER {
      LineOfFence(u);
    } else if !InBlock(p) && !(p.stack == [] && u[0] == GREATER) {
      var event :| SpanRule(p.stack, u, n, event) && style == Quoted(p) + SpanStyle(p.stack, event, u[0]);
      BitsAreSpans(p.stack);
      BitsAreSpans(p.stack + [u[0]]);
    }
  }

  // The info of a token that opens a block is what its line says behind the fence.
  lemma InfoRuled(p: Place, u: seq<byte>, t: seq<byte>, style: Style)
    requires t != [] && t <= u && TokenRule(p, u, |t|, style)
    ensures InfoRule(Token(t, InfoOf(style, t)), style)
  {
    hide SpanRule, BlockRule, MarkerRule;
    if BlockPreStart in style {
      StartIsFence(p, u, |t|, style);
      assert t == u[..|t|];
      if |t| >= 3 {
        assert t[..3] == FENCE by { assert t[0] == u[0] && t[1] == u[1] && t[2] == u[2]; }
      }
      var info := InfoOf(style, t);
      if info.Some? {
        if t[|t| - 1] == NEWLINE {
          assert t == FENCE + info.value + [NEWLINE];
        } else {
          assert t == FENCE + info.value;
        }
      } else if t[|t| - 1] == NEWLINE {
        assert t == FENCE + [NEWLINE];
      } else {
        assert t == FENCE;
      }
    }
  }

  lemma RunStep(x: Lexer, y: Lexer)
    requires Ready(x) && !x.insertBlockClose
    requires var s := ScanToken(x.reader, x.level);
             && s.token.Some? && y == x.(reader := s.reader, level := s.level, bytes := s.token.value)
             && Quote(s.level) >= Quote(x.level)
    ensures var info := InfoOf(StyleOf(y.level), y.bytes);
            Ready(y) && Run(x) == [Seen(Token(y.bytes, info), StyleOf(y.level), Quote(y.level))] + Run(y)
  {
    hide ScanToken, InfoOf;
    NextConserves(x);
  }

  // A token behind an inserted one.
  lemma VirtualRun(x: Lexer, y: Lexer, t: seq<byte>)
    requires Ready(x) && !x.insertBlockClose
    requires var s := ScanToken(x.reader, x.level);
             && s.token == Some(t) && y == x.(reader := s.reader, level := s.level, bytes := t)
             && Quote(s.level) < Quote(x.level)
    ensures Ready(y)
    ensures var held := [Seen(Token(t, None), StyleOf(y.level), Quote(y.level))] + Run(y);
            && Run(y.(insertBlockClose := true)) == held
            && Run(x) == [Seen(VIRTUAL, {BlockQuoteEnd, BlockQuote}, Quote(y.level) + 1)] + held
  {
    hide ScanToken, InfoOf;
    NextConserves(x);
    var z := y.(insertBlockClose := true);
    NextConserves(z);
    assert z.(insertBlockClose := false) == y;
  }

  lemma RealExplained(p: Place, quote: nat, x: Seen, rest: seq<Seen>, u: seq<byte>)
    requires x.token.data != [] && x.token.data <= u && x.token.data + Joined(rest) == u
    requires TokenRule(p, u, |x.token.data|, x.style) && x.quote == DepthOf(p, x.style)
    requires quote <= x.quote && InfoRule(x.token, x.style)
    requires Explained(After(p, x.token.data, x.style), x.quote, rest)
    ensures Explained(p, quote, [x] + rest)
  {
    hide TokenRule, After, InfoRule, DepthOf;
    var out := [x] + rest;
    assert out[1..] == rest && Joined(out) == u;
  }

  lemma VirtualExplained(p: Place, quote: nat, v: Seen, x: Seen, rest: seq<Seen>, u: seq<byte>)
    requires v == Seen(VIRTUAL, {BlockQuoteEnd, BlockQuote}, x.quote + 1) && x.quote < quote && x.token.info == None
    requires x.token.data != [] && x.token.data <= u && x.token.data + Joined(rest) == u
    requires TokenRule(p, u, |x.token.data|, x.style) && x.quote == DepthOf(p, x.style)
    requires Explained(After(p, x.token.data, x.style), x.quote, rest)
    ensures Explained(p, quote, [v] + ([x] + rest))
  {
    hide TokenRule, After, DepthOf;
    var held := [x] + rest;
    var out := [v] + held;
    assert out[1..] == held && out[2..] == rest && held[1..] == rest && Joined(held) == u;
  }

  lemma RunEnds(x: Lexer)
    requires LexerSound(x) && !x.insertBlockClose && ScanToken(x.reader, x.level).token.None?
    ensures Explained(PlaceOf(x.level), Quote(x.level), Run(x))
  {
    hide ScanToken, Sound;
    NextConserves(x);
    NextShows(x);
  }

  lemma {:induction false} RunExplained(x: Lexer)
    requires LexerSound(x) && Blocks(x.level) && !x.insertBlockClose
    ensures Explained(PlaceOf(x.level), Quote(x.level), Run(x))
    decreases |Unread(x.reader)|
  {
    hide Scan, ScanToken, Sound, Fits, Blocks, TokenRule, After, InfoRule, InfoOf, Shows, DepthOf, Explained;
    ScanTokenConserves(x.reader, x.level);
    ScanTokenSound(x.reader, x.level);
    var s := ScanToken(x.reader, x.level);
    if s.token.None? {
      RunEnds(x);
    } else {
      ScanTokenFits(x.reader, x.level, []);
      NextShows(x);
      var t, u := s.token.value, Unread(x.reader);
      var p, style := PlaceOf(x.level), StyleOf(s.level);
      NotedIs(s.level, t, u, p);
      InfoRuled(p, u, t, style);
      var y := x.(reader := s.reader, level := s.level, bytes := t);
      RunConserves(y);
      assert [] + Unread(s.reader) == Unread(s.reader);
      RunExplained(y);
      if Quote(s.level) < Quote(x.level) {
        VirtualRun(x, y, t);
        VirtualExplained(p, Quote(x.level), Seen(VIRTUAL, {BlockQuoteEnd, BlockQuote}, Quote(y.level) + 1),
                         Seen(Token(t, None), style, Quote(y.level)), Run(y), u);
      } else {
        RunStep(x, y);
        RealExplained(p, Quote(x.level), Seen(Token(t, InfoOf(style, t)), style, Quote(y.level)), Run(y), u);
      }
    }
  }

  // For every input and every way of cutting it into reads, the decoder hands out
  // what the rules say.
  lemma RunsAreExplained(chunks: seq<seq<byte>>, lastWithEOF: bool)
    requires forall i | 0 <= i < |chunks| :: chunks[i] != []
    ensures Explained(OUTSET, 0, Run(Start(chunks, lastWithEOF)))
  {
    FreshSound([]);
    assert FRESH.mask - FRESH.clearMask == {};
    RunExplained(Start(chunks, lastWithEOF));
  }
}
