// Spans open and close on one line, properly nested, with nothing inside a
// preformatted span (section 6.2 of XEP-0393); and the style mask always agrees
// with the stack of open spans.
module StylingSpans {
  import opened Wrappers
  import opened Utf8
  import opened StylingModel
  import opened StylingConservation

  // ----- Where the open spans are going to end -----

  // Index of the first newline or stacked directive in u.
  function Stop(stack: seq<byte>, u: seq<byte>): (k: nat)
    ensures k <= |u|
    ensures forall j | 0 <= j < k :: u[j] != NEWLINE && u[j] !in stack
    ensures k < |u| ==> u[k] == NEWLINE || u[k] in stack
  {
    if u == [] || u[0] == NEWLINE || u[0] in stack then 0 else 1 + Stop(stack, u[1..])
  }

  // The directives that close the stacked spans follow in u in stack order,
  // each before any other stacked directive and before any newline.
  predicate Closers(stack: seq<byte>, u: seq<byte>)
    decreases |stack|
  {
    stack == [] ||
    var k := Stop(stack, u);
    k < |u| && u[k] == Top(stack) && Closers(stack[..|stack| - 1], u[k + 1..])
  }

  lemma StopUnique(stack: seq<byte>, u: seq<byte>, k: nat)
    requires k < |u| && (u[k] == NEWLINE || u[k] in stack)
    requires forall j | 0 <= j < k :: u[j] != NEWLINE && u[j] !in stack
    ensures Stop(stack, u) == k
  {
    var s := Stop(stack, u);
    if s < k { assert false; }
  }

  lemma {:induction false} ClosersExtend(stack: seq<byte>, u: seq<byte>, more: seq<byte>)
    requires Closers(stack, u)
    ensures Closers(stack, u + more)
    decreases |stack|
  {
    if stack != [] {
      var k := Stop(stack, u);
      StopUnique(stack, u + more, k);
      ClosersExtend(stack[..|stack| - 1], u[k + 1..], more);
      assert (u + more)[k + 1..] == u[k + 1..] + more;
    }
  }

  // Text before the next stop may be consumed.
  lemma ClosersDrop(stack: seq<byte>, u: seq<byte>, n: nat)
    requires Closers(stack, u) && n <= Stop(stack, u)
    ensures Closers(stack, u[n..])
  {
    hide Stop;
    if stack != [] {
      var k := Stop(stack, u);
      var v := u[n..];
      assert v[k - n] == u[k];
      forall j | 0 <= j < k - n ensures v[j] != NEWLINE && v[j] !in stack { assert v[j] == u[n + j]; }
      StopUnique(stack, v, k - n);
      assert v[k - n + 1..] == u[k + 1..];
    }
  }

  // A new span whose closing directive comes before the next stop fits on top.
  lemma ClosersPush(stack: seq<byte>, u: seq<byte>, b: byte, j: nat)
    requires Closers(stack, u) && b != NEWLINE
    requires 1 <= j < Stop(stack, u) && u[j] == b
    ensures Closers(stack + [b], u[1..])
    ensures b !in stack
  {
    var s := stack + [b];
    var k := Stop(s, u[1..]);
    assert u[1..][j - 1] == b;
    assert b in s;
    assert k <= j - 1;
    assert u[1..][k] == u[k + 1];
    assert s[..|s| - 1] == stack;
    assert u[1..][k + 1..] == u[k + 2..];
    ClosersDrop(stack, u, k + 2);
  }

  // ----- What the span scanner answers when the closers lie ahead -----

  predicate AllDirectives(stack: seq<byte>) { forall i | 0 <= i < |stack| :: IsDirective(stack[i]) }

  lemma {:induction false} FindSpanHits(stack: seq<byte>, inPre: bool, data: seq<byte>, i: nat, start: int)
    returns (j: nat)
    requires Closers(stack, data) && AllDirectives(stack)
    requires -1 <= start < i <= |data| || (start == -1 && i == 0)
    requires i <= Stop(stack, data)
    requires start >= 0 ==> !inPre && IsDirective(data[start])
    ensures var h := FindSpan(stack, inPre, data, i, start);
            match h
            case Text(n) => n <= Stop(stack, data) || (stack == [] && n == Stop(stack, data) + 1)
            case Closer(b) => Stop(stack, data) == 0
            case Opener(b) => !inPre && 1 <= j < Stop(stack, data) && data[j] == b
            case Miss => stack == []
    decreases |data| - i
  {
    j := 0;
    if i < |data| {
      var b := data[i];
      if b == NEWLINE {
      } else if !IsDirective(b) {
        j := FindSpanHits(stack, inPre, data, i + 1, start);
      } else if stack != [] && b == Top(stack) {
      } else if start == -1 && !inPre {
        j := FindSpanHits(stack, inPre, data, i + 1, if MayOpen(data, i) then i else -1);
      } else if start >= 0 && b == data[start] && !PrevSpace(data, i) && i > start + 1 {
        j := i;
      } else {
        j := FindSpanHits(stack, inPre, data, i + 1, start);
      }
    }
  }

  // ----- The state invariant -----

  predicate Distinct(stack: seq<byte>) { forall i, j | 0 <= i < j < |stack| :: stack[i] != stack[j] }

  // Nothing opens inside a preformatted span.
  predicate PreOnTop(stack: seq<byte>) { forall i | 0 <= i < |stack| - 1 :: stack[i] != BACKTICK }

  predicate GoodStack(stack: seq<byte>) { AllDirectives(stack) && Distinct(stack) && PreOnTop(stack) }

  const SPANS: Style := {SpanStrong, SpanEmph, SpanStrike, SpanPre}
  const MARKS: Style := {SpanStrongStart, SpanStrongEnd, SpanEmphStart, SpanEmphEnd,
                         SpanStrikeStart, SpanStrikeEnd, SpanPreStart, SpanPreEnd,
                         BlockPreStart, BlockPreEnd, BlockQuoteStart, BlockQuoteEnd}

  // The span bits of a stack of open spans.
  function Bits(stack: seq<byte>): Style { set i | 0 <= i < |stack| :: SpanFlag(stack[i]) }

  // The style a start or end bit belongs to.
  function Owner(f: Flag): Flag {
    match f
    case SpanStrongStart | SpanStrongEnd => SpanStrong
    case SpanEmphStart | SpanEmphEnd => SpanEmph
    case SpanStrikeStart | SpanStrikeEnd => SpanStrike
    case SpanPreStart | SpanPreEnd => SpanPre
    case BlockPreStart | BlockPreEnd => BlockPre
    case BlockQuoteStart | BlockQuoteEnd => BlockQuote
    case _ => f
  }

  // Every start or end bit comes with the bit of its style.
  predicate MarksOwned(style: Style) { forall f | f in style :: Owner(f) in style }

  // Mask, pending clears and stack of one level agree.
  predicate GoodMask(l: Level) {
    && (l.mask - l.clearMask) * SPANS == Bits(l.spanStack)
    && l.mask * MARKS <= l.clearMask
    && MarksOwned(l.mask)
  }

  // A level that has not been entered on this line.
  predicate Asleep(l: Level) {
    && !l.quoteStarted && !l.hasRun && l.spanStack == []
    && (l.quoteSplit.Some? ==> Asleep(l.quoteSplit.value))
  }

  // No level has an open span.
  predicate Quiet(l: Level) { l.spanStack == [] && (l.quoteSplit.Some? ==> Quiet(l.quoteSplit.value)) }

  // At most the innermost entered level has open spans, and those end within u.
  predicate Sound(l: Level, u: seq<byte>) {
    && GoodStack(l.spanStack) && GoodMask(l) && Closers(l.spanStack, u)
    && (l.quoteStarted ==> l.quoteSplit.Some? && l.hasRun && l.spanStack == [])
    && (l.spanStack != [] ==> l.quoteSplit.None? && l.hasRun)
    && (l.lastNewline ==> Quiet(l))
    && (BlockPre in l.mask ==> l.quoteSplit.None? && l.spanStack == [])
    && (l.quoteSplit.Some? ==> Sound(l.quoteSplit.value, u))
    && (l.quoteSplit.Some? && !l.quoteStarted ==> Asleep(l.quoteSplit.value))
  }

  lemma {:induction false} SoundIsLinked(l: Level, u: seq<byte>)
    requires Sound(l, u)
    ensures Linked(l)
  {
    if l.quoteSplit.Some? { SoundIsLinked(l.quoteSplit.value, u); }
  }

  lemma {:induction false} AsleepSound(l: Level, u: seq<byte>, v: seq<byte>)
    requires Sound(l, u) && Quiet(l)
    ensures Sound(l, v)
  {
    if l.quoteSplit.Some? { AsleepSound(l.quoteSplit.value, u, v); }
  }

  lemma {:induction false} AsleepIsQuiet(l: Level)
    requires Asleep(l)
    ensures Quiet(l)
  {
    if l.quoteSplit.Some? { AsleepIsQuiet(l.quoteSplit.value); }
  }

  lemma {:induction false} SoundExtend(l: Level, u: seq<byte>, more: seq<byte>)
    requires Sound(l, u)
    ensures Sound(l, u + more)
  {
    ClosersExtend(l.spanStack, u, more);
    if l.quoteSplit.Some? { SoundExtend(l.quoteSplit.value, u, more); }
  }

  lemma {:induction false} ForgetSound(l: Level, u: seq<byte>)
    requires Sound(l, u) && Quiet(l)
    ensures Sound(Forget(l), u) && Asleep(Forget(l)) && Quiet(Forget(l))
  {
    if l.quoteSplit.Some? { ForgetSound(l.quoteSplit.value, u); }
  }

  lemma PrepareSound(l: Level, u: seq<byte>)
    requires Sound(l, u)
    ensures var p := Prepare(l);
            Sound(p, u) && !p.lastNewline && p.clearMask == {} && p.mask * MARKS == {}
  {
    var m := if l.lastNewline then Forget(l).(mask := l.mask - {BlockQuote}, lastNewline := false) else l;
    if l.lastNewline { ForgetSound(l, u); }
    var p := Prepare(l);
    assert p.mask * SPANS == Bits(l.spanStack);
    assert forall f | f in p.mask :: f !in MARKS && Owner(f) == f;
  }

  // ----- What one token tells about the open spans -----

  const SPAN_STARTS: Style := {SpanStrongStart, SpanEmphStart, SpanStrikeStart, SpanPreStart}
  const SPAN_ENDS: Style := {SpanStrongEnd, SpanEmphEnd, SpanStrikeEnd, SpanPreEnd}
  const SPAN_MARKS: Style := SPAN_STARTS + SPAN_ENDS

  // The open spans at the current position: those of the innermost entered level.
  function ActiveStack(l: Level): seq<byte>
    requires Linked(l)
  {
    if l.quoteStarted then ActiveStack(l.quoteSplit.value) else l.spanStack
  }

  // A token that opens a span is its directive alone; the span is not open yet
  // and nothing preformatted is.
  predicate ShowsOpening(before: seq<byte>, style: Style, token: seq<byte>) {
    && |token| == 1 && IsDirective(token[0]) && token[0] !in before && BACKTICK !in before
    && style * SPAN_MARKS == {StartFlag(token[0])}
    && style * SPANS == Bits(before + token)
  }

  // A token that closes a span is the directive of the innermost open span.
  predicate ShowsClosing(before: seq<byte>, style: Style, token: seq<byte>) {
    && before != [] && token == [Top(before)]
    && style * SPAN_MARKS == {EndFlag(token[0])}
    && style * SPANS == Bits(before)
  }

  // Any other token leaves the spans alone and ends no line while one is open.
  predicate ShowsText(before: seq<byte>, style: Style, token: seq<byte>) {
    && style * SPAN_MARKS == {}
    && style * SPANS == Bits(before)
    && (NEWLINE in token ==> before == [])
  }

  predicate Shows(before: seq<byte>, after: seq<byte>, style: Style, token: seq<byte>) {
    && MarksOwned(style)
    && ((ShowsOpening(before, style, token) && after == before + token)
        || (ShowsClosing(before, style, token) && after == before[..|before| - 1])
        || (ShowsText(before, style, token) && after == before))
  }

  lemma BitsPush(stack: seq<byte>, b: byte)
    ensures Bits(stack + [b]) == Bits(stack) + {SpanFlag(b)}
  {
    var s := stack + [b];
    forall f | f in Bits(stack) ensures f in Bits(s) {
      var i :| 0 <= i < |stack| && f == SpanFlag(stack[i]);
      assert s[i] == stack[i];
    }
    assert s[|stack|] == b;
  }

  lemma BitsPop(stack: seq<byte>)
    requires stack != [] && GoodStack(stack)
    ensures Bits(stack[..|stack| - 1]) == Bits(stack) - {SpanFlag(Top(stack))}
    ensures GoodStack(stack[..|stack| - 1])
  {
    var s := stack[..|stack| - 1];
    assert stack == s + [Top(stack)];
    BitsPush(s, Top(stack));
    forall i | 0 <= i < |s| ensures SpanFlag(s[i]) != SpanFlag(Top(stack)) {
      assert s[i] == stack[i] && stack[i] != stack[|stack| - 1];
    }
  }

  // The state at a call, once line-start bookkeeping and pending clears are done.
  predicate Prepared(p: Level, u: seq<byte>) {
    Sound(p, u) && !p.lastNewline && p.clearMask == {} && p.mask * MARKS == {}
  }

  // A level that scans spans itself.
  predicate SpanLevel(p: Level) { p.hasRun && !p.quoteStarted && p.quoteSplit.None? }

  lemma CloseSound(p: Level, data: seq<byte>, b: byte)
    requires Prepared(p, data) && SpanLevel(p)
    requires p.spanStack != [] && b == Top(p.spanStack) && data != [] && data[0] == b && Stop(p.spanStack, data) == 0
    ensures var q := p.(mask := p.mask + {EndFlag(b)}, clearMask := p.clearMask + {SpanFlag(b), EndFlag(b)},
                        spanStack := p.spanStack[..|p.spanStack| - 1]);
            Sound(q, data[1..]) && Shows(p.spanStack, q.spanStack, q.mask, data[..1])
  {
    hide Stop;
    var stack := p.spanStack;
    var q := p.(mask := p.mask + {EndFlag(b)}, clearMask := {SpanFlag(b), EndFlag(b)},
                spanStack := stack[..|stack| - 1]);
    BitsPop(stack);
    assert SpanFlag(b) in Bits(stack);
    assert p.mask - p.clearMask == p.mask;
    assert q.mask * SPANS == Bits(stack);
    assert (q.mask - q.clearMask) * SPANS == Bits(stack) - {SpanFlag(b)};
    assert ShowsClosing(stack, q.mask, data[..1]);
  }

  // The span bits of a mask say whether a preformatted span is open.
  lemma PreBit(stack: seq<byte>)
    ensures BACKTICK in stack ==> SpanPre in Bits(stack)
  {
    if BACKTICK in stack {
      var i :| 0 <= i < |stack| && stack[i] == BACKTICK;
      assert SpanFlag(stack[i]) in Bits(stack);
    }
  }

  lemma OpenMask(mask: Style, stack: seq<byte>, b: byte)
    requires IsDirective(b) && mask * MARKS == {} && MarksOwned(mask) && mask * SPANS == Bits(stack)
    ensures var m := mask + {SpanFlag(b), StartFlag(b)};
            && MarksOwned(m) && m * MARKS == {StartFlag(b)} && m * SPAN_MARKS == {StartFlag(b)}
            && m * SPANS == Bits(stack + [b]) && (m - {StartFlag(b)}) * SPANS == Bits(stack + [b])
  {
    BitsPush(stack, b);
  }

  lemma OpenSound(p: Level, data: seq<byte>, b: byte, j: nat)
    requires Prepared(p, data) && SpanLevel(p) && IsDirective(b) && BlockPre !in p.mask
    requires SpanPre !in p.mask && 1 <= j < Stop(p.spanStack, data) && data[0] == b && data[j] == b
    ensures var q := p.(mask := p.mask + {SpanFlag(b), StartFlag(b)}, clearMask := p.clearMask + {StartFlag(b)},
                        spanStack := p.spanStack + [b]);
            Sound(q, data[1..]) && Shows(p.spanStack, q.spanStack, q.mask, data[..1])
  {
    hide Stop, Closers;
    var stack := p.spanStack;
    var q := p.(mask := p.mask + {SpanFlag(b), StartFlag(b)}, clearMask := p.clearMask + {StartFlag(b)},
                spanStack := stack + [b]);
    assert p.mask - p.clearMask == p.mask;
    ClosersPush(stack, data, b, j);
    OpenMask(p.mask, stack, b);
    assert q.clearMask == {StartFlag(b)};
    PreBit(stack);
    assert GoodStack(q.spanStack);
    assert data[..1] == [b];
    assert ShowsOpening(stack, q.mask, data[..1]);
  }

  lemma TextSound(p: Level, data: seq<byte>, n: nat)
    requires Prepared(p, data) && SpanLevel(p)
    requires n <= |data| && (p.spanStack == [] || n <= Stop(p.spanStack, data))
    ensures Sound(p, data[n..])
    ensures Shows(p.spanStack, p.spanStack, p.mask, data[..n])
    ensures n > 0 && data[n - 1] == NEWLINE ==> Quiet(p)
  {
    if p.spanStack != [] { ClosersDrop(p.spanStack, data, n); }
    assert p.mask - p.clearMask == p.mask;
    assert ShowsText(p.spanStack, p.mask, data[..n]);
  }

  lemma ScanSpanSound(p: Level, data: seq<byte>, atEOF: bool)
    requires Prepared(p, data) && SpanLevel(p) && BlockPre !in p.mask
    ensures var r := ScanSpan(p, data, atEOF);
            && Sound(r.level, data[r.advance..])
            && (r.advance > 0 ==> Shows(p.spanStack, r.level.spanStack, r.level.mask, data[..r.advance]))
            && (r.advance > 0 && data[r.advance - 1] == NEWLINE ==> Quiet(r.level))
            && (r.advance == 0 ==> r.level == p)
            && SpanLevel(r.level) && !r.level.lastNewline
  {
    var j := FindSpanHits(p.spanStack, SpanPre in p.mask, data, 0, -1);
    var r := ScanSpan(p, data, atEOF);
    match FindSpan(p.spanStack, SpanPre in p.mask, data, 0, -1)
    case Text(n) => TextSound(p, data, n);
    case Miss => TextSound(p, data, r.advance);
    case Closer(b) => CloseSound(p, data, b);
    case Opener(b) => OpenSound(p, data, b, j);
  }

  lemma ScanPreSound(p: Level, data: seq<byte>, atEOF: bool)
    requires Prepared(p, data) && p.hasRun && BlockPre in p.mask
    ensures var r := ScanPre(p, data, atEOF);
            && Sound(r.level, data[r.advance..]) && Quiet(r.level)
            && ActiveStack(r.level) == []
            && Shows([], [], StyleOf(r.level), data[..r.advance])
  {
    assert Bits([]) == {};
    assert p.mask - p.clearMask == p.mask;
    var r := ScanPre(p, data, atEOF);
    assert (r.level.mask - r.level.clearMask) * SPANS == {};
    assert ShowsText([], r.level.mask, data[..r.advance]);
  }

  lemma FenceSound(p: Level, u: seq<byte>, v: seq<byte>, token: seq<byte>)
    requires Prepared(p, u) && SpanLevel(p) && BlockPre !in p.mask && p.spanStack == []
    ensures var q := p.(mask := p.mask + {BlockPre, BlockPreStart}, clearMask := p.clearMask + {BlockPreStart});
            Sound(q, v) && Quiet(q) && Shows([], [], q.mask, token)
  {
    var q := p.(mask := p.mask + {BlockPre, BlockPreStart}, clearMask := p.clearMask + {BlockPreStart});
    assert Bits([]) == {};
    assert p.mask - p.clearMask == p.mask;
    assert (q.mask - q.clearMask) * SPANS == {};
    assert ShowsText([], q.mask, token);
  }

  lemma ScanPlainSound(p: Level, data: seq<byte>, atEOF: bool)
    requires Prepared(p, data) && SpanLevel(p) && BlockPre !in p.mask && p.spanStack == []
    ensures var r := ScanPlain(p, data, atEOF);
            && Sound(r.level, data[r.advance..])
            && (r.advance > 0 ==> Shows(p.spanStack, r.level.spanStack, r.level.mask, data[..r.advance]))
            && (r.advance > 0 && data[r.advance - 1] == NEWLINE ==> Quiet(r.level))
            && (r.advance == 0 ==> r.level == p)
            && SpanLevel(r.level) && !r.level.lastNewline
  {
    hide Shows, GoodMask, GoodStack, Closers, FindSpan, Bits, MarksOwned;
    var n := ScanPlain(p, data, atEOF).advance;
    if HasFence(data) && (NewlineFrom(data, 0) > 0 || atEOF) {
      FenceSound(p, data, data[n..], data[..n]);
    } else if HasFence(data) && NewlineFrom(data, 0) == -1 {
      assert data[n..] == data;
    } else {
      ScanSpanSound(p, data, atEOF);
    }
  }

  lemma {:induction false} QuietIsInactive(l: Level)
    requires Linked(l) && Quiet(l)
    ensures ActiveStack(l) == []
  {
    if l.quoteStarted { QuietIsInactive(l.quoteSplit.value); }
  }

  lemma StartQuoteSound(p: Level, u: seq<byte>, v: seq<byte>, token: seq<byte>)
    requires Prepared(p, u) && p.spanStack == [] && !p.quoteStarted && BlockPre !in p.mask
    ensures var q := StartQuote(p);
            && Sound(q, v) && Quiet(q) && Linked(q)
            && ActiveStack(q) == [] && Shows([], [], StyleOf(q), token)
  {
    var q := StartQuote(p);
    assert Bits([]) == {};
    assert p.mask - p.clearMask == p.mask;
    if p.quoteSplit.Some? {
      AsleepIsQuiet(p.quoteSplit.value);
      AsleepSound(p.quoteSplit.value, u, v);
    } else {
      assert Sound(FRESH, v);
    }
    SoundIsLinked(q, v);
    QuietIsInactive(q);
    assert StyleOf(q.quoteSplit.value) == {};
    assert StyleOf(q) == q.mask;
    assert ShowsText([], q.mask, token);
  }

  lemma PrepareActive(l: Level, u: seq<byte>)
    requires Sound(l, u)
    ensures Linked(l) && ActiveStack(Prepare(l)) == ActiveStack(l)
  {
    SoundIsLinked(l, u);
    if l.lastNewline { QuietIsInactive(l); }
  }

  // What holds of the outcome of one call from state l.
  predicate Outcome(l: Level, data: seq<byte>, r: Split)
    requires Linked(l) && Linked(r.level) && r.advance <= |data|
  {
    && Sound(r.level, data[r.advance..])
    && (r.advance > 0 ==> Shows(ActiveStack(l), ActiveStack(r.level), StyleOf(r.level), data[..r.advance]))
    && (r.advance > 0 && data[r.advance - 1] == NEWLINE ==> Quiet(r.level))
    && (r.advance == 0 ==> ActiveStack(r.level) == ActiveStack(l))
  }

  // A level that hands the call to the decoder of the next level shows that
  // level's spans.
  lemma DelegateOutcome(p: Level, data: seq<byte>, inner: Split)
    requires Prepared(p, data) && p.quoteStarted
    requires Linked(p.quoteSplit.value) && Linked(inner.level) && inner.advance <= |data|
    requires Outcome(p.quoteSplit.value, data, inner)
    ensures Linked(p)
    ensures Outcome(p, data, Split(p.(quoteSplit := Some(inner.level)), inner.advance))
  {
    var q := p.(quoteSplit := Some(inner.level));
    assert Bits([]) == {};
    assert p.mask - p.clearMask == p.mask;
    assert StyleOf(q) == p.mask + StyleOf(inner.level);
    assert StyleOf(q) * SPANS == StyleOf(inner.level) * SPANS;
    assert StyleOf(q) * SPAN_MARKS == StyleOf(inner.level) * SPAN_MARKS;
  }

  lemma NoteNewlineOutcome(l: Level, data: seq<byte>, r: Split)
    requires Linked(l) && Linked(r.level) && r.advance <= |data| && Outcome(l, data, r)
    ensures Linked(NoteNewline(r, data).level) && Outcome(l, data, NoteNewline(r, data))
  {
    var s := NoteNewline(r, data);
    assert StyleOf(s.level) == StyleOf(r.level);
  }

  // Every call of the split function keeps the invariant, and its token says
  // exactly what happened to the open spans.
  lemma {:induction false} ScanSound(l: Level, data: seq<byte>, atEOF: bool)
    requires Sound(l, data)
    ensures Linked(l) && Outcome(l, data, Scan(l, data, atEOF))
    decreases Depth(l), 1
  {
    SoundIsLinked(l, data);
    if atEOF && data == [] { return; }
    PrepareSound(l, data);
    PrepareActive(l, data);
    DispatchSound(Prepare(l), data, atEOF);
    NoteNewlineOutcome(l, data, Dispatch(Prepare(l), data, atEOF));
  }

  lemma {:induction false} DispatchSound(p: Level, data: seq<byte>, atEOF: bool)
    requires Prepared(p, data)
    ensures Linked(p) && Outcome(p, data, Dispatch(p, data, atEOF))
    decreases Depth(p), 0
  {
    SoundIsLinked(p, data);
    if p.spanStack != [] {
      ScanSpanSound(p, data, atEOF);
    } else if BlockPre in p.mask {
      ScanPreSound(p.(hasRun := true), data, atEOF);
    } else {
      var marker := QuoteMarker(data);
      if marker > 0 && !p.quoteStarted {
        StartQuoteSound(p, data, data[marker..], data[..marker]);
      } else if p.quoteStarted {
        ScanSound(p.quoteSplit.value, data, atEOF);
        DelegateOutcome(p, data, Scan(p.quoteSplit.value, data, atEOF));
      } else {
        ScanPlainSound(p.(quoteSplit := None, hasRun := true), data, atEOF);
      }
    }
  }

  // ----- Whole runs -----

  // Only at the start of a line can the quotation depth go down.
  lemma {:induction false} DropIsQuiet(l: Level, data: seq<byte>, atEOF: bool)
    requires Sound(l, data) && Linked(l)
    requires Quote(Scan(l, data, atEOF).level) < Quote(l)
    ensures Quiet(l)
    decreases Depth(l)
  {
    if !l.lastNewline {
      assert Prepare(l).quoteStarted && Prepare(l).quoteSplit == l.quoteSplit;
      DropIsQuiet(l.quoteSplit.value, data, atEOF);
    }
  }

  lemma {:induction false} ActiveCloses(l: Level, u: seq<byte>)
    requires Sound(l, u) && Linked(l)
    ensures Closers(ActiveStack(l), u)
  {
    if l.quoteStarted { ActiveCloses(l.quoteSplit.value, u); }
  }

  lemma {:induction false} ScanTokenSound(r: Reader, l: Level)
    requires Feasible(r) && Sound(l, r.buf)
    ensures Linked(l)
    ensures var s := ScanToken(r, l);
            && Sound(s.level, s.reader.buf)
            && match s.token
               case Some(t) =>
                 && Shows(ActiveStack(l), ActiveStack(s.level), StyleOf(s.level), t)
                 && (Quote(s.level) < Quote(l) ==> ActiveStack(l) == [])
               case None => ActiveStack(l) == []
    decreases |r.chunks|, !r.eof
  {
    SoundIsLinked(l, r.buf);
    if r.buf == [] && !r.eof {
      if r.chunks != [] { SoundExtend(l, r.buf, r.chunks[0]); }
      ScanTokenSound(Fill(r), l);
    } else {
      var split := Scan(l, r.buf, r.eof);
      ScanSound(l, r.buf, r.eof);
      if Quote(split.level) < Quote(l) {
        DropIsQuiet(l, r.buf, r.eof);
        QuietIsInactive(l);
      }
      if split.advance == 0 {
        if r.eof {
          if r.buf != [] { ProgressAtEOF(l, r.buf); }
          ActiveCloses(l, r.buf);
        } else {
          assert r.buf[0..] == r.buf;
          if r.chunks != [] { SoundExtend(split.level, r.buf, r.chunks[0]); }
          ScanTokenSound(Fill(r), split.level);
        }
      }
    }
  }

  // The open spans as the caller has been told of them: while a token is held
  // back behind a virtual one, that token has not been seen yet.
  function Told(x: Lexer): seq<byte>
    requires Linked(x.level)
  {
    if x.insertBlockClose then [] else ActiveStack(x.level)
  }

  predicate LexerSound(x: Lexer) {
    && Ready(x) && Sound(x.level, x.reader.buf)
    && (x.insertBlockClose ==> Shows([], ActiveStack(x.level), StyleOf(x.level), x.bytes))
  }

  // A reading of tokens and styles in which spans are properly nested, given
  // the spans open at its start: each token opens a span, closes the innermost
  // one, or is text; no line ends and the input does not end inside a span.
  predicate Nested(stack: seq<byte>, out: seq<Seen>)
    decreases |out|
  {
    if out == [] then stack == []
    else
      var token, style := out[0].token.data, out[0].style;
      && MarksOwned(style)
      && if style * SPAN_STARTS != {} then ShowsOpening(stack, style, token) && Nested(stack + token, out[1..])
         else if style * SPAN_ENDS != {} then
           ShowsClosing(stack, style, token) && Nested(stack[..|stack| - 1], out[1..])
         else ShowsText(stack, style, token) && Nested(stack, out[1..])
  }

  lemma NestedStep(before: seq<byte>, after: seq<byte>, out: seq<Seen>)
    requires out != [] && Shows(before, after, out[0].style, out[0].token.data)
    requires Nested(after, out[1..])
    ensures Nested(before, out)
  {
    var token, style := out[0].token.data, out[0].style;
    if ShowsOpening(before, style, token) && after == before + token {
      assert StartFlag(token[0]) in style * SPAN_MARKS;
    } else if ShowsClosing(before, style, token) && after == before[..|before| - 1] {
      assert EndFlag(token[0]) in style * SPAN_MARKS;
      assert forall f | f in style * SPAN_STARTS :: f in style * SPAN_MARKS;
    } else {
      assert forall f | f in SPAN_STARTS + SPAN_ENDS :: f !in style * SPAN_MARKS;
    }
  }

  // The virtual end-of-quotation token shows no span.
  lemma VirtualShows()
    ensures Shows([], [], {BlockQuoteEnd, BlockQuote}, [])
  {
    assert Bits([]) == {};
    assert ShowsText([], {BlockQuoteEnd, BlockQuote}, []);
  }

  // Every token of Next says exactly what happened to the open spans.
  lemma NextShows(x: Lexer)
    requires LexerSound(x)
    ensures var s := Next(x);
            match s.token
            case Some(t) => LexerSound(s.lexer) && Shows(Told(x), Told(s.lexer), LexerStyle(s.lexer), t.data)
            case None => Told(x) == []
  {
    if !x.insertBlockClose {
      ScanTokenSound(x.reader, x.level);
      VirtualShows();
    }
  }

  lemma {:induction false} RunNests(x: Lexer)
    requires LexerSound(x)
    ensures Nested(Told(x), Run(x))
    decreases |Unread(x.reader)|, x.insertBlockClose
  {
    NextConserves(x);
    NextShows(x);
    var s := Next(x);
    if s.token.Some? {
      var out := Run(x);
      RunNests(s.lexer);
      assert out[1..] == Run(s.lexer);
      NestedStep(Told(x), Told(s.lexer), out);
    }
  }

  lemma FreshSound(u: seq<byte>)
    ensures Sound(FRESH, u)
  {
    assert Bits([]) == {};
  }

  // For every input and every way of cutting it into reads, spans are properly
  // nested, each is closed on the line that opened it, nothing opens inside a
  // preformatted span, and the style mask always shows exactly the open spans.
  lemma SpansNest(chunks: seq<seq<byte>>, lastWithEOF: bool)
    requires forall i | 0 <= i < |chunks| :: chunks[i] != []
    ensures Nested([], Run(Start(chunks, lastWithEOF)))
  {
    FreshSound([]);
    RunNests(Start(chunks, lastWithEOF));
  }
}
