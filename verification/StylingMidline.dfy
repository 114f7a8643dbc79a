// Block constructs in the middle of a line, and texts without any.
module StylingMidline {
  import opened Wrappers
  import opened Utf8
  import opened StylingModel
  import opened StylingConservation
  import opened StylingSpans
  import opened StylingChunks
  import opened StylingCuts

  // ----- A text without block constructs -----

  // Whether a block may start at the front of u.
  predicate BlockStart(u: seq<byte>) { HasFence(u) || (u != [] && u[0] == GREATER) }

  predicate LineStartOrDirective(b: byte) { b == NEWLINE || IsDirective(b) }

  // No '>' and no code fence at the start of a line or right after a styling
  // directive character; prev is the byte before u.
  predicate PlainAfter(prev: byte, u: seq<byte>) {
    forall i | 0 <= i < |u| && BlockStart(u[i..]) :: !LineStartOrDirective(if i == 0 then prev else u[i - 1])
  }

  predicate PlainText(u: seq<byte>) { PlainAfter(NEWLINE, u) }

  lemma FenceRepeats(u: seq<byte>)
    ensures HasFence(u) ==> u[1] == u[0]
  {
    if HasFence(u) { assert u[0] == u[..3][0] && u[1] == u[..3][1]; }
  }

  lemma LoneDirective(data: seq<byte>, start: nat)
    requires start + 1 < |data| && IsDirective(data[start]) && data[start + 1] != data[start]
    ensures !BlockStart(data[start..])
  {
    FenceRepeats(data[start..]);
  }

  // A text token that stops short of a span stops before a lone directive.
  lemma {:induction false} TextStopsBeforeSpan(stack: seq<byte>, inPre: bool, data: seq<byte>, i: nat, start: int)
    requires -1 <= start < i <= |data| || (start == -1 && i == 0)
    requires start >= 0 ==> IsDirective(data[start]) && (start + 1 < |data| ==> data[start + 1] != data[start])
    ensures match FindSpan(stack, inPre, data, i, start)
            case Text(n) => data[n - 1] == NEWLINE || stack != [] || !BlockStart(data[n..])
            case _ => true
    decreases |data| - i
  {
    if i < |data| {
      var b := data[i];
      if b == NEWLINE || (IsDirective(b) && stack != [] && b == Top(stack)) {
      } else if !IsDirective(b) {
        TextStopsBeforeSpan(stack, inPre, data, i + 1, start);
      } else if start == -1 && !inPre {
        TextStopsBeforeSpan(stack, inPre, data, i + 1, if MayOpen(data, i) then i else -1);
      } else if start >= 0 && b == data[start] && !PrevSpace(data, i) && i > start + 1 {
        LoneDirective(data, start);
      } else {
        TextStopsBeforeSpan(stack, inPre, data, i + 1, start);
      }
    }
  }

  // ----- One level, outside any block -----

  predicate SpanOnly(l: Level) { l.quoteSplit.None? && BlockPre !in l.mask }

  // No block starts at the front of the unread text u.
  predicate SafeFront(l: Level, u: seq<byte>) { l.spanStack != [] || !BlockStart(u) }

  lemma ScanIsSpan(l: Level, data: seq<byte>, atEOF: bool)
    requires Sound(l, data) && Linked(l) && SpanOnly(l) && SafeFront(l, data) && data != []
    ensures var p := Prepare(l).(hasRun := true);
            && SpanOnly(p) && p.spanStack == l.spanStack && !p.lastNewline && p.clearMask == {}
            && Scan(l, data, atEOF) == NoteNewline(ScanSpan(p, data, atEOF), data)
  {
    var p := Prepare(l);
    assert p.spanStack != [] ==> p.hasRun;
    assert p.(quoteSplit := None, hasRun := true) == p.(hasRun := true);
  }

  // Plain text stays plain behind a token, and no block starts there.
  lemma FrontAfterToken(l: Level, u: seq<byte>, prev: byte)
    requires Sound(l, u) && Linked(l) && SpanOnly(l) && SafeFront(l, u) && u != [] && PlainAfter(prev, u)
    ensures var r := Scan(l, u, true);
            && r.advance >= 1 && SpanOnly(r.level) && SafeFront(r.level, u[r.advance..])
            && PlainAfter(u[r.advance - 1], u[r.advance..])
            && Quote(r.level) == 0
  {
    hide Sound, FindSpan, MayOpen;
    ProgressAtEOF(l, u);
    ScanIsSpan(l, u, true);
    ScanSound(l, u, true);
    var p := Prepare(l).(hasRun := true);
    var r := Scan(l, u, true);
    var n := r.advance;
    TextStopsBeforeSpan(p.spanStack, SpanPre in p.mask, u, 0, -1);
    forall i | 0 <= i < |u| - n && BlockStart(u[n..][i..])
      ensures !LineStartOrDirective(if i == 0 then u[n - 1] else u[n..][i - 1])
    {
      assert u[n..][i..] == u[n + i..];
    }
    assert n < |u| && BlockStart(u[n..]) ==> !LineStartOrDirective(u[n - 1]) by {
      assert u[n..][0..] == u[n..];
    }
  }

  lemma FrontIsSettled(l: Level, u: seq<byte>, m: nat)
    requires Sound(l, u) && Linked(l) && SpanOnly(l) && SafeFront(l, u)
    ensures Settled(l, u, m)
  {
    hide FindSpan, HasFence;
    assert !l.quoteStarted;
  }

  lemma {:induction false} PlainIsSteady(l: Level, u: seq<byte>, prev: byte, known: nat)
    requires Sound(l, u) && Linked(l) && SpanOnly(l) && SafeFront(l, u) && PlainAfter(prev, u) && known <= |u|
    ensures Steady(l, u, known)
    decreases |u|
  {
    hide Sound, Scan, Need, HasFence, QuoteMarker;
    if u != [] && Scan(l, u, false).advance > 0 {
      var m := Max(known, Need(l, u, 1));
      FrontIsSettled(l, u, m);
      TokenWithin(l, u, m);
      FrontAfterToken(l, u, prev);
      ScanSound(l, u, true);
      var w := Scan(l, u, true);
      PlainIsSteady(w.level, u[w.advance..], u[w.advance - 1], m - w.advance);
    }
  }

  // For a text without block constructs no cut matters.
  lemma PlainTextIsCutFree(u: seq<byte>)
    requires PlainText(u)
    ensures CutFree(u)
  {
    hide CutFree, Steady;
    assert !BlockStart(u) by { assert u[0..] == u; }
    FreshSound(u);
    PlainIsSteady(FRESH, u, NEWLINE, 0);
    ChunksDoNotMatter(u);
  }

  // ----- Why the condition looks behind directives as well -----

  // No line of u starts with '>' or a code fence.
  predicate PlainLines(u: seq<byte>) {
    forall i | 0 <= i < |u| && BlockStart(u[i..]) :: i > 0 && u[i - 1] != NEWLINE
  }

  // The decoder's states while it reads "*a*".
  const IN_STRONG := Level({SpanStrong, SpanStrongStart}, {SpanStrongStart}, false, false, true, [STAR], None)
  const IN_TEXT := Level({SpanStrong}, {}, false, false, true, [STAR], None)
  const BEHIND := Level({SpanStrong, SpanStrongEnd}, {SpanStrong, SpanStrongEnd}, false, false, true, [], None)

  lemma OpensStrong(more: seq<byte>)
    ensures Scan(FRESH, [STAR, 97, STAR, GREATER] + more, false) == Split(IN_STRONG, 1)
  {
    var u := [STAR, 97, STAR, GREATER] + more;
    FenceRepeats(u);
    var p := Prepare(FRESH).(quoteSplit := None, hasRun := true);
    assert MayOpen(u, 0) by { assert u[1..][0] == 97; }
    assert !PrevSpace(u, 2) by { assert u[..2][1] == 97; }
    assert FindSpan([], false, u, 2, 0) == Opener(STAR);
    assert FindSpan([], false, u, 1, 0) == Opener(STAR);
    assert FindSpan([], false, u, 0, -1) == Opener(STAR);
    assert [] + [STAR] == [STAR];
    assert p.mask + {SpanStrong, SpanStrongStart} == {SpanStrong, SpanStrongStart};
    assert p.clearMask + {SpanStrongStart} == {SpanStrongStart};
    assert ScanSpan(p, u, false) == Split(IN_STRONG, 1);
  }

  lemma ReadsText(more: seq<byte>)
    ensures Scan(IN_STRONG, [97, STAR, GREATER] + more, false) == Split(IN_TEXT, 1)
  {
    var u := [97, STAR, GREATER] + more;
    assert Prepare(IN_STRONG).mask == {SpanStrong};
    assert Prepare(IN_STRONG) == IN_TEXT;
    assert FindSpan([STAR], false, u, 1, -1) == Text(1);
    assert FindSpan([STAR], false, u, 0, -1) == Text(1);
  }

  lemma ClosesStrong(more: seq<byte>)
    ensures Scan(IN_TEXT, [STAR, GREATER] + more, false) == Split(BEHIND, 1)
  {
    var u := [STAR, GREATER] + more;
    assert IN_TEXT.mask - IN_TEXT.clearMask == {SpanStrong};
    assert Prepare(IN_TEXT) == IN_TEXT;
    assert FindSpan([STAR], false, u, 0, -1) == Closer(STAR);
    assert [STAR][..0] == [];
    assert {SpanStrong} + {SpanStrongEnd} == {SpanStrong, SpanStrongEnd};
    assert {} + {SpanStrong, SpanStrongEnd} == BEHIND.clearMask;
  }

  // What is read next is the quotation marker with the white space at hand.
  lemma QuotesMidLine(more: seq<byte>)
    ensures Linked(BEHIND)
    ensures Scan(BEHIND, [GREATER] + more, false).advance == QuoteMarker([GREATER] + more)
  {
    assert Prepare(BEHIND).mask == {};
  }

  // A token that the buffer already holds is handed out next.
  lemma BufferedToken(x: Lexer)
    requires Ready(x) && !x.insertBlockClose && x.reader.buf != []
    requires var s := Scan(x.level, x.reader.buf, x.reader.eof); s.advance > 0 && Quote(s.level) >= Quote(x.level)
    ensures var s := Scan(x.level, x.reader.buf, x.reader.eof);
            var y := Lexer(x.reader.(buf := x.reader.buf[s.advance..]), s.level, false, x.reader.buf[..s.advance]);
            && Ready(y)
            && |Run(x)| == 1 + |Run(y)| && Run(x)[0].token.data == y.bytes && Run(x)[1..] == Run(y)
  {
    var y := Next(x).lexer;
    assert Run(x)[1..] == Run(y);
  }

  // What the decoder hands out from state l on, with u in its buffer.
  function From(l: Level, u: seq<byte>, rest: seq<seq<byte>>): seq<Seen>
    requires Linked(l) && forall i | 0 <= i < |rest| :: rest[i] != []
  {
    Run(Lexer(Reader(u, rest, false, false), l, false, []))
  }

  lemma FirstRead(u: seq<byte>, rest: seq<seq<byte>>)
    requires u != [] && forall i | 0 <= i < |rest| :: rest[i] != []
    ensures Run(Start([u] + rest, false)) == From(FRESH, u, rest)
  {
    var x := Start([u] + rest, false);
    assert Fill(x.reader) == Reader(u, rest, false, false);
    assert ScanToken(x.reader, FRESH) == ScanToken(Reader(u, rest, false, false), FRESH);
    assert Next(x) == Next(Lexer(Reader(u, rest, false, false), FRESH, false, []));
  }

  lemma OneToken(l: Level, u: seq<byte>, v: seq<byte>, rest: seq<seq<byte>>, m: Level)
    requires Linked(l) && Linked(m) && !l.quoteStarted && u != [] && u[1..] == v
    requires forall i | 0 <= i < |rest| :: rest[i] != []
    requires Scan(l, u, false) == Split(m, 1)
    ensures |From(l, u, rest)| >= 1 && From(l, u, rest)[1..] == From(m, v, rest)
  {
    var x := Lexer(Reader(u, rest, false, false), l, false, []);
    BufferedToken(x);
    var y := Next(x).lexer;
    assert y == Lexer(Reader(v, rest, false, false), m, false, u[..1]);
    assert Next(y) == Next(y.(bytes := []));
  }

  lemma LastOfFour(more: seq<byte>, rest: seq<seq<byte>>)
    requires forall i | 0 <= i < |rest| :: rest[i] != []
    ensures Linked(BEHIND)
    ensures var out := From(BEHIND, [GREATER] + more, rest);
            |out| >= 1 && |out[0].token.data| == QuoteMarker([GREATER] + more)
  {
    QuotesMidLine(more);
    BufferedToken(Lexer(Reader([GREATER] + more, rest, false, false), BEHIND, false, []));
  }

  // The first tokens of a text that arrives as "*a*>" and more in one read.
  lemma FourTokens(more: seq<byte>, rest: seq<seq<byte>>)
    requires forall i | 0 <= i < |rest| :: rest[i] != []
    ensures var out := Run(Start([[STAR, 97, STAR, GREATER] + more] + rest, false));
            |out| >= 4 && |out[3].token.data| == QuoteMarker([GREATER] + more)
  {
    var u, u1, u2, u3 := [STAR, 97, STAR, GREATER] + more, [97, STAR, GREATER] + more, [STAR, GREATER] + more,
      [GREATER] + more;
    assert u[1..] == u1 && u1[1..] == u2 && u2[1..] == u3;
    FirstRead(u, rest);
    OpensStrong(more);
    OneToken(FRESH, u, u1, rest, IN_STRONG);
    ReadsText(more);
    OneToken(IN_STRONG, u1, u2, rest, IN_TEXT);
    ClosesStrong(more);
    OneToken(IN_TEXT, u2, u3, rest, BEHIND);
    LastOfFour(more, rest);
    var out := From(FRESH, u, rest);
    assert out[3] == out[1..][1..][1..][0];
  }

  // It would not be enough that no line starts with '>' or a fence: "*a*> b"
  // has one line, which starts with '*', and still its fourth token is ">" or
  // "> " depending on where the first read ends.
  lemma PlainLinesAreNotEnough()
    ensures var whole, cut := [[STAR, 97, STAR, GREATER, 32, 98]], [[STAR, 97, STAR, GREATER], [32, 98]];
            && Flatten(whole) == Flatten(cut) && PlainLines(Flatten(whole))
            && Run(Start(whole, false)) != Run(Start(cut, false))
  {
    var whole, cut := [[STAR, 97, STAR, GREATER, 32, 98]], [[STAR, 97, STAR, GREATER], [32, 98]];
    var u: seq<byte> := [STAR, 97, STAR, GREATER, 32, 98];
    assert Flatten(whole[1..]) == [];
    assert Flatten(whole) == u;
    assert cut[1..] == [[32, 98]] && Flatten(cut[1..][1..]) == [];
    assert Flatten(cut[1..]) == [32, 98];
    assert Flatten(cut) == u;
    assert !BlockStart(u[0..]) by { FenceRepeats(u[0..]); }
    FourTokens([32, 98], []);
    FourTokens([], [[32, 98]]);
    assert [STAR, 97, STAR, GREATER] + [] == cut[0];
    assert whole == [[STAR, 97, STAR, GREATER] + [32, 98]] + [];
    assert cut == [cut[0]] + [[32, 98]];
    var marked: seq<byte> := [GREATER] + [32, 98];
    assert marked[1..][0] == 32;
    assert SpacesFrom(marked, 2) >= 2;
    assert QuoteMarker(marked) >= 2;
    assert QuoteMarker([GREATER] + []) == 1;
  }
}
