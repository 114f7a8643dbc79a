// What the rules say of spans, token by token (section 6.2 of XEP-0393), and where
// they differ from that section.
module StylingOpenings {
  import opened Wrappers
  import opened Utf8
  import opened StylingModel
  import opened StylingConservation
  import opened StylingSpans
  import opened StylingRules
  import opened StylingRuled

  // ----- Opening tokens -----

  // A span may open behind a token that ends a line, is or ends with a directive,
  // is a quotation marker, or ends with white space; and at the start.
  predicate Boundary(before: seq<byte>, marker: bool) {
    || before == [] || marker || before[|before| - 1] == NEWLINE || IsDirective(before[|before| - 1])
    || IsSpace(DecodeLast(before).rune)
  }

  // What is left behind an opening directive b: no white space and no b at once, and
  // on the same line a b without white space before it.
  predicate Openable(b: byte, rest: seq<byte>) {
    && rest != [] && rest[0] != b && !IsSpace(Decode(rest).rune)
    && exists k | 1 <= k < |rest| ::
         rest[k] == b && !IsSpace(DecodeLast([b] + rest[..k]).rune) && forall j | 0 <= j < k :: rest[j] != NEWLINE
  }

  // Every opening token of a run, the token before it being this one.
  predicate OpeningsLegal(before: seq<byte>, marker: bool, out: seq<Seen>)
    decreases |out|
  {
    out == [] ||
    var x := out[0];
    if x.token.data == [] then OpeningsLegal(before, marker, out[1..])
    else
      && (x.style * SPAN_STARTS != {} ==>
            && |x.token.data| == 1 && x.style * SPAN_STARTS == {StartFlag(x.token.data[0])}
            && Boundary(before, marker) && Openable(x.token.data[0], Joined(out[1..])))
      && OpeningsLegal(x.token.data, BlockQuoteStart in x.style, out[1..])
  }

  // Either a span may open behind the token, or nothing is left, or the innermost
  // span closes next.
  predicate Follow(p: Place, before: seq<byte>, marker: bool, rest: seq<byte>) {
    Boundary(before, marker) || rest == [] || (p.stack != [] && rest[0] == Top(p.stack))
  }

  lemma EventMeans(stack: seq<byte>, u: seq<byte>, n: nat, event: Event)
    requires 1 <= n <= |u| && SpanRule(stack, u, n, event)
    ensures event == Opening ==> n == 1 && (exists k :: Pair(stack, u, 0, k)) && IsDirective(u[0])
    ensures event == Closing ==> n == 1 && stack != [] && u[0] == Top(stack) && Limit(stack, u) == 0
    ensures event == Nothing ==>
              || (n < |u| && SpaceBefore(u, n)) || n == |u| || u[n - 1] == NEWLINE
              || (stack != [] && u[n] == Top(stack))
  {
    hide ClosesAt, SpaceBefore, SpaceBehind;
    if c: nat, k: nat :| Pair(stack, u, c, k) {
    } else {
    }
  }

  lemma EventOfStyle(p: Place, u: seq<byte>, n: nat, style: Style) returns (event: Event)
    requires 1 <= n <= |u| && TokenRule(p, u, n, style) && AllDirectives(p.stack)
    requires !InBlock(p) && !(p.stack == [] && (u[0] == GREATER || Fenced(u)))
    ensures SpanRule(p.stack, u, n, event) && style == Quoted(p) + SpanStyle(p.stack, event, u[0])
    ensures event == Opening ==> n == 1 && IsDirective(u[0]) && OpensAt(u, 0)
    ensures event == Closing ==> n == 1 && p.stack != [] && u[0] == Top(p.stack)
    ensures style * SPAN_STARTS != {} <==> event == Opening
    ensures style * SPAN_ENDS != {} <==> event == Closing
    ensures event == Opening ==> style * SPAN_STARTS == {StartFlag(u[0])}
    ensures BlockQuoteStart !in style && BlockPre !in style && BlockPreStart !in style
  {
    hide OpensAt, ClosesAt, Bits, Limit;
    event :| SpanRule(p.stack, u, n, event) && style == Quoted(p) + SpanStyle(p.stack, event, u[0]);
    EventMeans(p.stack, u, n, event);
    match event {
      case Opening =>
        OpeningStyle(p.stack, u[0]);
        BitsAreSpans(p.stack + [u[0]]);
      case Closing => ClosingStyle(p.stack, u[0]);
      case Nothing => PlainStyle(p.stack);
    }
    BitsAreSpans(p.stack);
  }

  lemma PairIsOpenable(stack: seq<byte>, u: seq<byte>, k: nat)
    requires u != [] && Pair(stack, u, 0, k)
    ensures Openable(u[0], u[1..]) && !(stack != [] && u[0] == Top(stack))
  {
    hide IsDirective;
    var b, rest := u[0], u[1..];
    assert [b] + rest[..k - 1] == u[..k];
    assert rest[k - 1] == u[k] == b && rest[0] == u[1];
    assert forall j | 0 <= j < k - 1 :: rest[j] == u[j + 1];
  }

  lemma BlocksOpenNothing(p: Place, u: seq<byte>, n: nat, style: Style)
    requires 1 <= n <= |u| && TokenRule(p, u, n, style)
    requires InBlock(p) || (p.stack == [] && (u[0] == GREATER || Fenced(u)))
    ensures style * SPAN_STARTS == {} && style * SPAN_ENDS == {}
  {
    hide SpanRule, BlockRule, MarkerRule;
  }

  lemma OpeningIsLegal(p: Place, u: seq<byte>, n: nat, style: Style, before: seq<byte>, marker: bool)
    requires 1 <= n <= |u| && TokenRule(p, u, n, style) && AllDirectives(p.stack) && Follow(p, before, marker, u)
    requires style * SPAN_STARTS != {}
    ensures n == 1 && style * SPAN_STARTS == {StartFlag(u[0])} && Boundary(before, marker) && Openable(u[0], u[1..])
  {
    hide SpanRule, Boundary, Openable, Pair, Bits, BlockRule, MarkerRule;
    if InBlock(p) || (p.stack == [] && (u[0] == GREATER || Fenced(u))) {
      BlocksOpenNothing(p, u, n, style);
    } else {
      var event := EventOfStyle(p, u, n, style);
      EventMeans(p.stack, u, n, event);
      var k :| Pair(p.stack, u, 0, k);
      PairIsOpenable(p.stack, u, k);
    }
  }

  // What a token leaves behind.
  lemma TokenFollow(p: Place, u: seq<byte>, n: nat, style: Style)
    requires 1 <= n <= |u| && TokenRule(p, u, n, style) && AllDirectives(p.stack)
    ensures var q := After(p, u[..n], style);
            AllDirectives(q.stack) && Follow(q, u[..n], BlockQuoteStart in style, u[n..])
  {
    hide SpanRule, Bits, Pair;
    var t, q := u[..n], After(p, u[..n], style);
    assert t[n - 1] == u[n - 1];
    if InBlock(p) || (p.stack == [] && (u[0] == GREATER || Fenced(u))) {
      BlocksOpenNothing(p, u, n, style);
      FirstLine(u, Line(u));
      if BlockPreEnd in style && InBlock(p) && n == 3 { assert IsDirective(u[2]); }
    } else {
      var event := EventOfStyle(p, u, n, style);
      EventMeans(p.stack, u, n, event);
      if event == Nothing && n < |u| {
        assert u[n..][0] == u[n];
        assert SpaceBefore(u, n) ==> IsSpace(DecodeLast(t).rune);
      }
      if event == Opening { assert t == [u[0]]; }
    }
  }

  lemma LegalToken(p: Place, before: seq<byte>, marker: bool, out: seq<Seen>)
    requires out != [] && out[0].token.data != [] && TokenExplained(p, out)
    requires AllDirectives(p.stack) && Follow(p, before, marker, Joined(out))
    ensures var x := out[0]; var t := x.token.data; var q := After(p, t, x.style);
            && (x.style * SPAN_STARTS != {} ==>
                  && |t| == 1 && x.style * SPAN_STARTS == {StartFlag(t[0])}
                  && Boundary(before, marker) && Openable(t[0], Joined(out[1..])))
            && AllDirectives(q.stack) && Follow(q, t, BlockQuoteStart in x.style, Joined(out[1..]))
  {
    hide TokenRule, After, Follow, Boundary, Openable;
    var x, u := out[0], Joined(out);
    var t := x.token.data;
    assert u == t + Joined(out[1..]);
    assert u[..|t|] == t && u[|t|..] == Joined(out[1..]);
    TokenFollow(p, u, |t|, x.style);
    if x.style * SPAN_STARTS != {} { OpeningIsLegal(p, u, |t|, x.style, before, marker); }
  }

  lemma {:induction false} LegalFrom(p: Place, quote: nat, before: seq<byte>, marker: bool, out: seq<Seen>)
    requires Explained(p, quote, out) && AllDirectives(p.stack) && Follow(p, before, marker, Joined(out))
    ensures OpeningsLegal(before, marker, out)
    decreases |out|
  {
    hide TokenRule, After, Follow, Boundary, Openable, InfoRule;
    if out != [] {
      if out[0].token.data == [] {
        var held := out[1..];
        assert Joined(out) == Joined(held) && held[1..] == out[2..];
        LegalToken(p, before, marker, held);
        LegalFrom(After(p, held[0].token.data, held[0].style), held[0].quote, held[0].token.data,
                  BlockQuoteStart in held[0].style, held[1..]);
      } else {
        LegalToken(p, before, marker, out);
        LegalFrom(After(p, out[0].token.data, out[0].style), out[0].quote, out[0].token.data,
                  BlockQuoteStart in out[0].style, out[1..]);
      }
    }
  }

  // In every run, however the input is cut: a span opens only at the start, at the
  // start of a line, behind a directive, a quotation marker or white space; what
  // follows is neither white space nor the same directive; and the same directive
  // comes again on the line without white space before it.
  lemma SpansOpenByTheRules(chunks: seq<seq<byte>>, lastWithEOF: bool)
    requires forall i | 0 <= i < |chunks| :: chunks[i] != []
    ensures OpeningsLegal([], false, Run(Start(chunks, lastWithEOF)))
  {
    RunsAreExplained(chunks, lastWithEOF);
    LegalFrom(OUTSET, 0, [], false, Run(Start(chunks, lastWithEOF)));
  }

  // ----- Where the code differs from section 6.2 -----

  lemma NotBehindCandidate(stack: seq<byte>, u: seq<byte>, c: nat)
    requires c < Limit(stack, u) && exists i | 0 <= i < c :: OpensAt(u, i)
    ensures !SpanRule(stack, u, if c == 0 then 1 else c, if c == 0 then Opening else Nothing)
  {
    hide OpensAt, ClosesAt;
    if c2: nat, k2: nat :| Pair(stack, u, c2, k2) {
      assert c2 != c;
    }
  }

  // A pair of directives that may open and close a span does so exactly if no
  // directive before it on the line may open one: the first such is the only
  // candidate, whether or not anything closes it.
  lemma FirstCandidateOnly(stack: seq<byte>, u: seq<byte>, c: nat, k: nat)
    requires BACKTICK !in stack && c < k < Limit(stack, u) && OpensAt(u, c) && ClosesAt(u, c, k)
    ensures SpanRule(stack, u, if c == 0 then 1 else c, if c == 0 then Opening else Nothing)
            <==> forall i | 0 <= i < c :: !OpensAt(u, i)
  {
    hide OpensAt, ClosesAt;
    if forall i | 0 <= i < c :: !OpensAt(u, i) {
      assert Pair(stack, u, c, k);
      forall c2: nat, k2: nat | Pair(stack, u, c2, k2) ensures c2 == c { OneCandidate(stack, u, c, k, c2, k2); }
    } else {
      NotBehindCandidate(stack, u, c);
    }
  }

  lemma {:induction false} LimitUpTo(stack: seq<byte>, u: seq<byte>, k: nat)
    requires k < |u| && stack != [] && u[k] == Top(stack)
    ensures Limit(stack, u) <= k
    decreases |u|
  {
    if k > 0 && u[0] != NEWLINE && u[0] != Top(stack) { LimitUpTo(stack, u[1..], k - 1); }
  }

  // A span that opens because of a directive at k closes at the first one behind
  // its opening, which may be earlier and behind white space.
  lemma FirstSameCloses(stack: seq<byte>, u: seq<byte>, k: nat)
    requires u != [] && Pair(stack, u, 0, k)
    ensures var b, e := u[0], 1 + Limit(stack + [u[0]], u[1..]);
            e <= k && u[e] == b && forall j | 1 <= j < e :: u[j] != b && u[j] != NEWLINE
  {
    hide OpensAt, SpaceBefore;
    var rest, s := u[1..], stack + [u[0]];
    assert Top(s) == u[0] && rest[k - 1] == u[k];
    var l := Limit(s, rest);
    assert forall j | 1 <= j <= l :: u[j] == rest[j - 1];
    assert k < Limit(stack, u);
    assert u[k] == u[0];
    LimitUpTo(s, rest, k - 1);
  }

  const ASTERISK_A: seq<byte> := ['*' as int, 'a' as int, ' ' as int]

  lemma Blanks(x: byte)
    ensures IsSpace(DecodeLast(ASTERISK_A).rune) && !IsSpace(DecodeLast(ASTERISK_A + [x, 'b' as int]).rune)
  {
  }

  // "*a _b_": the underscores could open and close a span, and do not, for the
  // asterisk could open one and nothing closes it. All of it is plain text.
  lemma BlockedPair()
    ensures var u := ASTERISK_A + ['_' as int, 'b' as int, '_' as int];
            && OpensAt(u, 3) && ClosesAt(u, 3, 5) && Limit([], u) == |u|
            && forall n, event :: SpanRule([], u, n, event) <==> n == |u| && event == Nothing
  {
    var u := ASTERISK_A + ['_' as int, 'b' as int, '_' as int];
    Blanks('_' as int);
    assert u[..3] == ASTERISK_A && u[..5] == ASTERISK_A + ['_' as int, 'b' as int];
    assert u[4..] == ['b' as int, '_' as int] && u[1..] == ['a' as int, ' ' as int, '_' as int, 'b' as int, '_' as int];
    assert u[4..][0] == 'b' as int && u[1..][0] == 'a' as int;
    assert OpensAt(u, 0) && OpensAt(u, 3);
    LimitIs([], u, 6);
    forall c: nat, k: nat ensures !Pair([], u, c, k) {
      hide OpensAt, SpaceBefore;
    }
  }

  // "*a *b*": the span opens because of the last asterisk, and closes at the second,
  // behind white space.
  lemma ClosesBehindSpace()
    ensures var u := ASTERISK_A + ['*' as int, 'b' as int, '*' as int];
            Pair([], u, 0, 5) && 1 + Limit([u[0]], u[1..]) == 3 && SpaceBefore(u, 3)
  {
    var u := ASTERISK_A + ['*' as int, 'b' as int, '*' as int];
    Blanks('*' as int);
    assert u[..3] == ASTERISK_A && u[..5] == ASTERISK_A + ['*' as int, 'b' as int];
    assert u[1..][0] == 'a' as int;
    LimitIs([], u, 6);
    LimitIs([u[0]], u[1..], 2);
  }

  // "*a*_b_": a span may open right behind a closing directive.
  lemma OpensBehindClosing()
    ensures var rest := ['_' as int, 'b' as int, '_' as int]; var u := ['*' as int] + rest;
            SpanRule(['*' as int], u, 1, Closing) && SpanRule([], u[1..], 1, Opening)
  {
    var rest: seq<byte> := ['_' as int, 'b' as int, '_' as int];
    var u := ['*' as int] + rest;
    assert u[1..] == rest && rest[1..][0] == 'b' as int && rest[..2] == ['_' as int, 'b' as int];
    assert !IsSpace(DecodeLast(['_' as int, 'b' as int]).rune);
    LimitIs(['*' as int], u, 0);
    LimitIs([], rest, 3);
    assert Pair([], rest, 0, 2);
    forall c: nat, k: nat | Pair([], rest, c, k) ensures c == 0 {
      hide OpensAt, ClosesAt;
      OneCandidate([], rest, 0, 2, c, k);
    }
  }
}
