// Exactly when the tokens do not depend on how the input is cut into reads.
module StylingCuts {
  import opened Wrappers
  import opened Utf8
  import opened StylingModel
  import opened StylingConservation
  import opened StylingChunks

  // ----- The condition -----

  // The least number of bytes, from k on, that show the token at the front of u
  // without the end of the text being known.
  function Need(l: Level, u: seq<byte>, k: nat): (n: nat)
    requires Linked(l) && 1 <= k <= |u| && Scan(l, u, false).advance > 0
    ensures k <= n <= |u| && Scan(l, u[..n], false).advance > 0
    ensures forall j | k <= j < n :: Scan(l, u[..j], false).advance == 0
    decreases |u| - k
  {
    if Scan(l, u[..k], false).advance > 0 then k
    else
      assert u[..|u|] == u;
      Need(l, u, k + 1)
  }

  function Max(a: nat, b: nat): nat { if a > b then a else b }

  lemma {:induction false} StillThere(l: Level, u: seq<byte>, n: nat, m: nat)
    requires Linked(l) && 1 <= n <= m <= |u| && Scan(l, u[..n], false).advance > 0
    ensures Scan(l, u[..m], false).advance > 0
  {
    hide Scan, Settled;
    assert u[..m] == u[..n] + u[n..m];
    ScanStable(l, u[..n], u[n..m]);
  }

  // The settled token is found within the bytes that settle it.
  lemma {:induction false} TokenWithin(l: Level, u: seq<byte>, m: nat)
    requires Linked(l) && u != [] && Scan(l, u, false).advance > 0 && Need(l, u, 1) <= m <= |u|
    ensures Scan(l, u[..m], false).advance > 0
    ensures Settled(l, u, m) ==> Scan(l, u, true) == Scan(l, u[..m], false) && 1 <= Scan(l, u, true).advance <= m
    ensures !Settled(l, u, m) ==> Scan(l, u, true).advance != Scan(l, u[..m], false).advance
  {
    hide Scan, Settled;
    StillThere(l, u, Need(l, u, 1), m);
    var b, more := u[..m], u[m..];
    assert u == b + more;
    ScanStable(l, b, more);
  }

  // Lexing the whole text u from state l, of which known bytes are certain to be
  // in the buffer: every token up to the first that has to wait for the end of the
  // text is settled by what is then known. What a token needed to be found stays
  // known behind it.
  predicate Steady(l: Level, u: seq<byte>, known: nat)
    requires Linked(l) && known <= |u|
    decreases |u|
  {
    || u == []
    || Scan(l, u, false).advance == 0
    || var m := Max(known, Need(l, u, 1));
       && Settled(l, u, m)
       && (TokenWithin(l, u, m);
           var w := Scan(l, u, true);
           Steady(w.level, u[w.advance..], m - w.advance))
  }

  // No token is found in less than it needs.
  lemma {:induction false} NeedIsLeast(l: Level, u: seq<byte>, k: nat)
    requires Linked(l) && u != [] && 1 <= k <= |u| && Scan(l, u[..k], false).advance > 0
    ensures Scan(l, u, false).advance > 0 && Need(l, u, 1) <= k
  {
    hide Scan;
    assert u == u[..k] + u[k..];
    ScanStable(l, u[..k], u[k..]);
  }

  lemma MoreKnown(l: Level, u: seq<byte>, k: nat, m: nat)
    requires Linked(l) && Settled(l, u, k) && k <= m
    ensures Settled(l, u, m)
  {
  }

  // ----- Any cut gives the tokens of the whole text -----

  // The state of a scanner that has seen d and asked for more.
  function Waiting(l: Level, d: seq<byte>): (q: Level)
    requires Linked(l)
    ensures Linked(q)
  {
    if d == [] then l else Scan(l, d, false).level
  }

  lemma WaitingScans(l: Level, d: seq<byte>, data: seq<byte>, atEOF: bool)
    requires Linked(l) && d <= data && data != [] && (d != [] ==> Scan(l, d, false).advance == 0)
    ensures Scan(Waiting(l, d), data, atEOF) == Scan(l, data, atEOF)
  {
    hide Scan;
    if d != [] {
      assert data == d + data[|d|..];
      ScanAgain(l, d, data[|d|..], atEOF);
    }
  }

  // One turn of the scanner's loop.
  lemma ScannerTurn(r: Reader, l: Level)
    requires Feasible(r) && Linked(l)
    ensures r.buf == [] && !r.eof ==> ScanToken(r, l) == ScanToken(Fill(r), l)
    ensures r.buf != [] || r.eof ==>
              var split := Scan(l, r.buf, r.eof);
              && (split.advance > 0 ==>
                    ScanToken(r, l)
                    == Scanned(r.(buf := r.buf[split.advance..]), split.level, Some(r.buf[..split.advance])))
              && (split.advance == 0 && r.eof ==> ScanToken(r, l).token == None)
              && (split.advance == 0 && !r.eof ==> ScanToken(r, l) == ScanToken(Fill(r), split.level))
  {
    hide Scan;
  }

  lemma SteadyToken(l: Level, u: seq<byte>, known: nat, k: nat)
    requires Linked(l) && known <= k <= |u| && 1 <= k && Steady(l, u, known) && Scan(l, u[..k], false).advance > 0
    ensures Scan(l, u, false).advance > 0
    ensures var w := Scan(l, u, true); var m := Max(known, Need(l, u, 1));
            && Scan(l, u[..k], false) == w && 1 <= w.advance <= m <= k && Steady(w.level, u[w.advance..], m - w.advance)
  {
    hide Scan, Settled, Need;
    NeedIsLeast(l, u, k);
    var m := Max(known, Need(l, u, 1));
    MoreKnown(l, u, m, k);
    TokenWithin(l, u, k);
    TokenWithin(l, u, m);
  }

  lemma WaitingIs(l: Level, d: seq<byte>)
    requires Linked(l) && d != []
    ensures Waiting(l, d) == Scan(l, d, false).level
  {
  }

  lemma BufferIsFront(r: Reader)
    ensures |r.buf| <= |Unread(r)| && Unread(r)[..|r.buf|] == r.buf
  {
  }

  lemma BufferCut(r: Reader, n: nat)
    requires n <= |r.buf|
    ensures Unread(r)[..n] == r.buf[..n] && Unread(r.(buf := r.buf[n..])) == Unread(r)[n..]
  {
  }

  lemma Empty(l: Level)
    requires Linked(l)
    ensures Scan(l, [], true) == Split(l, 0)
  {
  }

  // The scanner finds the token that the whole rest has at its front, and knows
  // as much afterwards as Steady says.
  lemma {:induction false} ScanTokenIsWhole(r: Reader, l: Level, d: seq<byte>, known: nat) returns (left: nat)
    requires Feasible(r) && Linked(l) && d <= r.buf && (d != [] ==> Scan(l, d, false).advance == 0)
    requires known <= |r.buf| && (r.eof || Steady(l, Unread(r), known))
    ensures var s, u := ScanToken(r, Waiting(l, d)), Unread(r);
            if u == [] then s.token == None
            else
              var w := Scan(l, u, true);
              && s.token == Some(u[..w.advance]) && s.level == w.level && Unread(s.reader) == u[w.advance..]
              && left <= |s.reader.buf| && (s.reader.eof || Steady(w.level, u[w.advance..], left))
    decreases |r.chunks|, !r.eof
  {
    hide Scan, Settled, Need, Steady, ScanToken, Waiting;
    left := 0;
    var q, u := Waiting(l, d), Unread(r);
    ScannerTurn(r, q);
    if r.eof {
      assert u == r.buf;
      if u != [] {
        WaitingScans(l, d, u, true);
        ProgressAtEOF(l, u);
      } else {
        Empty(q);
      }
    } else if r.buf == [] {
      FillConserves(r);
      left := ScanTokenIsWhole(Fill(r), l, d, known);
    } else {
      WaitingScans(l, d, r.buf, false);
      BufferIsFront(r);
      var split := Scan(l, r.buf, false);
      if split.advance > 0 {
        SteadyToken(l, u, known, |r.buf|);
        left := Max(known, Need(l, u, 1)) - split.advance;
        BufferCut(r, split.advance);
      } else {
        FillConserves(r);
        WaitingIs(l, r.buf);
        left := ScanTokenIsWhole(Fill(r), l, r.buf, known);
      }
    }
  }

  // What is seen of the text when it is all at hand and known to be all.
  function Whole(l: Level, u: seq<byte>): seq<Seen>
    requires Linked(l)
  {
    Run(Lexer(Reader(u, [], false, true), l, false, []))
  }

  // Two decoders in the same state with the same text before them, the second
  // with all of it at hand.
  predicate Alike(x: Lexer, y: Lexer) {
    && Ready(x) && Ready(y) && x.level == y.level && x.insertBlockClose == y.insertBlockClose
    && Unread(x.reader) == Unread(y.reader) && y.reader.eof && (x.insertBlockClose ==> x.bytes == y.bytes)
  }

  lemma {:induction false} KeepsEOF(r: Reader, l: Level)
    requires Feasible(r) && Linked(l) && r.eof
    ensures ScanToken(r, l).reader.eof
  {
  }

  lemma {:induction false} RunIsWhole(x: Lexer, y: Lexer, known: nat)
    requires Alike(x, y) && known <= |x.reader.buf|
    requires x.reader.eof || Steady(x.level, Unread(x.reader), known)
    ensures Run(x) == Run(y)
    decreases |Unread(x.reader)|, x.insertBlockClose
  {
    hide Steady, Scan, ScanToken;
    NextConserves(x);
    NextConserves(y);
    var s, t := Next(x), Next(y);
    var left := known;
    if !x.insertBlockClose {
      left := ScanTokenIsWhole(x.reader, x.level, [], known);
      var rest := ScanTokenIsWhole(y.reader, y.level, [], 0);
      KeepsEOF(y.reader, y.level);
    }
    if s.token.Some? {
      RunIsWhole(s.lexer, t.lexer, left);
    }
  }

  // ----- One byte at a time -----

  function Bytewise(u: seq<byte>): (chunks: seq<seq<byte>>)
    ensures |chunks| == |u| && forall i | 0 <= i < |chunks| :: chunks[i] != []
    ensures Flatten(chunks) == u
  {
    if u == [] then [] else [[u[0]]] + Bytewise(u[1..])
  }

  // A reader that has read k bytes and goes on byte by byte.
  function Slow(u: seq<byte>, k: nat): (r: Reader)
    requires k <= |u|
    ensures Feasible(r) && Unread(r) == u
  {
    assert u == u[..k] + u[k..];
    Reader(u[..k], Bytewise(u[k..]), false, false)
  }

  lemma FillSlow(u: seq<byte>, k: nat)
    requires k < |u|
    ensures Fill(Slow(u, k)) == Slow(u, k + 1)
  {
    assert u[k..][1..] == u[k + 1..] && u[..k] + [u[k]] == u[..k + 1];
    assert Bytewise(u[k..]) == [[u[k]]] + Bytewise(u[k + 1..]);
  }

  lemma AllOf(u: seq<byte>, m: nat)
    requires m <= |u|
    ensures |u[..m]| == m
  {
  }

  lemma SlowIs(u: seq<byte>, k: nat)
    requires k <= |u|
    ensures Slow(u, k).buf == u[..k] && !Slow(u, k).eof
  {
  }

  lemma SlowCut(u: seq<byte>, k: nat, a: nat)
    requires a <= k <= |u|
    ensures var r := Slow(u, k); r.(buf := r.buf[a..]) == Slow(u[a..], k - a) && r.buf[..a] == u[..a]
  {
    assert u[a..][..k - a] == u[..k][a..] && u[a..][k - a..] == u[k..] && u[..k][..a] == u[..a];
  }

  lemma {:induction false} SlowHit(l: Level, d: seq<byte>, u: seq<byte>, k: nat)
    requires Linked(l) && 1 <= k <= |u| && Scan(l, u, false).advance > 0 && Scan(l, u[..k], false).advance > 0
    requires d <= u[..k] && (d != [] ==> Scan(l, d, false).advance == 0)
    ensures var split := Scan(l, u[..k], false);
            && Max(k, Need(l, u, 1)) == k && split.advance <= k
            && ScanToken(Slow(u, k), Waiting(l, d))
              == Scanned(Slow(u[split.advance..], k - split.advance), split.level, Some(u[..split.advance]))
  {
    hide Scan, Need, ScanToken, Waiting, Slow;
    AllOf(u, k);
    SlowIs(u, k);
    ScannerTurn(Slow(u, k), Waiting(l, d));
    WaitingScans(l, d, u[..k], false);
    NeedIsLeast(l, u, k);
    SlowCut(u, k, Scan(l, u[..k], false).advance);
  }

  lemma {:induction false} NeedIsMore(l: Level, u: seq<byte>, k: nat)
    requires Linked(l) && 1 <= k <= |u| && Scan(l, u, false).advance > 0 && Scan(l, u[..k], false).advance == 0
    ensures Need(l, u, 1) > k
  {
    hide Scan;
    if Need(l, u, 1) <= k { TokenWithin(l, u, k); }
  }

  lemma SlowTurn(l: Level, d: seq<byte>, u: seq<byte>, k: nat)
    requires Linked(l) && 1 <= k < |u| && Scan(l, u[..k], false).advance == 0
    requires d <= u[..k] && (d != [] ==> Scan(l, d, false).advance == 0)
    ensures ScanToken(Slow(u, k), Waiting(l, d)) == ScanToken(Slow(u, k + 1), Waiting(l, u[..k]))
  {
    hide Scan, ScanToken, Waiting, Slow, Unread, Fill, Linked;
    AllOf(u, k);
    SlowIs(u, k);
    ScannerTurn(Slow(u, k), Waiting(l, d));
    WaitingScans(l, d, u[..k], false);
    FillSlow(u, k);
    WaitingIs(l, u[..k]);
  }

  lemma SlowStart(l: Level, d: seq<byte>, u: seq<byte>)
    requires Linked(l) && u != [] && d == []
    ensures ScanToken(Slow(u, 0), Waiting(l, d)) == ScanToken(Slow(u, 1), Waiting(l, d))
  {
    hide Scan, ScanToken, Unread, Fill, Linked;
    SlowIs(u, 0);
    ScannerTurn(Slow(u, 0), l);
    FillSlow(u, 0);
  }

  // Reading byte by byte, a token is found with the least buffer that shows it.
  lemma {:induction false} SlowToken(l: Level, d: seq<byte>, u: seq<byte>, k: nat)
    requires Linked(l) && k <= |u| && u != [] && Scan(l, u, false).advance > 0
    requires d <= u[..k] && (d != [] ==> Scan(l, d, false).advance == 0)
    ensures var m := Max(k, Need(l, u, 1));
            var split := Scan(l, u[..m], false);
            && 1 <= split.advance <= m
            && ScanToken(Slow(u, k), Waiting(l, d))
               == Scanned(Slow(u[split.advance..], m - split.advance), split.level, Some(u[..split.advance]))
    decreases |u| - k
  {
    hide Scan, Need, ScanToken, Waiting, Slow, Unread, Linked, Settled;
    var m := Max(k, Need(l, u, 1));
    TokenWithin(l, u, m);
    AllOf(u, m);
    if k == 0 {
      SlowStart(l, d, u);
      SlowToken(l, d, u, 1);
    } else if Scan(l, u[..k], false).advance > 0 {
      SlowHit(l, d, u, k);
    } else {
      NeedIsMore(l, u, k);
      SlowTurn(l, d, u, k);
      SlowToken(l, u[..k], u, k + 1);
    }
  }

  // ----- Tokens of the scanner alone -----

  function Tokens(r: Reader, l: Level): seq<seq<byte>>
    requires Feasible(r) && Linked(l)
    decreases |Unread(r)|
  {
    ScanTokenConserves(r, l);
    var s := ScanToken(r, l);
    if s.token.None? then [] else [s.token.value] + Tokens(s.reader, s.level)
  }

  // The tokens with data; inserted ones have none.
  function Data(out: seq<Seen>): seq<seq<byte>> {
    if out == [] then [] else (if out[0].token.data == [] then [] else [out[0].token.data]) + Data(out[1..])
  }

  lemma {:induction false} RunShowsTokens(x: Lexer)
    requires Ready(x) && (x.insertBlockClose ==> x.bytes != [])
    ensures Data(Run(x)) == (if x.insertBlockClose then [x.bytes] else []) + Tokens(x.reader, x.level)
    decreases |Unread(x.reader)|, x.insertBlockClose
  {
    hide ScanToken, Scan;
    NextConserves(x);
    if !x.insertBlockClose { ScanTokenConserves(x.reader, x.level); }
    var s := Next(x);
    if s.token.Some? {
      RunShowsTokens(s.lexer);
      assert Run(x)[1..] == Run(s.lexer);
    }
  }

  lemma WholeToken(l: Level, u: seq<byte>)
    requires Linked(l) && u != []
    ensures var w := Scan(l, u, true);
            && w.advance >= 1
            && ScanToken(Reader(u, [], false, true), l)
              == Scanned(Reader(u[w.advance..], [], false, true), w.level, Some(u[..w.advance]))
  {
    hide Scan;
    ProgressAtEOF(l, u);
  }

  // An unsettled token shows when the text is read byte by byte.
  lemma {:induction false} SlowTokensDiffer(l: Level, u: seq<byte>, k: nat)
    requires Linked(l) && k <= |u| && !Steady(l, u, k)
    ensures Tokens(Slow(u, k), l) != Tokens(Reader(u, [], false, true), l)
    decreases |u|
  {
    hide Scan, Settled, Need, ScanToken;
    var whole := Reader(u, [], false, true);
    var m := Max(k, Need(l, u, 1));
    SlowToken(l, [], u, k);
    TokenWithin(l, u, m);
    ProgressAtEOF(l, u);
    var split, w := Scan(l, u[..m], false), Scan(l, u, true);
    WholeToken(l, u);
    if Settled(l, u, m) {
      SlowTokensDiffer(w.level, u[w.advance..], m - w.advance);
      assert Tokens(Slow(u, k), l)[1..] == Tokens(Slow(u[w.advance..], m - w.advance), w.level);
      assert Tokens(whole, l)[1..] == Tokens(Reader(u[w.advance..], [], false, true), w.level);
    } else {
      assert Tokens(Slow(u, k), l)[0] == u[..split.advance];
      assert Tokens(whole, l)[0] == u[..w.advance];
    }
  }

  // ----- The theorem -----

  // However u is cut into reads, the same is seen.
  ghost predicate CutFree(u: seq<byte>) {
    forall chunks: seq<seq<byte>>, lastWithEOF: bool |
      (forall i | 0 <= i < |chunks| :: chunks[i] != []) && Flatten(chunks) == u ::
      Run(Start(chunks, lastWithEOF)) == Whole(FRESH, u)
  }

  lemma SteadyCut(u: seq<byte>, chunks: seq<seq<byte>>, lastWithEOF: bool)
    requires Steady(FRESH, u, 0) && (forall i | 0 <= i < |chunks| :: chunks[i] != []) && Flatten(chunks) == u
    ensures Run(Start(chunks, lastWithEOF)) == Whole(FRESH, u)
  {
    hide Steady, Run;
    var y := Lexer(Reader(u, [], false, true), FRESH, false, []);
    var x := Start(chunks, lastWithEOF);
    assert Flatten([]) == [] && Unread(y.reader) == u && Unread(x.reader) == u;
    RunIsWhole(x, y, 0);
  }

  lemma SlowCutDiffers(u: seq<byte>)
    requires !Steady(FRESH, u, 0)
    ensures Run(Start(Bytewise(u), false)) != Whole(FRESH, u)
  {
    hide Steady, Run, Tokens;
    var y := Lexer(Reader(u, [], false, true), FRESH, false, []);
    var x := Start(Bytewise(u), false);
    assert u[..0] == [] && u[0..] == u;
    assert x.reader == Slow(u, 0);
    SlowTokensDiffer(FRESH, u, 0);
    RunShowsTokens(x);
    RunShowsTokens(y);
    assert [] + Tokens(x.reader, FRESH) == Tokens(x.reader, FRESH)
      && [] + Tokens(y.reader, FRESH) == Tokens(y.reader, FRESH);
  }

  // Tokens, styles and quotation depths are the same for every cut of the text if
  // and only if the text is steady; and if they are for reading byte by byte, they
  // are for every cut.
  lemma ChunksDoNotMatter(u: seq<byte>)
    ensures Steady(FRESH, u, 0) <==> CutFree(u)
    ensures Steady(FRESH, u, 0) <==> Run(Start(Bytewise(u), false)) == Whole(FRESH, u)
  {
    hide Steady, Run, Whole;
    if Steady(FRESH, u, 0) {
      forall chunks: seq<seq<byte>>, lastWithEOF: bool |
        (forall i | 0 <= i < |chunks| :: chunks[i] != []) && Flatten(chunks) == u
        ensures Run(Start(chunks, lastWithEOF)) == Whole(FRESH, u)
      {
        SteadyCut(u, chunks, lastWithEOF);
      }
    } else {
      SlowCutDiffers(u);
    }
  }

  // ----- Texts that are steady -----

  // No code fence anywhere, and no '>' with white space behind it.
  predicate Unmarked(u: seq<byte>) {
    && (forall i | 0 <= i < |u| :: !HasFence(u[i..]))
    && (forall i | 0 <= i < |u| && u[i] == GREATER :: QuoteMarker(u[i..]) == 1)
  }

  // No level is inside a preformatted block.
  predicate NoBlock(l: Level) { BlockPre !in l.mask && (l.quoteSplit.Some? ==> NoBlock(l.quoteSplit.value)) }

  lemma {:induction false} ForgetKeepsNoBlock(l: Level)
    requires NoBlock(l)
    ensures NoBlock(Forget(l))
  {
    if l.quoteSplit.Some? { ForgetKeepsNoBlock(l.quoteSplit.value); }
  }

  lemma SpansAreNoBlock(p: Level, u: seq<byte>, atEOF: bool)
    ensures var q := ScanSpan(p, u, atEOF).level;
            q.quoteSplit == p.quoteSplit && (BlockPre in q.mask <==> BlockPre in p.mask)
  {
    hide FindSpan;
  }

  lemma {:induction false} ScanKeepsNoBlock(l: Level, u: seq<byte>, atEOF: bool)
    requires Linked(l) && NoBlock(l) && u != [] && !HasFence(u)
    ensures NoBlock(Scan(l, u, atEOF).level) && BlockPre !in Inner(l).mask
    decreases Depth(l)
  {
    hide ScanSpan, HasFence, QuoteMarker;
    if l.lastNewline { ForgetKeepsNoBlock(l); }
    var p := Prepare(l);
    assert NoBlock(p);
    SpansAreNoBlock(p, u, atEOF);
    SpansAreNoBlock(p.(quoteSplit := None, hasRun := true), u, atEOF);
    if p.spanStack == [] && p.quoteStarted {
      ScanKeepsNoBlock(p.quoteSplit.value, u, atEOF);
    }
  }

  lemma {:induction false} UnmarkedIsSteady(l: Level, u: seq<byte>, known: nat)
    requires Linked(l) && NoBlock(l) && known <= |u| && Unmarked(u)
    ensures Steady(l, u, known)
    decreases |u|
  {
    hide Scan, Need, HasFence, QuoteMarker;
    if u != [] && Scan(l, u, false).advance > 0 {
      assert u[0..] == u;
      ScanKeepsNoBlock(l, u, true);
      var m := Max(known, Need(l, u, 1));
      assert QuoteMarker(u) <= 1 by { MarkerShorter(u, 1); }
      TokenWithin(l, u, m);
      var w := Scan(l, u, true);
      var rest := u[w.advance..];
      forall i | 0 <= i < |rest| ensures rest[i..] == u[w.advance + i..] {}
      UnmarkedIsSteady(w.level, rest, m - w.advance);
    }
  }

  // For such a text no cut matters, quotations at any depth included.
  lemma UnmarkedIsCutFree(u: seq<byte>)
    requires Unmarked(u)
    ensures CutFree(u)
  {
    hide CutFree, Steady, Unmarked;
    UnmarkedIsSteady(FRESH, u, 0);
    ChunksDoNotMatter(u);
  }
}
