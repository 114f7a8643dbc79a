// Nothing is lost, repeated or invented by the styling decoder, however the
// input is cut into reads.
module StylingConservation {
  import opened Wrappers
  import opened Utf8
  import opened StylingModel

  // At the end of the input every call makes progress.
  lemma {:induction false} ProgressAtEOF(l: Level, data: seq<byte>)
    requires Linked(l) && data != []
    ensures Scan(l, data, true).advance >= 1
    decreases Depth(l)
  {
    var p := Prepare(l);
    if p.spanStack == [] && BlockPre !in p.mask && p.quoteStarted {
      ProgressAtEOF(p.quoteSplit.value, data);
    }
  }

  // Reading more never changes what is still unread.
  lemma FillConserves(r: Reader)
    requires Feasible(r) && !r.eof
    ensures Unread(Fill(r)) == Unread(r)
  {
    if r.chunks != [] {
      assert r.buf + (r.chunks[0] + Flatten(r.chunks[1..])) == (r.buf + r.chunks[0]) + Flatten(r.chunks[1..]);
    }
  }

  lemma {:induction false} ScanTokenConserves(r: Reader, l: Level)
    requires Feasible(r) && Linked(l)
    ensures var s := ScanToken(r, l);
            match s.token
            case Some(t) => t != [] && t + Unread(s.reader) == Unread(r)
            case None => Unread(r) == [] && Unread(s.reader) == []
    decreases |r.chunks|, !r.eof
  {
    if r.buf == [] && !r.eof {
      FillConserves(r);
      ScanTokenConserves(Fill(r), l);
    } else {
      var split := Scan(l, r.buf, r.eof);
      var n := split.advance;
      if n > 0 {
        assert r.buf == r.buf[..n] + r.buf[n..];
      } else if r.eof {
        if r.buf != [] { ProgressAtEOF(l, r.buf); }
      } else {
        FillConserves(r);
        ScanTokenConserves(Fill(r), split.level);
      }
    }
  }

  // Input bytes not yet handed out, including a token held back behind a
  // virtual end-of-quotation token.
  function Outstanding(x: Lexer): seq<byte> {
    (if x.insertBlockClose then x.bytes else []) + Unread(x.reader)
  }

  // Progress from x to y: fewer unread bytes, or a held back token handed out.
  predicate Shrunk(x: Lexer, y: Lexer) {
    || |Unread(y.reader)| < |Unread(x.reader)|
    || (|Unread(y.reader)| == |Unread(x.reader)| && x.insertBlockClose && !y.insertBlockClose)
  }

  // Every call to Next either hands out input bytes or, once, an empty token.
  lemma NextConserves(x: Lexer)
    requires Ready(x)
    ensures var s := Next(x);
            match s.token
            case Some(t) =>
              && t.data + Outstanding(s.lexer) == Outstanding(x)
              && Shrunk(x, s.lexer)
            case None => Outstanding(x) == [] && Outstanding(s.lexer) == []
  {
    if !x.insertBlockClose { ScanTokenConserves(x.reader, x.level); }
  }

  // Everything a caller of Next, Token, Style and Quote sees from state x on.
  function Run(x: Lexer): seq<Seen>
    requires Ready(x)
    decreases |Unread(x.reader)|, x.insertBlockClose
  {
    NextConserves(x);
    var s := Next(x);
    if s.token.None? then []
    else [Seen(s.token.value, LexerStyle(s.lexer), LexerQuote(s.lexer))] + Run(s.lexer)
  }

  function Joined(out: seq<Seen>): seq<byte> {
    if out == [] then [] else out[0].token.data + Joined(out[1..])
  }

  lemma {:induction false} RunConserves(x: Lexer)
    requires Ready(x)
    ensures Joined(Run(x)) == Outstanding(x)
    decreases |Unread(x.reader)|, x.insertBlockClose
  {
    NextConserves(x);
    var s := Next(x);
    if s.token.Some? {
      RunConserves(s.lexer);
      var out := Run(x);
      assert out[1..] == Run(s.lexer);
    }
  }

  // For every input and every way of cutting it into reads, the data of all
  // tokens joined together is the input.
  lemma {:induction false} TokensAreTheInput(chunks: seq<seq<byte>>, lastWithEOF: bool)
    requires forall i | 0 <= i < |chunks| :: chunks[i] != []
    ensures Joined(Run(Start(chunks, lastWithEOF))) == Flatten(chunks)
  {
    RunConserves(Start(chunks, lastWithEOF));
  }
}
