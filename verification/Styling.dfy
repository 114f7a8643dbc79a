// The message styling decoder with its state updated in place: a chain of
// decoders on the heap, one per quotation level, driven by a buffering scanner.
module Styling {
  import opened Wrappers
  import opened Utf8
  import M = StylingModel
  import C = StylingConservation
  import K = StylingSkip

  // The part of bufio.Scanner the decoder relies on: a buffer, the reads still
  // to come, and the token found last.
  class Source {
    var buf: seq<byte>
    var chunks: seq<seq<byte>>
    var lastWithEOF: bool
    var eof: bool
    var bytes: seq<byte>

    constructor (chunks: seq<seq<byte>>, lastWithEOF: bool)
      ensures Abs() == M.Reader([], chunks, lastWithEOF, false) && bytes == []
    {
      this.buf, this.chunks, this.lastWithEOF, this.eof, this.bytes := [], chunks, lastWithEOF, false, [];
    }

    function Abs(): M.Reader
      reads this
    {
      M.Reader(buf, chunks, lastWithEOF, eof)
    }

    // One read from the underlying reader.
    method Fill()
      requires M.Feasible(Abs()) && !eof
      modifies this
      ensures Abs() == M.Fill(old(Abs())) && bytes == old(bytes)
    {
      if |chunks| == 0 {
        eof := true;
      } else {
        buf := buf + chunks[0];
        eof := |chunks| == 1 && lastWithEOF;
        chunks := chunks[1..];
      }
    }
  }

  class Decoder {
    var clearMask: M.Style
    var mask: M.Style
    var quoteSplit: Decoder?
    var quoteStarted: bool
    var lastNewline: bool
    var hasRun: bool
    var spanStack: seq<byte>
    var s: Source?
    var insertBlockClose: bool
    var bufferedToken: Option<M.Token>
    ghost var Repr: set<Decoder>

    // This decoder and those of the quotation levels inside it are distinct.
    ghost predicate ValidLevel()
      reads this, Repr
      ensures ValidLevel() ==> this in Repr
      decreases Repr
    {
      && this in Repr
      && (if quoteSplit == null then Repr == {this}
          else
            && quoteSplit in Repr && quoteSplit.Repr == Repr - {this}
            && quoteSplit.ValidLevel() && !quoteSplit.insertBlockClose)
    }

    ghost function View(): M.Level
      requires ValidLevel()
      reads this, Repr
      decreases Repr
    {
      M.Level(mask, clearMask, quoteStarted, lastNewline, hasRun, spanStack,
              if quoteSplit == null then None else Some(quoteSplit.View()))
    }

    // The decoder of an inner quotation level.
    constructor Inner()
      ensures ValidLevel() && fresh(Repr) && View() == M.FRESH && !insertBlockClose
    {
      clearMask, mask, spanStack := {}, {}, [];
      quoteStarted, lastNewline, hasRun, insertBlockClose := false, false, false, false;
      quoteSplit, s, bufferedToken := null, null, None;
      Repr := {this};
    }

    constructor (input: Source)
      requires M.Feasible(input.Abs())
      ensures Valid() && s == input && fresh(Repr)
      ensures Abs() == M.Lexer(input.Abs(), M.FRESH, false, input.bytes)
    {
      clearMask, mask, spanStack := {}, {}, [];
      quoteStarted, lastNewline, hasRun, insertBlockClose := false, false, false, false;
      quoteSplit, s, bufferedToken := null, input, None;
      Repr := {this};
    }

    // ----- The split function -----

    method StartsBlockQuote(data: seq<byte>) returns (l: nat)
      ensures l == M.QuoteMarker(data)
    {
      if |data| == 0 || data[0] != M.GREATER { return 0; }
      var rest := data[1..];
      l := 1;
      while |rest| > 0
        invariant 1 <= l <= |data| && rest == data[l..]
        invariant M.SpacesFrom(data, l) == M.SpacesFrom(data, 1)
        decreases |rest|
      {
        var d := Decode(rest);
        if !IsSpace(d.rune) { return l; }
        l := l + d.size;
        rest := rest[d.size..];
      }
    }

    method IndexNewline(data: seq<byte>) returns (r: int)
      ensures r == M.NewlineFrom(data, 0)
    {
      r := 0;
      while r < |data|
        invariant 0 <= r <= |data| && M.NewlineFrom(data, 0) == M.NewlineFrom(data, r)
      {
        if data[r] == M.NEWLINE { return; }
        r := r + 1;
      }
      r := -1;
    }

    // The walk over the buffer for the next span directive.
    static method FindSpan(spanStack: seq<byte>, inPre: bool, data: seq<byte>) returns (h: M.Hit)
      ensures h == M.FindSpan(spanStack, inPre, data, 0, -1)
    {
      var startIDX := -1;
      var startDirective: byte := 0;
      var i := 0;
      while i < |data|
        invariant 0 <= i <= |data| && -1 <= startIDX && (startIDX < i || (i == 0 && startIDX == -1))
        invariant startDirective == if startIDX == -1 then 0 else data[startIDX]
        invariant M.FindSpan(spanStack, inPre, data, i, startIDX) == M.FindSpan(spanStack, inPre, data, 0, -1)
      {
        var b := data[i];
        if b == M.NEWLINE {
          return M.Text(i + 1);
        }
        if b != M.STAR && b != M.UNDERSCORE && b != M.BACKTICK && b != M.TILDE {
          i := i + 1;
          continue;
        }
        var nextSpace := IsSpace(Decode(data[i + 1..]).rune);
        var prevSpace := IsSpace(DecodeLast(data[..i]).rune);
        if |spanStack| > 0 && b == spanStack[|spanStack| - 1] {
          return if i == 0 then M.Closer(b) else M.Text(i);
        } else if startIDX == -1 && !inPre {
          if (i == 0 || prevSpace) && !nextSpace {
            if !(|data| > i + 1 && data[i + 1] == b) {
              startIDX, startDirective := i, b;
            }
          }
        } else if b == startDirective && !prevSpace && i > startIDX + 1 {
          return if startIDX > 0 then M.Text(startIDX) else M.Opener(b);
        }
        i := i + 1;
      }
      return M.Miss;
    }

    method ScanSpan(data: seq<byte>, atEOF: bool) returns (advance: nat, token: seq<byte>)
      requires ValidLevel()
      modifies this`mask, this`clearMask, this`spanStack
      ensures ValidLevel() && M.Split(View(), advance) == M.ScanSpan(old(View()), data, atEOF)
              && token == data[..advance]
    {
      hide M.FindSpan;
      var hit := FindSpan(spanStack, M.SpanPre in mask, data);
      match hit {
        case Text(n) =>
          return n, data[..n];
        case Closer(b) =>
          mask := mask + {M.EndFlag(b)};
          clearMask := clearMask + {M.SpanFlag(b), M.EndFlag(b)};
          spanStack := spanStack[..|spanStack| - 1];
          return 1, data[0..1];
        case Opener(b) =>
          spanStack := spanStack + [b];
          mask := mask + {M.SpanFlag(b), M.StartFlag(b)};
          clearMask := clearMask + {M.StartFlag(b)};
          return 1, data[0..1];
        case Miss =>
          if atEOF {
            return |data|, data;
          }
          return 0, [];
      }
    }

    method ScanPre(data: seq<byte>, atEOF: bool) returns (advance: nat, token: seq<byte>)
      requires ValidLevel()
      modifies this`mask, this`clearMask
      ensures ValidLevel() && M.Split(View(), advance) == M.ScanPre(old(View()), data, atEOF)
              && token == data[..advance]
    {
      var idx0 := M.HasFence(data);
      if idx0 && !atEOF && |data| == |M.FENCE| {
        return 0, [];
      } else if idx0 && (atEOF || (|data| > |M.FENCE| && data[|M.FENCE|] == M.NEWLINE)) {
        mask := mask + {M.BlockPreEnd};
        clearMask := clearMask + {M.BlockPre, M.BlockPreEnd};
        var l := |M.FENCE|;
        if !atEOF { l := l + 1; }
        return l, data[..l];
      }
      if atEOF {
        return |data|, data;
      }
      var newLineIDX := IndexNewline(data);
      if newLineIDX >= 0 {
        return newLineIDX + 1, data[..newLineIDX + 1];
      }
      return 0, [];
    }

    // A level that is not inside a quotation and found no quotation marker.
    method ScanPlain(data: seq<byte>, atEOF: bool) returns (advance: nat, token: seq<byte>)
      requires ValidLevel()
      modifies this`mask, this`clearMask, this`spanStack
      ensures ValidLevel() && M.Split(View(), advance) == M.ScanPlain(old(View()), data, atEOF)
              && token == data[..advance]
    {
      var newLineIDX := IndexNewline(data);
      if M.HasFence(data) {
        if newLineIDX > 0 {
          mask := mask + {M.BlockPre, M.BlockPreStart};
          clearMask := clearMask + {M.BlockPreStart};
          return newLineIDX + 1, data[..newLineIDX + 1];
        } else if atEOF {
          mask := mask + {M.BlockPre, M.BlockPreStart};
          clearMask := clearMask + {M.BlockPreStart};
          return |data|, data;
        } else if newLineIDX == -1 {
          return 0, [];
        }
      }
      advance, token := ScanSpan(data, atEOF);
    }

    // What the split function leaves alone.
    twostate predicate CallerFieldsKept()
      reads this
    {
      s == old(s) && insertBlockClose == old(insertBlockClose) && bufferedToken == old(bufferedToken)
    }

    // Every decoder of the chain forgets that it was entered.
    method ForgetQuotes()
      requires ValidLevel()
      modifies Repr
      ensures ValidLevel() && Repr == old(Repr) && View() == M.Forget(old(View()))
      ensures CallerFieldsKept()
      decreases Repr
    {
      quoteStarted := false;
      hasRun := false;
      if quoteSplit != null {
        quoteSplit.ForgetQuotes();
      }
    }

    method Prepare()
      requires ValidLevel()
      modifies Repr
      ensures ValidLevel() && Repr == old(Repr) && View() == M.Prepare(old(View()))
      ensures CallerFieldsKept()
    {
      if lastNewline {
        ForgetQuotes();
        mask := mask - {M.BlockQuote};
        lastNewline := false;
      }
      mask := mask - clearMask;
      clearMask := {};
    }

    // The split function.
    method Scan(data: seq<byte>, atEOF: bool) returns (advance: nat, token: seq<byte>)
      requires ValidLevel() && M.Linked(View())
      modifies Repr
      ensures ValidLevel() && fresh(Repr - old(Repr))
      ensures M.Split(View(), advance) == M.Scan(old(View()), data, atEOF) && token == data[..advance]
      ensures CallerFieldsKept()
      decreases Repr, 2
    {
      hide M.Dispatch, M.Prepare;
      if atEOF && |data| == 0 {
        return 0, [];
      }
      Prepare();
      advance, token := Dispatch(data, atEOF);
      if |token| > 0 && token[|token| - 1] == M.NEWLINE {
        lastNewline := true;
      }
    }

    // Consume a quotation marker; the decoder of the quoted text is made once.
    method EnterQuote()
      requires ValidLevel()
      modifies this
      ensures ValidLevel() && fresh(Repr - old(Repr)) && View() == M.StartQuote(old(View()))
      ensures CallerFieldsKept()
    {
      mask := mask + {M.BlockQuote, M.BlockQuoteStart};
      clearMask := clearMask + {M.BlockQuoteStart};
      if quoteSplit == null {
        quoteSplit := new Decoder.Inner();
        Repr := Repr + quoteSplit.Repr;
      }
      quoteStarted := true;
      hasRun := true;
    }

    // Inside an entered quotation the inner decoder handles the call.
    method Delegate(data: seq<byte>, atEOF: bool) returns (advance: nat, token: seq<byte>)
      requires ValidLevel() && M.Linked(View()) && quoteStarted
      modifies Repr
      ensures ValidLevel() && fresh(Repr - old(Repr))
      ensures var inner := M.Scan(old(View()).quoteSplit.value, data, atEOF);
              View() == old(View()).(quoteSplit := Some(inner.level)) && advance == inner.advance
                && token == data[..advance]
      ensures CallerFieldsKept()
      decreases Repr, 0
    {
      hide M.Scan;
      advance, token := quoteSplit.Scan(data, atEOF);
      Repr := {this} + quoteSplit.Repr;
    }

    method Dispatch(data: seq<byte>, atEOF: bool) returns (advance: nat, token: seq<byte>)
      requires ValidLevel() && M.Linked(View())
      modifies Repr
      ensures ValidLevel() && fresh(Repr - old(Repr))
      ensures M.Split(View(), advance) == M.Dispatch(old(View()), data, atEOF) && token == data[..advance]
      ensures CallerFieldsKept()
      decreases Repr, 1
    {
      hide M.ScanSpan, M.ScanPre, M.ScanPlain, M.Scan;
      if |spanStack| > 0 {
        advance, token := ScanSpan(data, atEOF);
        return;
      } else if M.BlockPre in mask {
        hasRun := true;
        advance, token := ScanPre(data, atEOF);
        return;
      }
      var l := StartsBlockQuote(data);
      if l > 0 && !quoteStarted {
        EnterQuote();
        return l, data[..l];
      } else if quoteStarted {
        advance, token := Delegate(data, atEOF);
        return;
      }
      quoteSplit := null;
      Repr := {this};
      hasRun := true;
      advance, token := ScanPlain(data, atEOF);
    }

    // ----- The decoder a caller uses: the outermost level -----

    ghost predicate Valid()
      reads this, s, Repr
    {
      ValidLevel() && s != null && M.Linked(View()) && M.Feasible(s.Abs())
    }

    ghost function Abs(): M.Lexer
      requires Valid()
      reads this, s, Repr
    {
      M.Lexer(s.Abs(), View(), insertBlockClose, s.bytes)
    }

    // bufio.Scanner.Scan with this decoder's split function.
    method ScanInput() returns (ok: bool)
      requires Valid()
      modifies this, s, Repr
      ensures Valid() && s == old(s) && fresh(Repr - old(Repr))
      ensures var r := M.ScanToken(old(s.Abs()), old(View()));
              && s.Abs() == r.reader && View() == r.level && ok == r.token.Some?
              && s.bytes == (if ok then r.token.value else [])
      ensures insertBlockClose == old(insertBlockClose) && bufferedToken == old(bufferedToken)
    {
      hide M.Scan, M.Linked, View, ValidLevel;
      while true
        invariant Valid() && s == old(s) && fresh(Repr - old(Repr))
        invariant insertBlockClose == old(insertBlockClose) && bufferedToken == old(bufferedToken)
        invariant M.ScanToken(s.Abs(), View()) == M.ScanToken(old(s.Abs()), old(View()))
        decreases |s.chunks|, !s.eof
      {
        if |s.buf| > 0 || s.eof {
          var advance, token;
          advance, token := Scan(s.buf, s.eof);
          if advance > 0 {
            s.bytes := token;
            s.buf := s.buf[advance..];
            return true;
          }
          if s.eof {
            s.bytes := [];
            s.buf := [];
            return false;
          }
        }
        s.Fill();
      }
    }

    // Quotation depth: the entered levels, and one more while a virtual token
    // is being shown.
    method Quote() returns (level: nat)
      requires ValidLevel() && M.Linked(View())
      ensures level == M.Quote(View()) + if insertBlockClose then 1 else 0
      decreases Repr
    {
      level := 0;
      if quoteStarted {
        level := quoteSplit.Quote();
        level := 1 + level;
      }
      if insertBlockClose {
        level := level + 1;
      }
    }

    method Style() returns (style: M.Style)
      requires ValidLevel()
      ensures style == if insertBlockClose then {M.BlockQuoteEnd, M.BlockQuote} else M.StyleOf(View())
      decreases Repr
    {
      if insertBlockClose {
        return {M.BlockQuoteEnd, M.BlockQuote};
      }
      if hasRun {
        if quoteSplit != null {
          style := quoteSplit.Style();
          return mask + style;
        }
        return mask;
      }
      return {};
    }

    // Put a token where Token finds it; hold says whether the scanner's token
    // is still to be handed out after it.
    method Offer(t: M.Token, hold: bool)
      requires Valid()
      modifies this`insertBlockClose, this`bufferedToken
      ensures Valid() && View() == old(View()) && insertBlockClose == hold && bufferedToken == Some(t)
    {
      insertBlockClose := hold;
      bufferedToken := Some(t);
    }

    // The text between a code fence and the end of its line.
    static method FenceInfo(style: M.Style, data: seq<byte>) returns (info: Option<seq<byte>>)
      ensures info == M.InfoOf(style, data)
    {
      var newlineLen := 0;
      if |data| > 0 && data[|data| - 1] == M.NEWLINE {
        newlineLen := 1;
      }
      info := None;
      if M.BlockPreStart in style && |data| > |M.FENCE| + newlineLen {
        info := Some(data[|M.FENCE|..|data| - newlineLen]);
      }
    }

    method Next() returns (ok: bool)
      requires Valid()
      modifies this, s, Repr
      ensures Valid() && s == old(s) && fresh(Repr - old(Repr))
      ensures var r := M.Next(old(Abs()));
              Abs() == r.lexer && ok == r.token.Some? && (ok ==> bufferedToken == r.token)
    {
      hide M.ScanToken, M.StyleOf, M.Quote, M.Linked, M.InfoOf, M.Feasible;
      if insertBlockClose {
        Offer(M.Token(s.bytes, None), false);
        return true;
      }
      var prevLevel := Quote();
      ok := ScanInput();
      if !ok {
        return false;
      }
      var style := Style();
      var info := FenceInfo(style, s.bytes);
      var currLevel := Quote();
      if currLevel < prevLevel {
        Offer(M.VIRTUAL, true);
      } else {
        Offer(M.Token(s.bytes, info), false);
      }
      return true;
    }

    // The token found by the last call to Next.
    method Token() returns (t: M.Token)
      requires Valid() && bufferedToken.Some?
      modifies this`bufferedToken
      ensures Valid() && View() == old(View())
      ensures t == old(bufferedToken).value && bufferedToken.None?
    {
      t := bufferedToken.value;
      bufferedToken := None;
    }

    // Whether the token just read goes down into, or ends, a span or block.
    method KindOfLast(spans: bool, prevLevel: nat) returns (kind: K.Kind)
      requires Valid()
      ensures kind == K.KindOf(spans, prevLevel, Abs())
    {
      var style := Style();
      var quote := Quote();
      var starts, ends := if spans then K.STARTS else K.BLOCK_STARTS, if spans then K.ENDS else K.BLOCK_ENDS;
      if style * (starts - {M.BlockQuoteStart}) != {} || (M.BlockQuoteStart in style && quote > prevLevel) {
        return K.Down;
      } else if style * ends != {} || (style == {} && lastNewline) {
        return K.Up;
      }
      return K.Same;
    }

    // Pop one token and say what it does to the nesting.
    method Pop(spans: bool) returns (more: bool, kind: K.Kind)
      requires Valid()
      modifies this, s, Repr
      ensures Valid() && s == old(s) && fresh(Repr - old(Repr))
      ensures var r := M.Next(old(Abs()));
              && Abs() == r.lexer && more == r.token.Some?
              && (more ==> kind == K.KindOf(spans, M.LexerQuote(old(Abs())), r.lexer))
    {
      hide M.Next, K.KindOf, M.Feasible;
      kind := K.Same;
      var prevLevel := Quote();
      more := Next();
      if more {
        var t := Token();
        kind := KindOfLast(spans, prevLevel);
      }
    }

    // SkipSpan (spans) and SkipBlock (blocks only): both have this one shape.
    method SkipNested(spans: bool) returns (ok: bool)
      requires Valid()
      modifies this, s, Repr
      ensures Valid() && s == old(s) && fresh(Repr - old(Repr))
      ensures K.Skipped(Abs(), ok) == K.Skip(spans, old(Abs()), 0)
      decreases |M.Unread(Abs().reader)|, Abs().insertBlockClose
    {
      hide M.Next, K.KindOf, M.Linked, M.Feasible, View, ValidLevel, M.Unread;
      while true
        invariant Valid() && s == old(s) && fresh(Repr - old(Repr))
        invariant K.Skip(spans, Abs(), 0) == K.Skip(spans, old(Abs()), 0)
        invariant Abs() == old(Abs()) || C.Shrunk(old(Abs()), Abs())
        decreases |M.Unread(Abs().reader)|, Abs().insertBlockClose
      {
        C.NextConserves(Abs());
        var more, kind := Pop(spans);
        if !more {
          return false;
        } else if kind == K.Down {
          K.SkipInsideOut(spans, Abs(), 0, 0);
          ghost var consumed := K.SkipReadsOn(spans, Abs(), 0);
          var inner := SkipNested(spans);
          if !inner {
            return false;
          }
        } else if kind == K.Up {
          return true;
        }
      }
    }

    method SkipSpan() returns (ok: bool)
      requires Valid()
      modifies this, s, Repr
      ensures Valid() && s == old(s) && fresh(Repr - old(Repr))
      ensures K.Skipped(Abs(), ok) == K.Skip(true, old(Abs()), 0)
    {
      ok := SkipNested(true);
    }

    method SkipBlock() returns (ok: bool)
      requires Valid()
      modifies this, s, Repr
      ensures Valid() && s == old(s) && fresh(Repr - old(Repr))
      ensures K.Skipped(Abs(), ok) == K.Skip(false, old(Abs()), 0)
    {
      ok := SkipNested(false);
    }
  }
}
