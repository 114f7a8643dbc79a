// A token does not depend on how much of the text behind it has been read: the
// split function on a buffer and on a longer one.
module StylingChunks {
  import opened Wrappers
  import opened Utf8
  import opened StylingModel

  // ----- The span scanner does not look past the token it returns -----

  // Whatever is found was decided by an ASCII byte.
  lemma {:induction false} HitIsAscii(stack: seq<byte>, inPre: bool, data: seq<byte>, i: nat, start: int)
    returns (j: nat)
    requires -1 <= start < i <= |data| || (start == -1 && i == 0)
    requires !FindSpan(stack, inPre, data, i, start).Miss?
    ensures i <= j < |data| && data[j] < RUNE_SELF
    decreases |data| - i
  {
    var b := data[i];
    if b == NEWLINE || (IsDirective(b) && stack != [] && b == Top(stack)) {
      j := i;
    } else if !IsDirective(b) {
      j := HitIsAscii(stack, inPre, data, i + 1, start);
    } else if start == -1 && !inPre {
      j := HitIsAscii(stack, inPre, data, i + 1, if MayOpen(data, i) then i else -1);
    } else if start >= 0 && b == data[start] && !PrevSpace(data, i) && i > start + 1 {
      j := i;
    } else {
      j := HitIsAscii(stack, inPre, data, i + 1, start);
    }
  }

  lemma MayOpenStable(data: seq<byte>, more: seq<byte>, i: nat, j: nat)
    requires i < j < |data| && data[j] < RUNE_SELF
    ensures MayOpen(data + more, i) == MayOpen(data, i)
  {
    assert data[i + 1..][j - i - 1] == data[j];
    DecodeStopsAtAscii(data[i + 1..], more, j - i - 1);
    assert (data + more)[i + 1..] == data[i + 1..] + more;
    assert (data + more)[..i] == data[..i];
  }

  lemma {:induction false} FindSpanStable(stack: seq<byte>, inPre: bool, data: seq<byte>, more: seq<byte>, i: nat,
                                          start: int)
    requires -1 <= start < i <= |data| || (start == -1 && i == 0)
    requires !FindSpan(stack, inPre, data, i, start).Miss?
    ensures FindSpan(stack, inPre, data + more, i, start) == FindSpan(stack, inPre, data, i, start)
    decreases |data| - i
  {
    var b := data[i];
    assert (data + more)[..i] == data[..i];
    if b == NEWLINE || (IsDirective(b) && stack != [] && b == Top(stack)) {
    } else if !IsDirective(b) {
      FindSpanStable(stack, inPre, data, more, i + 1, start);
    } else if start == -1 && !inPre {
      var next := if MayOpen(data, i) then i else -1;
      var j := HitIsAscii(stack, inPre, data, i + 1, next);
      MayOpenStable(data, more, i, j);
      FindSpanStable(stack, inPre, data, more, i + 1, next);
    } else if start >= 0 && b == data[start] && !PrevSpace(data, i) && i > start + 1 {
    } else {
      FindSpanStable(stack, inPre, data, more, i + 1, start);
    }
  }

  lemma ScanSpanStable(p: Level, data: seq<byte>, more: seq<byte>, atEOF: bool)
    ensures ScanSpan(p, data, false).advance > 0 ==> ScanSpan(p, data + more, atEOF) == ScanSpan(p, data, false)
    ensures ScanSpan(p, data, false).advance == 0 ==> ScanSpan(p, data, false).level == p
  {
    hide FindSpan;
    if !FindSpan(p.spanStack, SpanPre in p.mask, data, 0, -1).Miss? {
      FindSpanStable(p.spanStack, SpanPre in p.mask, data, more, 0, -1);
    }
  }

  // ----- Fences -----

  lemma FenceBytes(u: seq<byte>)
    ensures HasFence(u) <==> |u| >= 3 && u[0] == BACKTICK && u[1] == BACKTICK && u[2] == BACKTICK
  {
    if |u| >= 3 { assert u[..3] == [u[0], u[1], u[2]]; }
  }

  lemma FenceLonger(data: seq<byte>, more: seq<byte>)
    ensures HasFence(data) ==> HasFence(data + more)
    ensures |data| >= 3 ==> (HasFence(data + more) <==> HasFence(data))
  {
    FenceBytes(data);
    FenceBytes(data + more);
  }

  lemma {:induction false} NewlineLonger(data: seq<byte>, more: seq<byte>, i: nat)
    requires i <= |data|
    ensures NewlineFrom(data, i) != -1 ==> NewlineFrom(data + more, i) == NewlineFrom(data, i)
    decreases |data| - i
  {
    if i < |data| && data[i] != NEWLINE { NewlineLonger(data, more, i + 1); }
  }

  // A fence that has only begun is no token yet.
  lemma BegunFence(p: Level, data: seq<byte>, more: seq<byte>)
    requires p.spanStack == [] && !HasFence(data) && HasFence(data + more)
    ensures ScanSpan(p, data, false).advance == 0
  {
    FenceBytes(data);
    FenceBytes(data + more);
    var inPre := SpanPre in p.mask;
    if |data| == 0 {
    } else if |data| == 1 {
      assert data[0] == (data + more)[0];
      assert FindSpan([], inPre, data, 1, -1).Miss? && FindSpan([], inPre, data, 1, 0).Miss?;
    } else {
      assert data[0] == (data + more)[0] && data[1] == (data + more)[1];
      assert !MayOpen(data, 0);
      assert FindSpan([], inPre, data, 2, -1).Miss? && FindSpan([], inPre, data, 2, 1).Miss?;
      assert FindSpan([], inPre, data, 1, -1).Miss?;
    }
  }

  lemma ScanPlainStable(p: Level, data: seq<byte>, more: seq<byte>, atEOF: bool)
    requires p.spanStack == []
    ensures ScanPlain(p, data, false).advance > 0 ==> ScanPlain(p, data + more, atEOF) == ScanPlain(p, data, false)
    ensures ScanPlain(p, data, false).advance == 0 ==> ScanPlain(p, data, false).level == p
  {
    hide ScanSpan;
    FenceLonger(data, more);
    FenceBytes(data);
    FenceBytes(data + more);
    NewlineLonger(data, more, 0);
    ScanSpanStable(p, data, more, atEOF);
    if !HasFence(data) && HasFence(data + more) { BegunFence(p, data, more); }
  }

  // ----- Preformatted blocks -----

  // Inside a preformatted block the token is the same whether the end of the
  // text is known or not: no line ends in the rest, or the rest is one line and
  // no fence. Knowing the end, the code takes all of the rest, or a bare fence.
  predicate OneLine(u: seq<byte>) {
    var n := NewlineFrom(u, 0);
    n == -1 || (n == |u| - 1 && !HasFence(u))
  }

  lemma ScanPreStable(p: Level, data: seq<byte>, more: seq<byte>)
    requires ScanPre(p, data, false).advance > 0
    ensures ScanPre(p, data + more, false) == ScanPre(p, data, false)
    ensures OneLine(data + more) ==> ScanPre(p, data + more, true) == ScanPre(p, data, false)
    ensures !OneLine(data + more) ==> ScanPre(p, data + more, true).advance != ScanPre(p, data, false).advance
  {
    var u := data + more;
    FenceLonger(data, more);
    FenceBytes(data);
    FenceBytes(u);
    NewlineLonger(data, more, 0);
    if HasFence(data) && data[3] == NEWLINE {
      assert u[3] == NEWLINE && NewlineFrom(u, 0) != -1;
    } else {
      var n := NewlineFrom(data, 0);
      assert n >= 0 && NewlineFrom(u, 0) == n && data[n] == u[n];
      if HasFence(u) { assert n >= 3; }
    }
  }

  // ----- Quotation markers -----

  lemma DecodeShorter(s: seq<byte>, k: nat)
    requires k <= |s|
    ensures IsSpace(Decode(s[..k]).rune) ==> Decode(s[..k]) == Decode(s)
    ensures Decode(s).size <= k && IsSpace(Decode(s).rune) ==> Decode(s[..k]) == Decode(s)
  {
    var t := s[..k];
    assert forall i | 0 <= i < k :: t[i] == s[i];
  }

  // White space behind a marker as far as k bytes show it.
  lemma {:induction false} SpacesShorter(u: seq<byte>, l: nat, k: nat)
    requires l <= k <= |u|
    ensures SpacesFrom(u, l) <= k ==> SpacesFrom(u[..k], l) == SpacesFrom(u, l)
    decreases |u| - l
  {
    hide Decode, IsSpace;
    if l < k {
      assert u[..k][l..] == u[l..][..k - l];
      DecodeShorter(u[l..], k - l);
      var d := Decode(u[l..]);
      if IsSpace(d.rune) && l + d.size <= k { SpacesShorter(u, l + d.size, k); }
    }
  }

  // The marker read from the first k bytes is the whole marker if and only if
  // it lies within them.
  lemma MarkerShorter(u: seq<byte>, k: nat)
    requires 1 <= k <= |u|
    ensures QuoteMarker(u[..k]) > 0 <==> QuoteMarker(u) > 0
    ensures QuoteMarker(u) <= k <==> QuoteMarker(u[..k]) == QuoteMarker(u)
  {
    if u[0] == GREATER { SpacesShorter(u, 1, k); }
  }

  // ----- One call at any quotation depth -----

  // The level that the next token is read at, prepared for that.
  function Inner(l: Level): (p: Level)
    requires Linked(l)
    ensures Linked(p)
    decreases Depth(l)
  {
    var p := Prepare(l);
    if p.spanStack == [] && BlockPre !in p.mask && p.quoteStarted then Inner(p.quoteSplit.value) else p
  }

  // Whether the token at the front of u is the same for every buffer that holds at
  // least its first known bytes, with or without knowing where u ends: tokens of
  // spans and fence lines are; inside a preformatted block the rest has to be one
  // line; the white space of a quotation marker has to lie within what is known.
  predicate Settled(l: Level, u: seq<byte>, known: nat)
    requires Linked(l)
  {
    var p := Inner(l);
    || p.spanStack != []
    || (if BlockPre in p.mask then OneLine(u) else QuoteMarker(u) <= known)
  }

  lemma NoteSame(r: Split, data: seq<byte>, more: seq<byte>)
    requires r.advance <= |data|
    ensures NoteNewline(r, data + more) == NoteNewline(r, data)
  {
    assert r.advance > 0 ==> (data + more)[r.advance - 1] == data[r.advance - 1];
  }

  lemma PlainIsSettled(u: seq<byte>, known: nat)
    ensures QuoteMarker(u) == 0 ==> QuoteMarker(u) <= known
  {
  }

  lemma NoteKeeps(r: Split, data: seq<byte>)
    requires r.advance <= |data|
    ensures NoteNewline(r, data).advance == r.advance
    ensures r.advance == 0 ==> NoteNewline(r, data) == r
  {
  }

  // A token returned before the end of the text is known: with a longer buffer
  // there is still one; if it is settled it is the same, with the same state after
  // it, known end or not; and if not, then knowing the whole text gives another.
  lemma {:induction false} ScanStable(l: Level, data: seq<byte>, more: seq<byte>)
    requires Linked(l) && data != [] && Scan(l, data, false).advance > 0
    ensures Scan(l, data + more, false).advance > 0
    ensures Settled(l, data + more, |data|) ==>
              Scan(l, data + more, false) == Scan(l, data, false) && Scan(l, data + more, true) == Scan(l, data, false)
    ensures !Settled(l, data + more, |data|) ==> Scan(l, data + more, true).advance != Scan(l, data, false).advance
    decreases Depth(l)
  {
    hide ScanSpan, ScanPre, ScanPlain, QuoteMarker, Prepare, OneLine, NoteNewline;
    var u := data + more;
    var p := Prepare(l);
    var a, b, c := Dispatch(p, data, false), Dispatch(p, u, false), Dispatch(p, u, true);
    NoteKeeps(a, data);
    NoteKeeps(b, u);
    NoteKeeps(c, u);
    NoteSame(a, data, more);
    if p.spanStack != [] {
      ScanSpanStable(p, data, more, false);
      ScanSpanStable(p, data, more, true);
    } else if BlockPre in p.mask {
      ScanPreStable(p.(hasRun := true), data, more);
    } else if p.quoteStarted {
      ScanStable(p.quoteSplit.value, data, more);
    } else {
      assert u[..|data|] == data;
      MarkerShorter(u, |data|);
      var q := p.(quoteSplit := None, hasRun := true);
      ScanPlainStable(q, data, more, false);
      ScanPlainStable(q, data, more, true);
      PlainIsSettled(u, |data|);
    }
  }

  lemma PrepareTwice(l: Level, hasRun: bool, inner: Option<Level>)
    ensures var p := Prepare(l);
            Prepare(p) == p && Prepare(p.(hasRun := hasRun)) == p.(hasRun := hasRun)
            && Prepare(p.(quoteSplit := inner)) == p.(quoteSplit := inner)
            && Prepare(p.(quoteSplit := inner, hasRun := hasRun)) == p.(quoteSplit := inner, hasRun := hasRun)
  {
    var p := Prepare(l);
    assert p.mask - {} == p.mask;
  }

  lemma ScanPreWaits(p: Level, data: seq<byte>)
    requires ScanPre(p, data, false).advance == 0
    ensures ScanPre(p, data, false).level == p
  {
  }

  // Asking for more data commits to nothing: the call on the longer buffer
  // answers as if it were the first.
  lemma {:induction false} ScanAgain(l: Level, data: seq<byte>, more: seq<byte>, atEOF: bool)
    requires Linked(l) && data != [] && Scan(l, data, false).advance == 0
    ensures var q := Scan(l, data, false).level; Scan(q, data + more, atEOF) == Scan(l, data + more, atEOF)
    decreases Depth(l)
  {
    hide ScanSpan, ScanPre, ScanPlain, QuoteMarker, Prepare, NoteNewline;
    var u := data + more;
    var p := Prepare(l);
    var a := Dispatch(p, data, false);
    NoteKeeps(a, data);
    var q := a.level;
    assert u[..|data|] == data;
    MarkerShorter(u, |data|);
    if p.spanStack != [] {
      ScanSpanStable(p, data, more, atEOF);
      PrepareTwice(l, p.hasRun, p.quoteSplit);
    } else if BlockPre in p.mask {
      ScanPreWaits(p.(hasRun := true), data);
      PrepareTwice(l, true, p.quoteSplit);
    } else if p.quoteStarted {
      ScanAgain(p.quoteSplit.value, data, more, atEOF);
      PrepareTwice(l, p.hasRun, q.quoteSplit);
    } else {
      ScanPlainStable(p.(quoteSplit := None, hasRun := true), data, more, atEOF);
      PrepareTwice(l, true, None);
    }
  }
}
