// The session's input loop: one top-level element at a time is read under the
// input lock and given to a handler, or to the goroutine waiting for it.
module Input {
  import opened Wrappers
  import opened Xml
  import R = ReplyModel
  import S = StanzaModel

  // The input stream with its lock. Only a holder of the lock may read.
  class Stream {
    const toks: seq<Token>
    var pos: nat
    var locked: bool
    var releases: nat

    constructor (toks: seq<Token>)
      ensures this.toks == toks && pos == 0 && !locked && releases == 0
    {
      this.toks, pos, locked, releases := toks, 0, false, 0;
    }

    method Lock()
      requires !locked
      modifies this`locked
      ensures locked
    {
      locked := true;
    }

    method Unlock()
      requires locked
      modifies this`locked, this`releases
      ensures !locked && releases == old(releases) + 1
    {
      locked := false;
      releases := releases + 1;
    }

    method Next() returns (tok: Option<Token>)
      requires locked && pos <= |toks|
      modifies this`pos
      ensures if old(pos) < |toks| then tok == Some(toks[old(pos)]) && pos == old(pos) + 1
              else tok == None && pos == old(pos)
    {
      if pos == |toks| { return None; }
      tok := Some(toks[pos]);
      pos := pos + 1;
    }
  }

  datatype Got = Tok(t: Token) | EOF | Broken

  // A reader that holds the input lock until it is closed.
  class LockReader {
    const s: Stream
    var closed: bool

    constructor (s: Stream)
      requires !s.locked && s.pos <= |s.toks|
      modifies s
      ensures this.s == s && Valid() && !closed && s.pos == old(s.pos) && s.releases == old(s.releases)
    {
      this.s, closed := s, false;
      new;
      s.Lock();
    }

    predicate Valid()
      reads this, s
    {
      s.pos <= |s.toks| && s.locked == !closed
    }

    method Token() returns (g: Got)
      requires Valid()
      modifies s`pos
      ensures Valid()
      ensures if closed then g == EOF && s.pos == old(s.pos)
              else if old(s.pos) < |s.toks| then g == Tok(s.toks[old(s.pos)]) && s.pos == old(s.pos) + 1
              else g == Broken && s.pos == old(s.pos)
    {
      if closed { return EOF; }
      var tok := s.Next();
      g := if tok == None then Broken else Tok(tok.value);
    }

    method Close()
      requires Valid()
      modifies this, s`locked, s`releases
      ensures Valid() && closed
      ensures s.releases == old(s.releases) + if old(closed) then 0 else 1
    {
      if closed { return; }
      closed := true;
      s.Unlock();
    }
  }

  function CountAfter(count: nat, t: Token): nat
    requires count > 0
  {
    match t case Start(_, _) => count + 1 case End(_) => count - 1 case Text(_) => count
  }

  // Reads no further than the end of the element whose start was popped; with
  // its end token (keepEnd) or without. An early reader closes the lock reader
  // as soon as it reports the end, which an eager one does with the last token.
  class ElementReader {
    const r: LockReader
    const keepEnd: bool
    const early: bool
    const eager: bool
    var count: nat

    constructor (r: LockReader, keepEnd: bool, early: bool, eager: bool)
      ensures this.r == r && this.keepEnd == keepEnd && this.early == early && this.eager == eager && count == 1
    {
      this.r, this.keepEnd, this.early, this.eager, count := r, keepEnd, early, eager, 1;
    }

    // end is where the element ends.
    ghost predicate Within(end: nat)
      reads this, r, r.s
    {
      && r.Valid() && (count >= 1 ==> !r.closed && Behind(r.s.toks, r.s.pos, count) == end)
      && (count == 0 ==> r.s.pos == end)
    }

    // The stream holds the rest of the element.
    ghost predicate Complete()
      requires r.s.pos <= |r.s.toks|
      reads this, r, r.s
    {
      count >= 1 ==> Closes(r.s.toks, r.s.pos, count)
    }

    method Token(ghost end: nat) returns (g: Got)
      requires Within(end)
      modifies this, r, r.s
      ensures Within(end) && r.s.pos >= old(r.s.pos)
      ensures r.s.releases == old(r.s.releases) + if r.closed && !old(r.closed) then 1 else 0
      ensures !early ==> r.closed == old(r.closed)
      ensures old(r.closed) ==> r.closed
      ensures g.EOF? ==> count == 0
      ensures g.Tok? ==> old(r.s.pos) < |r.s.toks| && g.t == r.s.toks[old(r.s.pos)] && r.s.pos == old(r.s.pos) + 1
      ensures !g.Tok? ==>
                || r.s.pos == old(r.s.pos)
                || (count == 0 && !keepEnd && r.s.pos == old(r.s.pos) + 1 && old(count) > 0)
      ensures g.Broken? ==> old(count) > 0 && old(r.s.pos) == |r.s.toks|
      ensures old(count) == 0 ==> g.EOF?
      ensures old(count) > 0 && old(r.s.pos) < |r.s.toks| ==>
                && count == CountAfter(old(count), r.s.toks[old(r.s.pos)])
                && g.Tok? == (count > 0 || keepEnd)
      ensures keepEnd && old(count) > 0 ==> !g.EOF?
      ensures old(Complete()) ==> Complete()
    {
      if count < 1 {
        if early { r.Close(); }
        return EOF;
      }
      g := r.Token();
      if g.Tok? {
        if g.t.Start? {
          count := count + 1;
        } else if g.t.End? {
          count := count - 1;
          if count < 1 {
            if !keepEnd { return EOF; }
            if eager && early { r.Close(); }
          }
        }
      }
    }

    // xmlstream.Copy to a discarding writer.
    method Drain(ghost end: nat) returns (ok: bool)
      requires Within(end)
      modifies this, r, r.s
      ensures Within(end) && (ok ==> count == 0)
      ensures old(Complete()) ==> ok
      ensures old(r.closed) ==> r.closed
      ensures r.s.releases == old(r.s.releases) + if r.closed && !old(r.closed) then 1 else 0
      ensures !early ==> r.closed == old(r.closed)
    {
      while true
        invariant Within(end)
        invariant r.s.releases == old(r.s.releases) + if r.closed && !old(r.closed) then 1 else 0
        invariant old(r.closed) ==> r.closed
        invariant !early ==> r.closed == old(r.closed)
        invariant old(Complete()) ==> Complete()
        decreases |r.s.toks| - r.s.pos
      {
        var g := Token(end);
        if g.EOF? { return true; }
        if g.Broken? { return false; }
      }
    }
  }

  // The output side as a handler sees it: the lock is taken on the first write;
  // writing to a closed stream fails.
  class Output {
    const open: bool
    var toks: seq<Token>
    var used: bool

    constructor (open: bool)
      ensures this.open == open && toks == [] && !used
    {
      this.open, toks, used := open, [], false;
    }

    method EncodeToken(t: Token) returns (ok: bool)
      modifies this
      ensures used && ok == open && toks == if open then old(toks) + [t] else old(toks)
    {
      used, ok := true, open;
      if open { toks := toks + [t]; }
    }

    method Flush() returns (ok: bool)
      ensures ok == (used ==> open)
    {
      ok := !used || open;
    }
  }

  method GetIDTyp(attrs: seq<Attr>) returns (it: R.IdType)
    ensures it == R.IdTypeOf(attrs)
  {
    it := R.IdType("", "");
    var idFound, typFound := false, false;
    var idx := 0;
    while idx < |attrs| && !(idFound && typFound)
      invariant 0 <= idx <= |attrs|
      invariant R.Scan(attrs, idx, it, idFound, typFound) == R.IdTypeOf(attrs)
    {
      if attrs[idx].name.local == "id" {
        it := it.(id := attrs[idx].value);
        idFound := true;
      } else if attrs[idx].name.local == "type" {
        it := it.(typ := attrs[idx].value);
        typFound := true;
      }
      idx := idx + 1;
    }
  }

  // Lets a handler write and notes whether it answered the IQ with this id.
  class ResponseChecker {
    const w: Output
    const id: string
    var wroteResp: bool
    var level: int

    constructor (w: Output, id: string)
      ensures this.w == w && this.id == id && Abs() == R.Checker(false, 0)
    {
      this.w, this.id, wroteResp, level := w, id, false, 0;
    }

    function Abs(): R.Checker
      reads this
    {
      R.Checker(wroteResp, level)
    }

    method EncodeToken(t: Token) returns (ok: bool)
      modifies this, w
      ensures Abs() == R.Check(id, old(Abs()), t)
      ensures w.used && ok == w.open && w.toks == if w.open then old(w.toks) + [t] else old(w.toks)
    {
      match t {
        case Start(name, attrs) =>
          var it := GetIDTyp(attrs);
          if level < 1 && R.IsIQEmptySpace(name) && it.id == id && it.typ != "get" && it.typ != "set" {
            wroteResp := true;
          }
          level := level + 1;
        case End(_) =>
          level := level - 1;
        case Text(_) =>
      }
      ok := w.EncodeToken(t);
    }
  }

  // What a handler does: read the next token, or write one.
  datatype Act = Read | Write(t: Token)

  function Writes(script: seq<Act>): seq<Token> {
    if script == [] then []
    else
      var last := script[|script| - 1];
      Writes(script[..|script| - 1]) + if last.Write? then [last.t] else []
  }

  lemma WritesAppend(script: seq<Act>, a: Act)
    ensures Writes(script + [a]) == Writes(script) + if a.Write? then [a.t] else []
  {
    assert (script + [a])[..|script|] == script;
  }

  // A handler at work. It reads in order, from behind the start token on, and
  // never beyond the end of its element.
  method RunHandler(rw: ElementReader, checker: ResponseChecker, script: seq<Act>, ghost end: nat)
    returns (got: seq<Token>)
    requires rw.Within(end) && rw.count == 1 && !rw.r.closed && rw.keepEnd && checker.Abs() == R.Checker(false, 0)
    modifies rw, rw.r, rw.r.s, checker, checker.w
    ensures rw.Within(end) && old(rw.r.s.pos) <= rw.r.s.pos
    ensures rw.r.s.releases == old(rw.r.s.releases) + if rw.r.closed then 1 else 0
    ensures got == rw.r.s.toks[old(rw.r.s.pos)..rw.r.s.pos]
    ensures checker.Abs() == R.CheckAll(checker.id, R.Checker(false, 0), Writes(script))
    ensures checker.w.toks == old(checker.w.toks) + if checker.w.open then Writes(script) else []
    ensures checker.w.used == (old(checker.w.used) || Writes(script) != [])
    ensures old(rw.Complete()) ==> rw.Complete()
  {
    hide Behind, Closes, R.Check, R.Scan;
    got := [];
    var i := 0;
    while i < |script|
      invariant 0 <= i <= |script| && rw.Within(end) && rw.r.s.pos >= old(rw.r.s.pos)
      invariant rw.r.s.releases == old(rw.r.s.releases) + if rw.r.closed then 1 else 0
      invariant got == rw.r.s.toks[old(rw.r.s.pos)..rw.r.s.pos]
      invariant checker.Abs() == R.CheckAll(checker.id, R.Checker(false, 0), Writes(script[..i]))
      invariant checker.w.toks == old(checker.w.toks) + if checker.w.open then Writes(script[..i]) else []
      invariant checker.w.used == (old(checker.w.used) || Writes(script[..i]) != [])
      invariant old(rw.Complete()) ==> rw.Complete()
    {
      assert script[..i + 1] == script[..i] + [script[i]];
      WritesAppend(script[..i], script[i]);
      match script[i] {
        case Read =>
          assert Writes(script[..i]) + [] == Writes(script[..i]);
          var g := rw.Token(end);
          if g.Tok? { got := got + [g.t]; }
        case Write(t) =>
          R.CheckOneMore(checker.id, R.Checker(false, 0), Writes(script[..i]), t);
          var ok := checker.EncodeToken(t);
      }
      i := i + 1;
    }
    assert script[..i] == script;
  }

  // ----- One round of the input loop -----

  // Where the top-level item at pos ends: an element with its end token, or one
  // piece of text.
  function ItemEnd(toks: seq<Token>, pos: nat): nat
    requires pos < |toks|
  {
    if toks[pos].Start? then Behind(toks, pos + 1, 1) else pos + 1
  }

  predicate IsWhitespace(data: string) {
    forall i | 0 <= i < |data| :: data[i] == ' ' || data[i] == '\t' || data[i] == '\r' || data[i] == '\n'
  }

  // A stanza whose from is the session's own bare address loses it.
  function Normalize(start: Token, ns: string, local: string, i: nat): (r: Token)
    requires start.Start? && i <= |start.attrs|
    ensures r.Start? && r.name == start.name
    decreases |start.attrs| - i
  {
    if i == |start.attrs| then start
    else if start.attrs[i].name.local == "from" then
      if start.attrs[i].value == local then start.(attrs := start.attrs[i := start.attrs[i].(value := "")]) else start
    else Normalize(start, ns, local, i + 1)
  }

  function Normalized(start: Token, ns: string, local: string): (r: Token)
    requires start.Start?
    ensures r.Start? && r.name == start.name
  {
    if S.IsStanzaName(start.name.local) && start.name.space == ns then Normalize(start, ns, local, 0) else start
  }

  function ValueOf(attrs: seq<Attr>, local: string): string {
    if attrs == [] then "" else if attrs[0].name.local == local then attrs[0].value else ValueOf(attrs[1..], local)
  }

  // The goroutine waiting for this response, if any: it takes it and reads some
  // tokens of it before closing it, or has given up.
  datatype Waiter = Nobody | GaveUp | Takes(tokens: nat)

  // What the environment decides in one round.
  datatype Round = Round(waiter: Waiter, script: seq<Act>, handlerOk: bool, addressOk: bool, eager: bool)

  predicate IsResponse(start: Token)
    requires start.Start?
  {
    R.IdTypeOf(start.attrs).typ == "result" || R.IdTypeOf(start.attrs).typ == "error"
  }

  // The goroutine that takes a response reads it through this.
  method HoldResponse(inner: ElementReader, start: Token, n: nat, ghost end: nat) returns (got: seq<Token>)
    requires inner.Within(end) && inner.count == 1 && !inner.r.closed && !inner.keepEnd && !inner.early && start.Start?
    requires Closes(inner.r.s.toks, inner.r.s.pos, 1)
    modifies inner, inner.r, inner.r.s
    ensures inner.Within(end) && !inner.r.closed && inner.r.s.releases == old(inner.r.s.releases)
    ensures inner.Complete()
    ensures got <= [start] + inner.r.s.toks[old(inner.r.s.pos)..end - 1] + [End(start.name)]
    ensures |got| == if n < 2 + end - 1 - old(inner.r.s.pos) then n else 2 + end - 1 - old(inner.r.s.pos)
  {
    var toks := inner.r.s.toks;
    ghost var from := inner.r.s.pos;
    ghost var whole := [start] + toks[from..end - 1] + [End(start.name)];
    assert whole[|whole| - 1] == End(start.name);
    got := [];
    var done := false;
    while |got| < n && !done
      invariant inner.Within(end) && !inner.r.closed && inner.r.s.releases == old(inner.r.s.releases)
      invariant from <= inner.r.s.pos <= end && |got| <= n
      invariant inner.count == 0 ==> done
      invariant inner.count >= 1 ==> Closes(toks, inner.r.s.pos, inner.count)
      invariant got <= whole
      invariant done <==> got == whole
      invariant !done ==>
                  && inner.count >= 1 && |got| == (if got == [] then 0 else 1 + inner.r.s.pos - from)
                  && (got == [] ==> inner.r.s.pos == from)
      decreases n - |got|
    {
      if |got| == 0 {
        got := [start];
      } else {
        var g := inner.Token(end);
        if g.Tok? {
          got := got + [g.t];
        } else {
          got := got + [End(start.name)];
          done := true;
        }
      }
    }
  }

  method NormalizeFrom(start: Token, ns: string, local: string) returns (r: Token)
    requires start.Start?
    ensures r == Normalized(start, ns, local) && r.Start? && r.name == start.name
  {
    r := start;
    if S.IsStanzaName(start.name.local) && start.name.space == ns {
      var i := 0;
      while i < |start.attrs|
        invariant 0 <= i <= |start.attrs| && Normalize(start, ns, local, i) == Normalize(start, ns, local, 0)
      {
        var attr := start.attrs[i];
        if attr.name.local == "from" {
          if attr.value == local {
            r := start.(attrs := start.attrs[i := attr.(value := "")]);
          }
          break;
        }
        i := i + 1;
      }
    }
  }

  // Whether the session has to answer for the handler that wrote this.
  predicate ReplyDue(start: Token, wroteResp: bool)
    requires start.Start?
  {
    R.NeedsReply(start) && !wroteResp
  }

  // What one successful round has written: what the handler wrote, and the
  // error reply if that was due and missing.
  function Written(start: Token, script: seq<Act>): seq<Token>
    requires start.Start?
  {
    var it := R.IdTypeOf(start.attrs);
    Writes(script)
    + if ReplyDue(start, R.CheckAll(it.id, R.Checker(false, 0), Writes(script)).wroteResp)
      then R.ErrorReply(it.id, ValueOf(start.attrs, "from")) else []
  }

  // Hand a response over and drop what its holder left unread.
  method Respond(rc: LockReader, start: Token, w: Waiter, ghost end: nat) returns (ok: bool, got: seq<Token>)
    requires rc.Valid() && !rc.closed && start.Start? && Closes(rc.s.toks, rc.s.pos, 1)
    requires end == Behind(rc.s.toks, rc.s.pos, 1)
    modifies rc, rc.s
    ensures rc.Valid() && !rc.closed && rc.s.releases == old(rc.s.releases)
    ensures ok && rc.s.pos == end
    ensures got <= [start] + rc.s.toks[old(rc.s.pos)..end - 1] + [End(start.name)]
    ensures w.Takes? ==>
              |got| == if w.tokens < 2 + end - 1 - old(rc.s.pos) then w.tokens else 2 + end - 1 - old(rc.s.pos)
  {
    var inner := new ElementReader(rc, false, false, false);
    got := [];
    if w.Takes? {
      got := HoldResponse(inner, start, w.tokens, end);
    }
    ok := inner.Drain(end);
  }

  // xmlstream.Copy of a whole reply to the output.
  method SendAll(out: Output, reply: seq<Token>) returns (ok: bool)
    requires reply != []
    modifies out
    ensures ok == out.open && out.used && (ok ==> out.toks == old(out.toks) + reply)
  {
    var i := 0;
    while i < |reply|
      invariant 0 <= i <= |reply| && (i > 0 ==> out.used && out.open) && out.toks == old(out.toks) + reply[..i]
    {
      ok := out.EncodeToken(reply[i]);
      if !ok { return; }
      i := i + 1;
    }
    assert reply[..i] == reply;
    ok := true;
  }

  predicate CanReply(start: Token, addressOk: bool)
    requires start.Start?
  {
    ValueOf(start.attrs, "from") == "" || addressOk
  }

  // When a round with the handler succeeds: the handler does, a reply that is due
  // has an address to go to, and the stream takes what is written.
  predicate Succeeds(start: Token, round: Round, open: bool)
    requires start.Start?
  {
    && round.handlerOk
    && (ReplyDue(start, R.CheckAll(R.IdTypeOf(start.attrs).id, R.Checker(false, 0), Writes(round.script)).wroteResp)
        ==> CanReply(start, round.addressOk) && open)
    && (Writes(round.script) != [] ==> open)
  }

  // Answer an IQ with an error if it asks for an answer and has none yet; then
  // flush. The reply goes to the address in from, if that is one.
  method AnswerIfDue(start: Token, wroteResp: bool, out: Output, addressOk: bool) returns (ok: bool)
    requires start.Start?
    modifies out
    ensures ok
       <==> (ReplyDue(start, wroteResp) ==> CanReply(start, addressOk) && out.open) && (old(out.used) ==> out.open)
    ensures ok ==> out.toks == old(out.toks)
                               + if ReplyDue(start, wroteResp)
                                 then R.ErrorReply(R.IdTypeOf(start.attrs).id, ValueOf(start.attrs, "from")) else []
    ensures old(out.used) ==> out.used
  {
    hide R.ErrorReply;
    var it := GetIDTyp(start.attrs);
    if R.NeedsReply(start) && !wroteResp {
      var fromAttr := ValueOf(start.attrs, "from");
      if fromAttr != "" && !addressOk {
        return false;
      }
      ok := SendAll(out, R.ErrorReply(it.id, fromAttr));
      if !ok {
        return;
      }
    }
    ok := out.Flush();
  }

  // The handler's side of a round: run it, answer for it if need be, and skip
  // what it left unread.
  method Serve(rc: LockReader, start: Token, out: Output, round: Round, ghost end: nat)
    returns (ok: bool, got: seq<Token>)
    requires rc.Valid() && !rc.closed && start.Start? && end == Behind(rc.s.toks, rc.s.pos, 1)
    requires !out.used
    modifies rc, rc.s, out
    ensures rc.Valid() && rc.s.releases == old(rc.s.releases) + if rc.closed then 1 else 0
    ensures ok ==> rc.s.pos == end
    ensures Closes(rc.s.toks, old(rc.s.pos), 1) ==> (ok <==> Succeeds(start, round, out.open))
    ensures ok ==> out.toks == old(out.toks) + Written(start, round.script)
    ensures ok ==> got <= rc.s.toks[old(rc.s.pos)..end]
  {
    hide R.CheckAll, R.ErrorReply, R.NeedsReply, Writes, Behind, ValueOf;
    var it := GetIDTyp(start.attrs);
    var inner := new ElementReader(rc, true, true, round.eager);
    var rw := new ResponseChecker(out, it.id);
    got := RunHandler(inner, rw, round.script, end);
    ghost var read := rc.s.pos;
    if !round.handlerOk {
      return false, got;
    }
    var answered := AnswerIfDue(start, rw.wroteResp, out, round.addressOk);
    if !answered {
      return false, got;
    }
    ok := inner.Drain(end);
  }

  // One round. The input lock is taken once and released once, whatever
  // happens; a round that succeeds has consumed exactly one top-level item; a
  // response with a waiting goroutine goes to it alone and is not written about;
  // any other element goes to the handler, and an IQ that asks for an answer
  // has got one.
  method HandleInputStream(s: Stream, out: Output, round: Round, ns: string, local: string)
    returns (ok: bool, toHandler: bool, got: seq<Token>)
    requires !s.locked && s.pos <= |s.toks| && !out.used
    requires forall i | 0 <= i < |s.toks| && s.toks[i].Start? :: Closes(s.toks, i + 1, 1)
    modifies s, out
    ensures !s.locked && s.releases == old(s.releases) + 1
    ensures ok <==> old(s.pos) < |s.toks| &&
                    match s.toks[old(s.pos)]
                    case Text(data) => IsWhitespace(data)
                    case End(_) => false
                    case Start(_, _) =>
                      var start := Normalized(s.toks[old(s.pos)], ns, local);
                      (IsResponse(start) && round.waiter != Nobody) || Succeeds(start, round, out.open)
    ensures ok ==> old(s.pos) < |s.toks| && s.pos == ItemEnd(s.toks, old(s.pos)) && !s.toks[old(s.pos)].End?
    ensures ok && s.toks[old(s.pos)].Text? ==> !toHandler && got == [] && out.toks == old(out.toks)
    ensures ok && s.toks[old(s.pos)].Start? ==>
              var start := Normalized(s.toks[old(s.pos)], ns, local);
              && toHandler == !(IsResponse(start) && round.waiter != Nobody)
              && (if toHandler then
                    out.toks == old(out.toks) + Written(start, round.script) && got <= s.toks[old(s.pos) + 1..s.pos]
                  else
                    out.toks == old(out.toks) && s.pos >= old(s.pos) + 2
                    && got <= [start] + s.toks[old(s.pos) + 1..s.pos - 1] + [End(start.name)])
  {
    var rc := new LockReader(s);
    toHandler, got := false, [];
    var g := rc.Token();
    if !g.Tok? {
      rc.Close();
      return false, false, [];
    }
    var tok := g.t;
    if !tok.Start? {
      rc.Close();
      return tok.Text? && IsWhitespace(tok.data), false, [];
    }
    ghost var end := Behind(s.toks, s.pos, 1);
    var start := NormalizeFrom(tok, ns, local);
    var it := GetIDTyp(start.attrs);
    if (it.typ == "result" || it.typ == "error") && round.waiter != Nobody {
      ok, got := Respond(rc, start, round.waiter, end);
    } else {
      toHandler := true;
      ok, got := Serve(rc, start, out, round, end);
    }
    rc.Close();
  }

  // ----- What a round takes, changes and answers -----

  lemma {:induction false} BehindInside(toks: seq<Token>, from: nat, end: nat, i: nat, d: nat)
    requires from < i <= end <= |toks| && d >= 1 && Closes(toks, i, d) && Behind(toks, i, d) == end
    ensures var part := toks[from..end];
            Closes(part, i - from, d) && Behind(part, i - from, d) == |part|
    decreases |toks| - i
  {
    var part := toks[from..end];
    assert i < end && part[i - from] == toks[i];
    match toks[i]
    case Start(_, _) => BehindInside(toks, from, end, i + 1, d + 1);
    case End(_) => if d > 1 { BehindInside(toks, from, end, i + 1, d - 1); }
    case Text(_) => BehindInside(toks, from, end, i + 1, d);
  }

  // An element is taken from its start token to the end token that closes it.
  lemma ItemIsElement(toks: seq<Token>, pos: nat)
    requires pos < |toks| && toks[pos].Start? && Closes(toks, pos + 1, 1)
    ensures pos < ItemEnd(toks, pos) <= |toks| && IsElement(toks[pos..ItemEnd(toks, pos)])
  {
    BehindInside(toks, pos, ItemEnd(toks, pos), pos + 1, 1);
  }

  lemma {:induction false} NormalizeAt(start: Token, ns: string, local: string, i: nat)
    requires start.Start? && i <= R.FirstAt(start.attrs, "from")
    ensures var k := R.FirstAt(start.attrs, "from");
            Normalize(start, ns, local, i)
            == if k < |start.attrs| && start.attrs[k].value == local
               then start.(attrs := start.attrs[k := start.attrs[k].(value := "")]) else start
    decreases |start.attrs| - i
  {
    if i < R.FirstAt(start.attrs, "from") { NormalizeAt(start, ns, local, i + 1); }
  }

  // The only thing that changes is the first from attribute of a stanza of the
  // stream's namespace: it is emptied if it holds the session's own address.
  lemma NormalizedIs(start: Token, ns: string, local: string, i: nat)
    requires start.Start? && i < |start.attrs|
    ensures var out := Normalized(start, ns, local);
            && out.name == start.name && |out.attrs| == |start.attrs|
            && out.attrs[i] == if start.name.local in {"iq", "message", "presence"} && start.name.space == ns
                                  && i == R.FirstAt(start.attrs, "from") && start.attrs[i].value == local
                               then start.attrs[i].(value := "") else start.attrs[i]
  {
    NormalizeAt(start, ns, local, 0);
  }

  lemma {:induction false} ValueOfIs(attrs: seq<Attr>, local: string)
    ensures var k := R.FirstAt(attrs, local); ValueOf(attrs, local) == if k < |attrs| then attrs[k].value else ""
  {
    if attrs != [] && attrs[0].name.local != local { ValueOfIs(attrs[1..], local); }
  }

  // With a single type, results and errors are responses.
  lemma ResponseMeans(start: Token, j: nat)
    requires start.Start? && j < |start.attrs| && start.attrs[j].name.local == "type" && R.OnlyOne(start.attrs, j)
    ensures IsResponse(start) <==> start.attrs[j].value in {"result", "error"}
  {
    hide R.IdTypeOf;
    R.SingleIsFound(start.attrs, "type");
  }

  // When a round with the handler succeeds, for a handler that writes whole
  // elements: the handler has to; if it wrote anything the stream has to be open;
  // and if the element asks for an answer and it wrote none, the stream has to be
  // open and the sender's address, if one is given, has to be one.
  lemma SucceedsMeans(start: Token, round: Round, open: bool)
    requires start.Start? && Balanced(Writes(round.script))
    ensures var answered := R.HasAnswer(R.IdTypeOf(start.attrs).id, Writes(round.script));
            Succeeds(start, round, open)
            <==> && round.handlerOk
                 && (Writes(round.script) != [] ==> open)
                 && (R.NeedsReply(start) && !answered
                   ==> open && (ValueOf(start.attrs, "from") == "" || round.addressOk))
  {
    R.CheckerIsRight(R.IdTypeOf(start.attrs).id, Writes(round.script), false);
  }

  // For an IQ that asks for an answer and a handler that writes whole elements:
  // a round that succeeds has written an answer with the IQ's id at the top
  // level, and the session's own error reply if and only if the handler wrote none.
  lemma EveryIQIsAnswered(start: Token, script: seq<Act>)
    requires start.Start? && R.NeedsReply(start) && R.IdTypeOf(start.attrs).id != ""
    requires Balanced(Writes(script))
    ensures var id, out := R.IdTypeOf(start.attrs).id, Written(start, script);
            && Balanced(out) && R.HasAnswer(id, out)
            && (out == Writes(script) <==> R.HasAnswer(id, Writes(script)))
            && (out != Writes(script) ==> out == Writes(script) + R.ErrorReply(id, ValueOf(start.attrs, "from")))
  {
    var id := R.IdTypeOf(start.attrs).id;
    var own, reply := Writes(script), R.ErrorReply(id, ValueOf(start.attrs, "from"));
    R.CheckerIsRight(id, own, false);
    R.ErrorReplyAnswers(id, ValueOf(start.attrs, "from"));
    R.HasAnswerAppend(id, own, reply);
    assert own + [] == own && |own + reply| > |own|;
  }
}
