// What a bytestream delivers: every byte written, in order, and when anything
// goes wrong at least nothing else.
module IbbStream {
  import opened Wrappers
  import opened Utf8
  import opened Base64
  import opened IbbModel

  // The bytes a payload carries.
  function Bytes(p: Payload): seq<byte> {
    match Base64.Decode(Strip(p.text)) case Some(d) => d case None => []
  }

  function Flow(ps: seq<Payload>): seq<byte> {
    if ps == [] then [] else Flow(ps[..|ps| - 1]) + Bytes(ps[|ps| - 1])
  }

  lemma FlowAppend(ps: seq<Payload>, p: Payload)
    ensures Flow(ps + [p]) == Flow(ps) + Bytes(p)
  {
    assert (ps + [p])[..|ps|] == ps;
  }

  lemma EncodedBytes(seqno: nat, d: seq<byte>)
    ensures Bytes(Payload(seqno, Encode(d))) == d
    ensures Base64.Decode(Strip(Encode(d))) == Some(d)
  {
    EncodeHasNoBreaks(d);
    StripKeeps(Encode(d));
    RoundTrip(d);
  }

  // ----- The carrier -----

  // Payloads are numbered from 0 in the order they go out, wrapping at 16 bits,
  // and decode. Only the last one's sending may have ended in an error.
  predicate GoodCarrier(f: Fates, c: Carrier, broken: bool) {
    && (forall i | 0 <= i < |c.out| :: c.out[i].seqno == i % WRAP && Base64.Decode(Strip(c.out[i].text)).Some?)
    && (forall i | 0 <= i < |c.out| :: f(i) != Sent ==> i == |c.out| - 1 && broken)
    && (!broken ==> c.seqno == |c.out| % WRAP && c.attempts == |c.out|)
  }

  lemma SendGood(f: Fates, c: Carrier, d: seq<byte>)
    requires GoodCarrier(f, c, false)
    ensures var s := Send(f, c, Encode(d));
            && GoodCarrier(f, s.carrier, !s.ok)
            && (s.ok ==> Flow(s.carrier.out) == Flow(c.out) + d)
            && Flow(s.carrier.out) <= Flow(c.out) + d
            && c.out <= s.carrier.out
  {
    hide Encode, Base64.Decode, Strip, Bytes, Flow;
    var p := Payload(c.seqno, Encode(d));
    EncodedBytes(c.seqno, d);
    FlowAppend(c.out, p);
    var out := c.out + [p];
    assert out[|c.out|] == p;
    assert (|c.out| + 1) % WRAP == (c.seqno + 1) % WRAP;
  }

  // ----- The encoder -----

  // After a write of p on top of held bytes: all of it is out or held back, or
  // the encoder is broken and a beginning of it is out.
  predicate EncodedRight(f: Fates, c: Carrier, pending: seq<byte>, e: Encoder, after: Carrier) {
    && GoodCarrier(f, after, e.failed) && c.out <= after.out
    && (if e.failed then Flow(after.out) <= Flow(c.out) + pending
        else Flow(after.out) + e.held == Flow(c.out) + pending)
  }

  lemma PrefixExtend(a: seq<byte>, b: seq<byte>, more: seq<byte>)
    requires a <= b
    ensures a <= b + more
  {
  }

  lemma {:induction false} InteriorRight(f: Fates, c: Carrier, p: seq<byte>)
    requires GoodCarrier(f, c, false)
    ensures var r := EncodeInterior(f, c, p); EncodedRight(f, c, p, r.encoder, r.carrier)
    decreases |p|
  {
    hide GoodCarrier, Send, Encode, Flow, WholeGroups;
    if |p| >= 3 {
      var nn := WholeGroups(|p|);
      var s := Send(f, c, Encode(p[..nn]));
      SendGood(f, c, p[..nn]);
      Regroup(Flow(c.out), p[..nn], p[nn..]);
      assert p == p[..nn] + p[nn..];
      if s.ok {
        InteriorRight(f, s.carrier, p[nn..]);
      } else {
        PrefixExtend(Flow(s.carrier.out), Flow(c.out) + p[..nn], p[nn..]);
      }
    }
  }

  lemma WriteRight(f: Fates, e: Encoder, c: Carrier, p: seq<byte>)
    requires GoodCarrier(f, c, false) && !e.failed && |e.held| <= 2
    ensures var r := EncodeWrite(f, e, c, p); EncodedRight(f, c, e.held + p, r.encoder, r.carrier)
  {
    hide GoodCarrier, Send, Encode, EncodeInterior, Flow;
    if |e.held| > 0 {
      var k := if |p| < 3 - |e.held| then |p| else 3 - |e.held|;
      var held := e.held + p[..k];
      assert e.held + p == held + p[k..];
      if |held| >= 3 {
        var s := Send(f, c, Encode(held));
        SendGood(f, c, held);
        assert Flow(c.out) + (e.held + p) == (Flow(c.out) + held) + p[k..];
        if s.ok { InteriorRight(f, s.carrier, p[k..]); }
      }
    } else {
      InteriorRight(f, c, p);
      assert e.held + p == p;
    }
  }

  // ----- The sender -----

  // While nothing has failed, what was offered is out, held by the encoder, or
  // in the buffer; once broken, what is out is a beginning of what was offered.
  predicate Accounted(f: Fates, s: Sender, offered: seq<byte>) {
    && WellFormed(s) && GoodCarrier(f, s.carrier, Broken(s))
    && (if Broken(s) then Flow(s.carrier.out) <= offered
        else Flow(s.carrier.out) + s.encoder.held + s.buf == offered)
    && (Broken(s) && !s.closed ==> s.failed)
  }

  lemma FailedStays(f: Fates, e: Encoder, c: Carrier, p: seq<byte>)
    requires e.failed
    ensures EncodeWrite(f, e, c, p) == Encoded(e, c, 0)
  {
  }

  lemma FlushWorking(f: Fates, s: Sender, offered: seq<byte>)
    requires Accounted(f, s, offered) && !Broken(s) && s.buf != []
    ensures Accounted(f, FlushBuffer(f, s), offered) && s.carrier.out <= FlushBuffer(f, s).carrier.out
  {
    hide GoodCarrier, EncodeWrite, Flow;
    var e, c, t := s.encoder, s.carrier, FlushBuffer(f, s);
    WriteRight(f, e, c, s.buf);
    assert Flow(c.out) + (e.held + s.buf) == offered;
    if !Broken(t) { assert Flow(t.carrier.out) + t.encoder.held + t.buf == Flow(t.carrier.out) + t.encoder.held; }
  }

  lemma FlushAccounted(f: Fates, s: Sender, offered: seq<byte>)
    requires Accounted(f, s, offered)
    ensures Accounted(f, FlushBuffer(f, s), offered) && s.carrier.out <= FlushBuffer(f, s).carrier.out
  {
    hide GoodCarrier, EncodeWrite, Flow;
    if !s.failed && s.buf != [] {
      if s.encoder.failed {
        FailedStays(f, s.encoder, s.carrier, s.buf);
      } else {
        FlushWorking(f, s, offered);
      }
    }
  }

  lemma WriteAccountedBroken(f: Fates, s: Sender, offered: seq<byte>, p: seq<byte>)
    requires Accounted(f, s, offered) && s.failed
    ensures Accounted(f, BufferWrite(f, s, p).sender, offered)
    ensures BufferWrite(f, s, p).sender == s
  {
  }

  lemma {:induction false} WriteAccounted(f: Fates, s: Sender, offered: seq<byte>, p: seq<byte>)
    requires Accounted(f, s, offered) && !s.closed
    ensures Accounted(f, BufferWrite(f, s, p).sender, offered + p)
    ensures s.carrier.out <= BufferWrite(f, s, p).sender.carrier.out
    ensures !BufferWrite(f, s, p).sender.failed ==> BufferWrite(f, s, p).n == |p|
    decreases !s.failed, |p|, |s.buf|
  {
    hide GoodCarrier, EncodeWrite, Flow, FlushBuffer;
    if |p| > s.size - |s.buf| && !s.failed {
      if s.buf == [] {
        WriteRight(f, s.encoder, s.carrier, p);
        var e := EncodeWrite(f, s.encoder, s.carrier, p);
        var t := s.(failed := e.encoder.failed, encoder := e.encoder, carrier := e.carrier);
        assert offered == Flow(s.carrier.out) + s.encoder.held;
        Regroup(Flow(s.carrier.out), s.encoder.held, p);
        if e.encoder.failed {
          WriteAccountedBroken(f, t, offered + p, p[e.n..]);
        } else {
          assert p[e.n..] == [];
          WriteAccounted(f, t, offered + p, p[e.n..]);
          assert (offered + p) + p[e.n..] == offered + p;
        }
      } else {
        var k := s.size - |s.buf|;
        var t := s.(buf := s.buf + p[..k]);
        Regroup(Flow(s.carrier.out) + s.encoder.held, s.buf, p[..k]);
        FlushAccounted(f, t, offered + p[..k]);
        WriteAccounted(f, FlushBuffer(f, t), offered + p[..k], p[k..]);
        Regroup(offered, p[..k], p[k..]);
        assert p[..k] + p[k..] == p;
      }
    } else if !s.failed {
      Regroup(Flow(s.carrier.out) + s.encoder.held, s.buf, p);
    }
  }

  lemma CloseAccounted(f: Fates, s: Sender, offered: seq<byte>)
    requires Accounted(f, s, offered)
    ensures var t := ConnClose(f, s);
            && Accounted(f, t, offered) && t.closed && s.carrier.out <= t.carrier.out
            && (!s.closed && !Broken(t) ==> t.buf == [] && t.encoder.held == [])
  {
    hide GoodCarrier, FlushBuffer, Send, Encode;
    if !s.closed {
      var c := s.(closed := true);
      FlushAccounted(f, c, offered);
      var t := FlushBuffer(f, c);
      if !t.failed && !t.encoder.failed && |t.encoder.held| > 0 {
        SendGood(f, t.carrier, t.encoder.held);
      }
    }
  }
}
