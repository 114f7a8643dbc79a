// The limits of a bytestream: how far a read buffer grows, what a refusal in a
// stream without acknowledgements does, and how large payloads get.
module IbbLimits {
  import opened Utf8
  import opened Base64
  import opened IbbModel
  import opened IbbStream
  import opened IbbSystem

  // No payload, whatever its text and number, leaves a limited read buffer
  // longer than the limit or than it was.
  lemma ReadBufferBounded(r: Receiver, p: Payload, debris: seq<byte>)
    requires r.maxBuf > 0 && |debris| <= DecodedLen(p.text)
    ensures var s := Receive(r, p, debris);
            |s.receiver.buf| <= if |r.buf| > r.maxBuf then |r.buf| else r.maxBuf
    ensures Receive(r, p, debris).reply == Unexpected || Receive(r, p, debris).reply == NoRoom
            ==> Receive(r, p, debris).receiver.buf == r.buf
  {
    assert |Strip(p.text)| <= |p.text|;
  }

  // A payload of up to one block always fits an empty buffer, except that the
  // padding counts: it fits if and only if the limit covers the length rounded
  // up to a whole group.
  lemma {:induction false} EmptyBufferAccepts(r: Receiver, d: seq<byte>)
    requires r.buf == []
    ensures Receive(r, Payload(r.seqno, Encode(d)), []).reply == Accepted
            <==> r.maxBuf <= 0 || (|d| + 2) / 3 * 3 <= r.maxBuf
  {
    hide Encode, Base64.Decode, Strip;
    EncodedBytes(r.seqno, d);
    var text, n := Encode(d), (|d| + 2) / 3;
    assert |text| == n * 4 && |text| / 4 == n;
    var p := Payload(r.seqno, text);
    assert Base64.Decode(Strip(p.text)).Some?;
  }

  // Two deliveries with a full read between them; the first finds no room.
  lemma SkipOne(f: Fates, y: System, p: Payload, q: Payload)
    requires Possible(y) && |y.replies| + 2 <= |y.sender.carrier.out|
    requires p == y.sender.carrier.out[|y.replies|] && q == y.sender.carrier.out[|y.replies| + 1]
    requires p.seqno == y.receiver.seqno && q.seqno == (y.receiver.seqno + 1) % WRAP
             && Base64.Decode(Strip(q.text)).Some?
    requires 0 < y.receiver.maxBuf < |y.receiver.buf| + DecodedLen(p.text) && DecodedLen(q.text) <= y.receiver.maxBuf
    ensures var y1 := Step(f, y, Deliver);
            Possible(y1) &&
            var y2 := Step(f, y1, Read(|y.receiver.buf|));
            Possible(y2) &&
            var y3 := Step(f, y2, Deliver);
            y3.replies == y.replies + [NoRoom, Accepted] && Arrived(y3) == Arrived(y) + Bytes(q)
  {
    hide Base64.Decode, Strip;
    assert InFlight(y)[0] == p;
    var y1 := Step(f, y, Deliver);
    assert y1.receiver.buf == y.receiver.buf && y1.replies == y.replies + [NoRoom];
    var y2 := Step(f, y1, Read(|y.receiver.buf|));
    assert InFlight(y2)[0] == q;
    assert y2.receiver.buf == [] && y2.read == Arrived(y);
  }

  lemma RunOfThree(f: Fates, y: System, a: Action, b: Action, c: Action)
    requires Consistent(f, y)
    ensures Possible(y) && Possible(Step(f, y, a)) && Possible(Step(f, Step(f, y, a), b))
    ensures IbbSystem.Run(f, y, [a, b, c]) == Step(f, Step(f, Step(f, y, a), b), c)
  {
    hide Consistent, Step;
    AccountedOf(f, y);
    StepConsistent(f, y, a);
    AccountedOf(f, Step(f, y, a));
    StepConsistent(f, Step(f, y, a), b);
    AccountedOf(f, Step(f, Step(f, y, a), b));
    StepConsistent(f, Step(f, Step(f, y, a), b), c);
    assert [a, b, c][1..] == [b, c] && [b, c][1..] == [c] && [c][1..] == [];
    var y2 := Step(f, Step(f, y, a), b);
    assert IbbSystem.Run(f, y2, [c]) == Step(f, y2, c);
    assert IbbSystem.Run(f, Step(f, y, a), [b, c]) == Step(f, y2, c);
  }

  // A refused payload is counted all the same. Without acknowledgements the
  // sender goes on, and once the reader has made room the next payload is taken:
  // its bytes follow directly on those before the refused one.
  lemma RefusalLeavesHole(f: Fates, y: System)
    requires Consistent(f, y) && AllAccepted(y.replies) && |y.replies| + 2 <= |y.sender.carrier.out|
    requires var p, q := y.sender.carrier.out[|y.replies|], y.sender.carrier.out[|y.replies| + 1];
             0 < y.receiver.maxBuf < |y.receiver.buf| + DecodedLen(p.text) && DecodedLen(q.text) <= y.receiver.maxBuf
    ensures var out, n := y.sender.carrier.out, |y.replies|;
            var z := IbbSystem.Run(f, y, [Deliver, Read(|y.receiver.buf|), Deliver]);
            && z.replies == y.replies + [NoRoom, Accepted]
            && Arrived(y) == Flow(out[..n])
            && Arrived(z) == Flow(out[..n]) + Bytes(out[n + 1])
            && Flow(out[..n + 2]) == Flow(out[..n]) + Bytes(out[n]) + Bytes(out[n + 1])
  {
    hide Flow, Base64.Decode, Strip, Accounted, Step, Bytes, AcceptedFlow;
    var out, n := y.sender.carrier.out, |y.replies|;
    AccountedOf(f, y);
    AllAcceptedFlow(out, y.replies);
    CarrierOf(f, y.sender, y.offered);
    assert out[n + 1].seqno == (y.receiver.seqno + 1) % WRAP;
    SkipOne(f, y, out[n], out[n + 1]);
    RunOfThree(f, y, Deliver, Read(|y.receiver.buf|), Deliver);
    FlowAppend(out[..n], out[n]);
    FlowAppend(out[..n + 1], out[n + 1]);
    assert out[..n + 1] == out[..n] + [out[n]] && out[..n + 2] == out[..n + 1] + [out[n + 1]];
  }

  // ----- The limit that SetReadBuffer sets -----

  // A limit of at least one block takes a full block into an empty buffer unless
  // it is less than the block rounded up to a whole group: a limit that was below
  // the block size, and so became it, does if and only if three divides that.
  lemma LimitFitsBlock(r: Receiver, d: seq<byte>, max: int, size: nat)
    requires r.buf == [] && r.maxBuf == LaterLimit(max, size) && |d| == size
    ensures Receive(r, Payload(r.seqno, Encode(d)), []).reply == Accepted
            <==> max <= 0 || max >= (size + 2) / 3 * 3 || (max <= size && size % 3 == 0)
  {
    hide Encode, Base64.Decode, Strip, Receive;
    EmptyBufferAccepts(r, d);
  }

  // A new connection raises a limit below the block size agreed to two blocks, which
  // take a full block; any other limit stays as it was configured. If no block size
  // was agreed, blocks have the default size and the limit stays too.
  lemma InitialLimitFitsBlock(r: Receiver, d: seq<byte>, max: int, agreed: nat)
    requires r.buf == [] && r.maxBuf == InitialLimit(max, agreed) && |d| == NewSender(agreed).size
    ensures |d| == if agreed == 0 then 2048 else agreed
    ensures Receive(r, Payload(r.seqno, Encode(d)), []).reply == Accepted
            <==> max <= 0 || max < agreed || max >= (|d| + 2) / 3 * 3
    ensures r.maxBuf == if 0 < max < agreed then agreed + agreed else max
  {
    hide Encode, Base64.Decode, Strip, Receive;
    EmptyBufferAccepts(r, d);
  }

  // ----- The order of payloads -----

  // A payload is refused as unexpected exactly if its number is not the next one,
  // and then changes nothing; any other advances the counter. So a payload that
  // comes twice is refused the second time, and one that comes too early is refused
  // and can still come in its place.
  lemma NumbersAreChecked(r: Receiver, p: Payload, debris: seq<byte>)
    requires r.seqno < WRAP
    ensures Receive(r, p, debris).reply == Unexpected <==> p.seqno != r.seqno
    ensures p.seqno != r.seqno ==> Receive(r, p, debris).receiver == r
    ensures p.seqno == r.seqno ==>
              && Receive(r, p, debris).receiver.seqno == (if r.seqno == WRAP - 1 then 0 else r.seqno + 1)
              && Receive(Receive(r, p, debris).receiver, p, debris).reply == Unexpected
  {
    hide Base64.Decode, Strip;
  }

  // Of the payloads with the next number, those are refused for want of room that
  // might exceed the limit; corrupt ones are answered as such; the others' bytes
  // are put behind those in the buffer.
  lemma ExpectedIsHandled(r: Receiver, p: Payload, debris: seq<byte>)
    requires p.seqno == r.seqno
    ensures var s := Receive(r, p, debris); var full := r.maxBuf > 0 && |r.buf| + |p.text| / 4 * 3 > r.maxBuf;
            && (s.reply == NoRoom <==> full)
            && (s.reply == Garbled <==> !full && Base64.Decode(Strip(p.text)).None?)
            && s.receiver.maxBuf == r.maxBuf
            && (s.reply == Accepted ==> s.receiver.buf == r.buf + Bytes(p))
            && (s.reply == Garbled ==> s.receiver.buf == r.buf + debris)
            && (s.reply == NoRoom ==> s.receiver.buf == r.buf)
  {
    hide Base64.Decode, Strip;
  }

  // Closing a second time does nothing, and a closed connection takes no data.
  lemma ClosedStaysClosed(f: Fates, s: Sender, p: seq<byte>)
    requires WellFormed(s)
    ensures ConnClose(f, s).closed && ConnClose(f, ConnClose(f, s)) == ConnClose(f, s)
    ensures s.closed ==> ConnWrite(f, s, p) == Taken(s, 0)
  {
    hide FlushBuffer, EncodeClose;
  }

  // ----- Payload sizes -----

  // Some payload from the n-th on carries more than size bytes.
  predicate TooLong(out: seq<Payload>, n: nat, size: nat) {
    exists i | n <= i < |out| :: |Bytes(out[i])| > size
  }

  // The longest payload that m bytes make the encoder put out when it holds held.
  function Longest(held: nat, m: nat): nat
    requires held <= 2
  {
    if held == 0 then WholeGroups(m)
    else if held + m < 3 then 0
    else
      var rest := WholeGroups(m - (3 - held));
      if rest > 3 then rest else 3
  }

  lemma SendBytes(f: Fates, c: Carrier, d: seq<byte>)
    requires Send(f, c, Encode(d)).ok
    ensures var out := Send(f, c, Encode(d)).carrier.out;
            |out| == |c.out| + 1 && c.out <= out && Bytes(out[|c.out|]) == d
  {
    hide Encode, Bytes;
    EncodedBytes(c.seqno, d);
  }

  lemma Remainder(n: nat, m: nat)
    requires m <= n && m % 3 == 0
    ensures (n - m) % 3 == n % 3
  {
  }

  lemma GroupsShrink(n: nat)
    ensures WholeGroups(n - WholeGroups(n)) <= WholeGroups(n)
  {
  }

  lemma {:induction false} InteriorSizes(f: Fates, c: Carrier, p: seq<byte>)
    requires !EncodeInterior(f, c, p).encoder.failed
    ensures var r := EncodeInterior(f, c, p);
            && c.out <= r.carrier.out && |r.encoder.held| == |p| % 3
            && (forall i | |c.out| <= i < |r.carrier.out| :: |Bytes(r.carrier.out[i])| <= WholeGroups(|p|))
            && (|p| >= 3 ==> |r.carrier.out| > |c.out| && |Bytes(r.carrier.out[|c.out|])| == WholeGroups(|p|))
            && (|p| < 3 ==> r.carrier == c)
    decreases |p|
  {
    hide Encode, Bytes, Send, WholeGroups;
    if |p| >= 3 {
      var nn := WholeGroups(|p|);
      var s := Send(f, c, Encode(p[..nn]));
      SendBytes(f, c, p[..nn]);
      InteriorSizes(f, s.carrier, p[nn..]);
      Remainder(|p|, nn);
      GroupsShrink(|p|);
      var out := EncodeInterior(f, c, p).carrier.out;
      forall i | |c.out| <= i < |out| ensures |Bytes(out[i])| <= WholeGroups(|p|) {
        if i == |c.out| { assert out[i] == s.carrier.out[i]; }
      }
      assert out[|c.out|] == s.carrier.out[|c.out|];
    }
  }

  lemma {:induction false} InteriorTooLong(f: Fates, c: Carrier, p: seq<byte>, size: nat)
    requires !EncodeInterior(f, c, p).encoder.failed
    ensures TooLong(EncodeInterior(f, c, p).carrier.out, |c.out|, size) <==> WholeGroups(|p|) > size
  {
    hide EncodeInterior, Bytes;
    InteriorSizes(f, c, p);
    var out := EncodeInterior(f, c, p).carrier.out;
    if |p| >= 3 { assert |Bytes(out[|c.out|])| == WholeGroups(|p|); }
  }

  lemma TooLongSplit(a: seq<Payload>, b: seq<Payload>, n: nat, size: nat)
    requires a <= b && n <= |a|
    ensures TooLong(b, n, size) <==> TooLong(a, n, size) || TooLong(b, |a|, size)
  {
    hide Bytes;
    if TooLong(a, n, size) {
      var i :| n <= i < |a| && |Bytes(a[i])| > size;
      assert b[i] == a[i];
    }
    if TooLong(b, n, size) {
      var i :| n <= i < |b| && |Bytes(b[i])| > size;
      if i < |a| { assert a[i] == b[i]; }
    }
  }

  lemma OneMore(out: seq<Payload>, n: nat, size: nat)
    requires |out| == n + 1
    ensures TooLong(out, n, size) <==> |Bytes(out[n])| > size
  {
    hide Bytes;
  }

  lemma NoneMore(out: seq<Payload>, size: nat)
    ensures !TooLong(out, |out|, size)
  {
  }

  lemma EncoderSizes(f: Fates, e: Encoder, c: Carrier, p: seq<byte>, size: nat)
    requires !e.failed && |e.held| <= 2 && !EncodeWrite(f, e, c, p).encoder.failed
    ensures var r := EncodeWrite(f, e, c, p);
            && c.out <= r.carrier.out && |r.encoder.held| == (|e.held| + |p|) % 3
            && (TooLong(r.carrier.out, |c.out|, size) <==> Longest(|e.held|, |p|) > size)
  {
    hide Encode, Bytes, EncodeInterior, Send, WholeGroups, TooLong;
    if |e.held| == 0 {
      InteriorSizes(f, c, p);
      InteriorTooLong(f, c, p, size);
    } else if |e.held| + |p| >= 3 {
      var k := 3 - |e.held|;
      var s := Send(f, c, Encode(e.held + p[..k]));
      SendBytes(f, c, e.held + p[..k]);
      InteriorSizes(f, s.carrier, p[k..]);
      InteriorTooLong(f, s.carrier, p[k..], size);
      TooLongSplit(s.carrier.out, EncodeInterior(f, s.carrier, p[k..]).carrier.out, |c.out|, size);
      OneMore(s.carrier.out, |c.out|, size);
      assert (|e.held| + |p|) % 3 == (|p| - k) % 3;
    } else {
      NoneMore(c.out, size);
    }
  }

  lemma FlushSizes(f: Fates, s: Sender)
    requires WellFormed(s) && !Broken(s) && !Broken(FlushBuffer(f, s))
    ensures var t := FlushBuffer(f, s);
            && s.carrier.out <= t.carrier.out && |t.encoder.held| == (|s.encoder.held| + |s.buf|) % 3
            && (TooLong(t.carrier.out, |s.carrier.out|, s.size)
              <==> s.buf != [] && Longest(|s.encoder.held|, |s.buf|) > s.size)
  {
    hide EncodeWrite, Bytes;
    if s.buf != [] { EncoderSizes(f, s.encoder, s.carrier, s.buf, s.size); }
  }

  // Writing n bytes to an empty buffer.
  lemma DirectSizes(f: Fates, s: Sender, p: seq<byte>)
    requires WellFormed(s) && !Broken(s) && s.buf == [] && !Broken(BufferWrite(f, s, p).sender)
    ensures var t := BufferWrite(f, s, p).sender;
            && s.carrier.out <= t.carrier.out
            && (TooLong(t.carrier.out, |s.carrier.out|, s.size)
              <==> |p| > s.size && Longest(|s.encoder.held|, |p|) > s.size)
  {
    hide EncodeWrite, Bytes, Longest;
    if |p| > s.size {
      var e := EncodeWrite(f, s.encoder, s.carrier, p);
      var t := s.(failed := e.encoder.failed, encoder := e.encoder, carrier := e.carrier);
      assert !e.encoder.failed;
      assert p[e.n..] == [];
      EncoderSizes(f, s.encoder, s.carrier, p, s.size);
    }
  }

  // When a write of n bytes makes some payload longer than size: with held bytes
  // in the encoder and buffered ones in the buffer.
  predicate WriteExceeds(size: nat, buffered: nat, held: nat, n: nat)
    requires held <= 2 && buffered <= size
  {
    n > size - buffered &&
    if buffered == 0 then Longest(held, n) > size
    else
      var rest := n - (size - buffered);
      Longest(held, size) > size || (rest > size && Longest((held + size) % 3, rest) > size)
  }

  // A flush reports what broke the encoder.
  lemma FlushKeepsEncoder(f: Fates, s: Sender)
    requires WellFormed(s) && !Broken(s)
    ensures Broken(FlushBuffer(f, s)) ==> FlushBuffer(f, s).failed
  {
    hide EncodeWrite;
  }

  lemma WriteSizes(f: Fates, s: Sender, p: seq<byte>)
    requires WellFormed(s) && !Broken(s) && !Broken(BufferWrite(f, s, p).sender)
    ensures TooLong(BufferWrite(f, s, p).sender.carrier.out, |s.carrier.out|, s.size)
            <==> WriteExceeds(s.size, |s.buf|, |s.encoder.held|, |p|)
  {
    hide EncodeWrite, Bytes, Longest, FlushBuffer;
    if |p| <= s.size - |s.buf| {
    } else if s.buf == [] {
      DirectSizes(f, s, p);
    } else {
      var k := s.size - |s.buf|;
      var full := s.(buf := s.buf + p[..k]);
      var t := FlushBuffer(f, full);
      var r := BufferWrite(f, t, p[k..]).sender;
      assert BufferWrite(f, s, p).sender == r;
      FlushKeepsEncoder(f, full);
      if !t.failed {
        FlushSizes(f, full);
        DirectSizes(f, t, p[k..]);
        TooLongSplit(t.carrier.out, r.carrier.out, |s.carrier.out|, s.size);
      }
    }
  }

  lemma CloseSizes(f: Fates, s: Sender)
    requires WellFormed(s) && !Broken(s) && !s.closed && !Broken(ConnClose(f, s))
    ensures TooLong(ConnClose(f, s).carrier.out, |s.carrier.out|, s.size)
            <==> || (s.buf != [] && Longest(|s.encoder.held|, |s.buf|) > s.size)
                 || (|s.encoder.held| + |s.buf|) % 3 > s.size
  {
    hide EncodeWrite, Bytes, Longest, FlushBuffer, Encode;
    var c := s.(closed := true);
    var t := FlushBuffer(f, c);
    FlushKeepsEncoder(f, c);
    FlushSizes(f, c);
    if |t.encoder.held| > 0 {
      var last := Send(f, t.carrier, Encode(t.encoder.held)).carrier;
      EncodedBytes(t.carrier.seqno, t.encoder.held);
      assert last.out[|t.carrier.out|] == Payload(t.carrier.seqno, Encode(t.encoder.held));
      TooLongSplit(t.carrier.out, last.out, |s.carrier.out|, s.size);
    } else {
      TooLongSplit(t.carrier.out, t.carrier.out, |s.carrier.out|, s.size);
    }
  }

  // When a step puts out a payload of more than a block.
  predicate Exceeds(s: Sender, a: Action)
    requires WellFormed(s) && |s.encoder.held| <= 2
  {
    var size, buffered, held := s.size, |s.buf|, |s.encoder.held|;
    match a
    case Write(p) => WriteExceeds(size, buffered, held, |p|)
    case Flush => buffered > 0 && Longest(held, buffered) > size
    case Close => (buffered > 0 && Longest(held, buffered) > size) || (held + buffered) % 3 > size
    case _ => false
  }

  // The block size does not bound payloads: data that exceeds the buffer goes
  // past it, and what the encoder holds comes on top. In every reachable state of
  // an open and unbroken sender, a step that does not fail puts a payload of more
  // than the block size on the wire if and only if Exceeds says so.
  lemma BlockSizeExceeded(f: Fates, blockSize: nat, maxBufSize: int, actions: seq<Action>, a: Action)
    ensures var y := Run(f, Start(blockSize, maxBufSize), actions);
            && Possible(y)
            && var out := Step(f, y, a).sender.carrier.out;
               (!y.sender.closed && !Broken(y.sender) && !Broken(Step(f, y, a).sender) ==>
                  (TooLong(out, |y.sender.carrier.out|, y.sender.size) <==> Exceeds(y.sender, a)))
  {
    hide Consistent, Accounted, BufferWrite, FlushBuffer, ConnClose, Bytes, WriteExceeds, Longest;
    var y := Run(f, Start(blockSize, maxBufSize), actions);
    AccountedOf(f, y);
    if !y.sender.closed && !Broken(y.sender) && !Broken(Step(f, y, a).sender) {
      match a
      case Write(p) => WriteSizes(f, y.sender, p);
      case Flush => FlushSizes(f, y.sender);
      case Close => CloseSizes(f, y.sender);
      case _ =>
    }
  }

  // Blocks of 768 bytes and more, the default among them, are never exceeded, for
  // that is as much as the encoder puts out at once. Those of three bytes and more
  // are only exceeded by single writes of more than a block.
  lemma LargeBlocks(s: Sender, a: Action)
    requires WellFormed(s) && |s.encoder.held| <= 2
    ensures s.size >= CHUNK ==> !Exceeds(s, a)
    ensures s.size >= 3 && Exceeds(s, a) ==> a.Write? && |a.data| > s.size
    ensures DEFAULT_BLOCK >= CHUNK
  {
  }

  lemma SenderOf(f: Fates, y: System, p: seq<byte>)
    requires Possible(y)
    ensures Step(f, y, Write(p)).sender == ConnWrite(f, y.sender, p).sender
  {
  }

  // Writing a byte to a buffer of one byte, with at most one more at the encoder.
  lemma ByteWritten(f: Fates, s: Sender, x: byte, t: Sender)
    requires WellFormed(s) && s.size == 1 && !Broken(s) && !s.closed && |s.encoder.held| + |s.buf| <= 2
    requires t == s.(buf := [x], encoder := if s.buf == [] then s.encoder else Encoder(s.encoder.held + s.buf, false))
    ensures ConnWrite(f, s, [x]).sender == t
  {
    hide Encode;
    if s.buf == [] {
      assert [] + [x] == [x];
    } else {
      var full := s.(buf := s.buf + [x][..0]);
      assert full == s;
      assert s.buf[..1] == s.buf && s.buf[1..] == [];
      var e := EncodeWrite(f, s.encoder, s.carrier, s.buf);
      assert e == Encoded(Encoder(s.encoder.held + s.buf, false), s.carrier, 1);
      var u := FlushBuffer(f, s);
      assert u == s.(buf := [], encoder := e.encoder);
      assert [x][0..] == [x] && [] + [x] == [x];
      assert BufferWrite(f, u, [x]).sender == t;
    }
  }

  lemma SmallExceeds(s: Sender, a: byte)
    requires WellFormed(s) && s.size == 1 && |s.buf| == 1 && |s.encoder.held| == 2
    ensures Exceeds(s, Flush) && Exceeds(s, Write([a])) && Exceeds(s, Close)
  {
  }

  // With blocks of one byte, three writes of a byte each leave two bytes with the
  // encoder and one in the buffer; flushing them, or writing or closing, then puts
  // out a payload of three.
  lemma SmallBlock(f: Fates, maxBufSize: int, a: byte, b: byte, c: byte)
    ensures var y := IbbSystem.Run(f, Start(1, maxBufSize), [Write([a]), Write([b]), Write([c])]);
            && WellFormed(y.sender) && y.sender.size == 1 && !Broken(y.sender) && !y.sender.closed
            && y.sender.encoder.held == [a, b] && y.sender.buf == [c]
            && Exceeds(y.sender, Flush) && Exceeds(y.sender, Write([a])) && Exceeds(y.sender, Close)
  {
    hide Consistent, Step, Exceeds;
    var y0 := Start(1, maxBufSize);
    RunOfThree(f, y0, Write([a]), Write([b]), Write([c]));
    var s0 := y0.sender;
    var s1, s2, s3 := s0.(buf := [a]), s0.(buf := [b], encoder := Encoder([a], false)),
                      s0.(buf := [c], encoder := Encoder([a, b], false));
    ByteWritten(f, s0, a, s1);
    ByteWritten(f, s1, b, s2);
    ByteWritten(f, s2, c, s3);
    SenderOf(f, y0, [a]);
    SenderOf(f, Step(f, y0, Write([a])), [b]);
    SenderOf(f, Step(f, Step(f, y0, Write([a])), Write([b])), [c]);
    SmallExceeds(s3, a);
  }
}
