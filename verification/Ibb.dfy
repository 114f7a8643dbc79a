// An in-band bytestream connection with its state updated in place.
module Ibb {
  import opened Wrappers
  import opened Utf8
  import Base64
  import M = IbbModel

  // The session as the payload writer sees it: the n-th payload handed over
  // meets the n-th fate.
  class Session {
    const fates: M.Fates
    var attempts: nat
    var out: seq<M.Payload>

    constructor (fates: M.Fates)
      ensures this.fates == fates && attempts == 0 && out == []
    {
      this.fates, attempts, out := fates, 0, [];
    }

    method Encode(p: M.Payload) returns (ok: bool)
      modifies this
      ensures attempts == old(attempts) + 1 && ok == (fates(old(attempts)) == M.Sent)
      ensures out == old(out) + if fates(old(attempts)) == M.Lost then [] else [p]
    {
      var fate := fates(attempts);
      attempts := attempts + 1;
      if fate != M.Lost {
        out := out + [p];
      }
      ok := fate == M.Sent;
    }
  }

  // Carries encoded text as numbered payloads.
  class StanzaWriter {
    const s: Session
    var seqno: nat

    constructor (s: Session)
      ensures this.s == s && seqno == 0
    {
      this.s, seqno := s, 0;
    }

    function Carrier(): M.Carrier
      reads this, s
    {
      M.Carrier(seqno, s.attempts, s.out)
    }

    method Write(p: seq<byte>) returns (ok: bool)
      modifies this, s
      ensures M.Sending(Carrier(), ok) == M.Send(s.fates, old(Carrier()), p)
    {
      ok := s.Encode(M.Payload(seqno, p));
      if !ok {
        return;
      }
      seqno := (seqno + 1) % M.WRAP;
    }
  }

  // The base64 encoder: emits whole groups, holds back up to two bytes.
  class Encoder {
    const w: StanzaWriter
    var buf: seq<byte>
    var err: bool

    constructor (w: StanzaWriter)
      ensures this.w == w && Abs() == M.Encoder([], false)
    {
      this.w, buf, err := w, [], false;
    }

    function Abs(): M.Encoder
      reads this
    {
      M.Encoder(buf, err)
    }

    predicate Valid()
      reads this
    {
      !err ==> |buf| <= 2
    }

    method Write(data: seq<byte>) returns (n: nat)
      requires Valid()
      modifies this, w, w.s
      ensures Valid()
      ensures M.Encoded(Abs(), w.Carrier(), n) == M.EncodeWrite(w.s.fates, old(Abs()), old(w.Carrier()), data)
    {
      hide Base64.Encode, M.EncodeInterior;
      if err {
        return 0;
      }
      var p := data;
      n := 0;
      if |buf| > 0 {
        var i := 0;
        while i < |p| && |buf| < 3
          invariant 0 <= i <= |p| && buf == old(buf) + p[..i] && |buf| <= 3
          invariant err == old(err) && w.Carrier() == old(w.Carrier())
        {
          buf := buf + [p[i]];
          i := i + 1;
        }
        n := n + i;
        if |buf| < 3 {
          assert p[..i] == p;
          return;
        }
        p := p[i..];
        var ok := w.Write(Base64.Encode(buf));
        err := !ok;
        if err {
          return;
        }
        buf := [];
      }
      M.InteriorHolds(w.s.fates, w.Carrier(), p);
      n := WriteInterior(p, n);
    }

    // Large interior chunks, then the trailing fringe.
    method WriteInterior(data: seq<byte>, before: nat) returns (n: nat)
      requires !err && buf == []
      modifies this, w, w.s
      ensures n >= before
      ensures M.Encoded(Abs(), w.Carrier(), n - before) == M.EncodeInterior(w.s.fates, old(w.Carrier()), data)
    {
      hide Base64.Encode;
      var p := data;
      n := before;
      while |p| >= 3
        invariant !err && buf == [] && n >= before
        invariant var r := M.EncodeInterior(w.s.fates, w.Carrier(), p);
                  r.(n := n - before + r.n) == M.EncodeInterior(w.s.fates, old(w.Carrier()), data)
        decreases |p|
      {
        var nn := M.CHUNK;
        if nn > |p| {
          nn := |p|;
          nn := nn - nn % 3;
        }
        var ok := w.Write(Base64.Encode(p[..nn]));
        err := !ok;
        if err {
          return;
        }
        n := n + nn;
        p := p[nn..];
      }
      buf := p;
      n := n + |p|;
    }

    method Close() returns (ok: bool)
      requires Valid()
      modifies this, w, w.s
      ensures Valid() && ok == !err
      ensures M.Encoded(Abs(), w.Carrier(), 0) == M.EncodeClose(w.s.fates, old(Abs()), old(w.Carrier()))
    {
      if !err && |buf| > 0 {
        var sent := w.Write(Base64.Encode(buf));
        err := !sent;
        buf := [];
      }
      ok := !err;
    }
  }

  // A connection: a buffered writer on top of the encoder, and a read buffer.
  class Conn {
    const size: nat
    const enc: Encoder
    var writeBuf: seq<byte>
    var writeErr: bool
    var closed: bool
    var seqno: nat
    var readBuf: seq<byte>
    var maxBufSize: int

    constructor (s: Session, blockSize: nat, maxBufSize: int)
      requires s.attempts == 0 && s.out == []
      ensures Valid() && fresh(enc) && fresh(enc.w) && enc.w.s == s
      ensures Sender() == M.NewSender(blockSize)
      ensures Receiver() == M.Receiver(0, [], M.InitialLimit(maxBufSize, blockSize))
    {
      var limit := maxBufSize;
      if limit < blockSize && limit > 0 {
        limit := 2 * blockSize;
      }
      var w := new StanzaWriter(s);
      enc := new Encoder(w);
      size := if blockSize == 0 then M.DEFAULT_BLOCK else blockSize;
      writeBuf, writeErr, closed := [], false, false;
      seqno, readBuf, this.maxBufSize := 0, [], limit;
    }

    function Sender(): M.Sender
      reads this, enc, enc.w, enc.w.s
    {
      M.Sender(size, writeBuf, writeErr, enc.Abs(), enc.w.Carrier(), closed)
    }

    function Receiver(): M.Receiver
      reads this
    {
      M.Receiver(seqno, readBuf, maxBufSize)
    }

    predicate Valid()
      reads this, enc, enc.w, enc.w.s
    {
      M.WellFormed(Sender())
    }

    // bufio.Writer.Flush
    method FlushBuffer() returns (ok: bool)
      requires Valid()
      modifies this`writeBuf, this`writeErr, enc, enc.w, enc.w.s
      ensures Valid() && Sender() == M.FlushBuffer(enc.w.s.fates, old(Sender())) && ok == !writeErr
    {
      if writeErr {
        return false;
      }
      if |writeBuf| == 0 {
        return true;
      }
      var n := enc.Write(writeBuf);
      writeBuf := writeBuf[n..];
      writeErr := enc.err;
      ok := !writeErr;
    }

    // bufio.Writer.Write
    method BufferWrite(data: seq<byte>) returns (nn: nat)
      requires Valid()
      modifies this`writeBuf, this`writeErr, enc, enc.w, enc.w.s
      ensures Valid() && M.Taken(Sender(), nn) == M.BufferWrite(enc.w.s.fates, old(Sender()), data)
    {
      hide M.EncodeWrite, M.FlushBuffer;
      var p := data;
      nn := 0;
      while |p| > size - |writeBuf| && !writeErr
        invariant Valid()
        invariant var r := M.BufferWrite(enc.w.s.fates, Sender(), p);
                  r.(n := nn + r.n) == M.BufferWrite(enc.w.s.fates, old(Sender()), data)
        decreases !writeErr, |p|, |writeBuf|
      {
        var n: nat;
        if |writeBuf| == 0 {
          n := enc.Write(p);
          writeErr := enc.err;
        } else {
          n := size - |writeBuf|;
          writeBuf := writeBuf + p[..n];
          var ok := FlushBuffer();
        }
        nn := nn + n;
        p := p[n..];
      }
      if writeErr {
        return;
      }
      writeBuf := writeBuf + p;
      nn := nn + |p|;
    }

    method Write(b: seq<byte>) returns (n: nat)
      requires Valid()
      modifies this`writeBuf, this`writeErr, enc, enc.w, enc.w.s
      ensures Valid() && M.Taken(Sender(), n) == M.ConnWrite(enc.w.s.fates, old(Sender()), b)
    {
      if closed {
        return 0;
      }
      n := BufferWrite(b);
    }

    method Flush() returns (ok: bool)
      requires Valid()
      modifies this`writeBuf, this`writeErr, enc, enc.w, enc.w.s
      ensures Valid() && Sender() == M.FlushBuffer(enc.w.s.fates, old(Sender())) && ok == !writeErr
    {
      ok := FlushBuffer();
    }

    method Close() returns (ok: bool)
      requires Valid()
      modifies this`writeBuf, this`writeErr, this`closed, enc, enc.w, enc.w.s
      ensures Valid() && Sender() == M.ConnClose(enc.w.s.fates, old(Sender()))
      ensures !old(closed) && ok ==> writeBuf == [] && enc.buf == []
      ensures ok == (old(closed) || !M.Broken(Sender()))
    {
      if closed {
        return true;
      }
      closed := true;
      ok := Flush();
      if !ok {
        return;
      }
      ok := enc.Close();
    }

    // What a call to Read hands out when the buffer is not empty.
    method Read(n: nat) returns (b: seq<byte>)
      modifies this`readBuf
      ensures old(readBuf) == b + readBuf && |b| == if n < |old(readBuf)| then n else |old(readBuf)|
    {
      var k := if n < |readBuf| then n else |readBuf|;
      b := readBuf[..k];
      readBuf := readBuf[k..];
    }

    method SetReadBuffer(max: int)
      modifies this`maxBufSize
      ensures max > 0 ==> maxBufSize >= size && maxBufSize >= max && (maxBufSize == max || maxBufSize == size)
      ensures max <= 0 ==> maxBufSize == max
      ensures maxBufSize == M.LaterLimit(max, size)
    {
      maxBufSize := if max < size && max > 0 then size else max;
    }

    // The receiving half: a data payload for this stream has arrived.
    method HandlePayload(p: M.Payload, debris: seq<byte>) returns (reply: M.Reply)
      modifies this`seqno, this`readBuf
      ensures M.Received(Receiver(), reply) == M.Receive(old(Receiver()), p, debris)
    {
      if p.seqno != seqno {
        return M.Unexpected;
      }
      seqno := (seqno + 1) % M.WRAP;
      var dataLen := |p.text| / 4 * 3;
      if maxBufSize > 0 && |readBuf| + dataLen > maxBufSize {
        return M.NoRoom;
      }
      var decoded := Base64.Decode(Base64.Strip(p.text));
      if decoded.None? {
        readBuf := readBuf + debris;
        return M.Garbled;
      }
      readBuf := readBuf + decoded.value;
      return M.Accepted;
    }
  }
}
