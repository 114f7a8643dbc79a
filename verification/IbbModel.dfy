// In-band bytestreams (XEP-0047): the sending side (write buffer, base64
// encoder, numbered payloads) and the receiving side (number check, bounded
// read buffer) as functions. The classes in Ibb.dfy are proved equal to them.
module IbbModel {
  import opened Wrappers
  import opened Utf8
  import opened Base64

  // Sequence numbers are 16 bits wide and wrap around.
  const WRAP := 65536

  const DEFAULT_BLOCK := 2048

  datatype Payload = Payload(seqno: nat, text: seq<byte>)

  // How handing a payload to the session may end: it goes out and no error
  // comes back, it never goes out, or it goes out and an error comes back (a
  // refusal, a timeout, a lost acknowledgement).
  datatype Fate = Sent | Lost | SentWithError

  // The fate of the n-th payload handed over.
  type Fates = nat -> Fate

  // The payload writer: the next number, and what went out so far.
  datatype Carrier = Carrier(seqno: nat, attempts: nat, out: seq<Payload>)

  datatype Sending = Sending(carrier: Carrier, ok: bool)

  function Send(f: Fates, c: Carrier, text: seq<byte>): Sending {
    var out := if f(c.attempts) == Lost then c.out else c.out + [Payload(c.seqno, text)];
    if f(c.attempts) == Sent then Sending(Carrier((c.seqno + 1) % WRAP, c.attempts + 1, out), true)
    else Sending(Carrier(c.seqno, c.attempts + 1, out), false)
  }

  // ----- The base64 encoder: holds back what does not fill a group -----

  // The encoder's output buffer has room for this many input bytes.
  const CHUNK := 768

  datatype Encoder = Encoder(held: seq<byte>, failed: bool)

  datatype Encoded = Encoded(encoder: Encoder, carrier: Carrier, n: nat)

  function WholeGroups(n: nat): (m: nat)
    ensures m <= n && m <= CHUNK && m % 3 == 0 && (n >= 3 ==> m >= 3) && (n <= CHUNK ==> n - m < 3)
  {
    if n >= CHUNK then CHUNK else n - n % 3
  }

  function EncodeInterior(f: Fates, c: Carrier, p: seq<byte>): (r: Encoded)
    ensures r.n <= |p| && (!r.encoder.failed ==> r.n == |p|)
    decreases |p|
  {
    if |p| < 3 then Encoded(Encoder(p, false), c, |p|)
    else
      var nn := WholeGroups(|p|);
      var s := Send(f, c, Encode(p[..nn]));
      if !s.ok then Encoded(Encoder([], true), s.carrier, 0)
      else
        var r := EncodeInterior(f, s.carrier, p[nn..]);
        r.(n := nn + r.n)
  }

  lemma {:induction false} InteriorHolds(f: Fates, c: Carrier, p: seq<byte>)
    ensures var r := EncodeInterior(f, c, p); !r.encoder.failed ==> |r.encoder.held| <= 2
    decreases |p|
  {
    if |p| >= 3 {
      var nn := WholeGroups(|p|);
      InteriorHolds(f, Send(f, c, Encode(p[..nn])).carrier, p[nn..]);
    }
  }

  function EncodeWrite(f: Fates, e: Encoder, c: Carrier, p: seq<byte>): (r: Encoded)
    requires !e.failed ==> |e.held| <= 2
    ensures r.n <= |p| && (!r.encoder.failed ==> r.n == |p|)
    ensures !r.encoder.failed ==> |r.encoder.held| <= 2
    ensures e.failed ==> r.encoder.failed
  {
    if e.failed then Encoded(e, c, 0)
    else if |e.held| > 0 then
      var k := if |p| < 3 - |e.held| then |p| else 3 - |e.held|;
      var held := e.held + p[..k];
      if |held| < 3 then Encoded(Encoder(held, false), c, k)
      else
        var s := Send(f, c, Encode(held));
        if !s.ok then Encoded(Encoder(held, true), s.carrier, k)
        else
          InteriorHolds(f, s.carrier, p[k..]);
          var r := EncodeInterior(f, s.carrier, p[k..]);
          r.(n := k + r.n)
    else
      InteriorHolds(f, c, p);
      EncodeInterior(f, c, p)
  }

  // The last, possibly padded, group.
  function EncodeClose(f: Fates, e: Encoder, c: Carrier): Encoded {
    if !e.failed && |e.held| > 0 then
      var s := Send(f, c, Encode(e.held));
      Encoded(Encoder([], !s.ok), s.carrier, 0)
    else Encoded(e, c, 0)
  }

  // ----- The sending half of a connection -----

  datatype Sender = Sender(size: nat, buf: seq<byte>, failed: bool, encoder: Encoder, carrier: Carrier, closed: bool)

  predicate WellFormed(s: Sender) {
    && s.size >= 1 && |s.buf| <= s.size
    && (!s.encoder.failed ==> |s.encoder.held| <= 2)
  }

  // Whether anything the sender wrote has failed; it then stays that way.
  predicate Broken(s: Sender) { s.failed || s.encoder.failed }

  function FlushBuffer(f: Fates, s: Sender): (r: Sender)
    requires WellFormed(s)
    ensures WellFormed(r) && r.size == s.size && r.closed == s.closed
    ensures !r.failed ==> r.buf == []
  {
    if s.failed || s.buf == [] then s
    else
      var r := EncodeWrite(f, s.encoder, s.carrier, s.buf);
      s.(buf := s.buf[r.n..], failed := r.encoder.failed, encoder := r.encoder, carrier := r.carrier)
  }

  datatype Taken = Taken(sender: Sender, n: nat)

  // The buffered writer: data that exceeds an empty buffer bypasses it.
  function BufferWrite(f: Fates, s: Sender, p: seq<byte>): (r: Taken)
    requires WellFormed(s)
    ensures WellFormed(r.sender) && r.sender.size == s.size && r.sender.closed == s.closed
    decreases !s.failed, |p|, |s.buf|
  {
    if |p| > s.size - |s.buf| && !s.failed then
      if s.buf == [] then
        var e := EncodeWrite(f, s.encoder, s.carrier, p);
        var r := BufferWrite(f, s.(failed := e.encoder.failed, encoder := e.encoder, carrier := e.carrier), p[e.n..]);
        r.(n := e.n + r.n)
      else
        var k := s.size - |s.buf|;
        var r := BufferWrite(f, FlushBuffer(f, s.(buf := s.buf + p[..k])), p[k..]);
        r.(n := k + r.n)
    else if s.failed then Taken(s, 0)
    else Taken(s.(buf := s.buf + p), |p|)
  }

  // The part of a connection that writes.
  function ConnWrite(f: Fates, s: Sender, b: seq<byte>): (r: Taken)
    requires WellFormed(s)
    ensures WellFormed(r.sender)
  {
    if s.closed then Taken(s, 0) else BufferWrite(f, s, b)
  }

  // Closing flushes the buffer and then the encoder.
  function ConnClose(f: Fates, s: Sender): (r: Sender)
    requires WellFormed(s)
    ensures WellFormed(r)
  {
    if s.closed then s
    else
      var flushed := FlushBuffer(f, s.(closed := true));
      if flushed.failed then flushed
      else
        var e := EncodeClose(f, flushed.encoder, flushed.carrier);
        flushed.(encoder := e.encoder, carrier := e.carrier)
  }

  function NewSender(blockSize: nat): (s: Sender)
    ensures WellFormed(s)
  {
    Sender(if blockSize == 0 then DEFAULT_BLOCK else blockSize, [], false, Encoder([], false), Carrier(0, 0, []), false)
  }

  // ----- The receiving half of a connection -----

  datatype Receiver = Receiver(seqno: nat, buf: seq<byte>, maxBuf: int)

  // No error, an unexpected number, no room in the buffer, or corrupt text.
  datatype Reply = Accepted | Unexpected | NoRoom | Garbled

  datatype Received = Received(receiver: Receiver, reply: Reply)

  function DecodedLen(text: seq<byte>): nat { |text| / 4 * 3 }

  // A data payload arrives. Corrupt text may leave some decoded bytes behind.
  function Receive(r: Receiver, p: Payload, debris: seq<byte>): Received {
    if p.seqno != r.seqno then Received(r, Unexpected)
    else
      var counted := r.(seqno := (r.seqno + 1) % WRAP);
      if r.maxBuf > 0 && |r.buf| + DecodedLen(p.text) > r.maxBuf then Received(counted, NoRoom)
      else match Base64.Decode(Strip(p.text))
        case Some(d) => Received(counted.(buf := r.buf + d), Accepted)
        case None => Received(counted.(buf := r.buf + debris), Garbled)
  }

  // Limit of a new connection's read buffer for a configured limit.
  function InitialLimit(maxBufSize: int, blockSize: nat): int {
    if maxBufSize < blockSize && maxBufSize > 0 then 2 * blockSize else maxBufSize
  }

  // Changing the limit later.
  function LaterLimit(max: int, size: nat): int {
    if max < size && max > 0 then size else max
  }
}
