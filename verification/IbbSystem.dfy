// A sender and a receiver over a first-in first-out channel, as steps.
module IbbSystem {
  import opened Wrappers
  import opened Utf8
  import opened Base64
  import opened IbbModel
  import opened IbbStream

  // The channel is the part of the carrier's output not yet delivered. offered
  // and read are what the two users wrote and read.
  datatype System = System(
    sender: Sender,
    offered: seq<byte>,
    receiver: Receiver,
    replies: seq<Reply>,
    read: seq<byte>)

  datatype Action =
    | Write(data: seq<byte>)
    | Flush
    | Close
    | Deliver
    | Read(n: nat)
    | SetReadBuffer(max: int)

  predicate Possible(y: System) { WellFormed(y.sender) && |y.replies| <= |y.sender.carrier.out| }

  function InFlight(y: System): seq<Payload>
    requires Possible(y)
  {
    y.sender.carrier.out[|y.replies|..]
  }

  // All bytes the receiving side ever accepted.
  function Arrived(y: System): seq<byte> { y.read + y.receiver.buf }

  // What the accepted payloads carry.
  function AcceptedFlow(out: seq<Payload>, replies: seq<Reply>): seq<byte>
    requires |replies| <= |out|
  {
    if replies == [] then []
    else
      var last := |replies| - 1;
      AcceptedFlow(out, replies[..last]) + if replies[last] == Accepted then Bytes(out[last]) else []
  }

  // The invariant of every run: payloads are refused for want of room only,
  // refused ones are counted, and what arrived is what the accepted ones carry.
  predicate Consistent(f: Fates, y: System) {
    var out, n := y.sender.carrier.out, |y.replies|;
    && Accounted(f, y.sender, y.offered) && n <= |out|
    && (forall i | 0 <= i < n :: y.replies[i] == Accepted || y.replies[i] == NoRoom)
    && y.receiver.seqno == n % WRAP
    && Arrived(y) == AcceptedFlow(out, y.replies)
  }

  function Start(blockSize: nat, maxBufSize: int): (y: System)
    ensures Possible(y)
    ensures forall f: Fates :: Consistent(f, y)
  {
    System(NewSender(blockSize), [], Receiver(0, [], InitialLimit(maxBufSize, blockSize)), [], [])
  }

  // One step. A write to a closed or broken stream offers nothing any more.
  function Step(f: Fates, y: System, a: Action): System
    requires Possible(y)
  {
    match a
    case Write(data) =>
      var t := ConnWrite(f, y.sender, data);
      y.(sender := t.sender, offered := if y.sender.closed || Broken(y.sender) then y.offered else y.offered + data)
    case Flush => y.(sender := FlushBuffer(f, y.sender))
    case Close => y.(sender := ConnClose(f, y.sender))
    case Deliver =>
      if InFlight(y) == [] then y
      else
        var r := Receive(y.receiver, InFlight(y)[0], []);
        y.(receiver := r.receiver, replies := y.replies + [r.reply])
    case Read(n) =>
      var k := if n < |y.receiver.buf| then n else |y.receiver.buf|;
      y.(receiver := y.receiver.(buf := y.receiver.buf[k..]), read := y.read + y.receiver.buf[..k])
    case SetReadBuffer(max) =>
      y.(receiver := y.receiver.(maxBuf := LaterLimit(max, y.sender.size)))
  }

  predicate AllAccepted(replies: seq<Reply>) { forall i | 0 <= i < |replies| :: replies[i] == Accepted }

  // It depends on the payloads replied to only.
  lemma {:induction false} AcceptedFlowOf(out: seq<Payload>, more: seq<Payload>, replies: seq<Reply>)
    requires |replies| <= |out| && out <= more
    ensures AcceptedFlow(more, replies) == AcceptedFlow(out, replies)
    decreases |replies|
  {
    if replies != [] { AcceptedFlowOf(out, more, replies[..|replies| - 1]); }
  }

  lemma {:induction false} AllAcceptedFlow(out: seq<Payload>, replies: seq<Reply>)
    requires |replies| <= |out| && AllAccepted(replies)
    ensures AcceptedFlow(out, replies) == Flow(out[..|replies|])
    decreases |replies|
  {
    hide Bytes;
    if replies != [] {
      var last := |replies| - 1;
      AllAcceptedFlow(out, replies[..last]);
      assert out[..|replies|] == out[..last] + [out[last]];
      FlowAppend(out[..last], out[last]);
    }
  }

  // Steps of the sender only put more behind what is already out.
  lemma SenderStep(f: Fates, y: System, z: System)
    requires Consistent(f, y) && Accounted(f, z.sender, z.offered) && y.sender.carrier.out <= z.sender.carrier.out
    requires z.receiver == y.receiver && z.replies == y.replies && z.read == y.read
    ensures Consistent(f, z)
  {
    hide Accounted, AcceptedFlow;
    AcceptedFlowOf(y.sender.carrier.out, z.sender.carrier.out, y.replies);
  }

  // A payload with the expected number that decodes is taken or finds no room.
  lemma ReceiveExpected(r: Receiver, p: Payload)
    requires p.seqno == r.seqno && Base64.Decode(Strip(p.text)).Some?
    ensures var s := Receive(r, p, []);
            && s.receiver.seqno == (r.seqno + 1) % WRAP
            && (s.reply == Accepted || s.reply == NoRoom)
            && s.receiver.buf == if s.reply == Accepted then r.buf + Bytes(p) else r.buf
  {
  }

  lemma CarrierOf(f: Fates, s: Sender, offered: seq<byte>)
    requires Accounted(f, s, offered)
    ensures GoodCarrier(f, s.carrier, Broken(s))
  {
  }

  lemma AccountedOf(f: Fates, y: System)
    requires Consistent(f, y)
    ensures Accounted(f, y.sender, y.offered) && Possible(y)
  {
  }

  lemma DeliverConsistent(f: Fates, y: System)
    requires Consistent(f, y) && |y.replies| < |y.sender.carrier.out|
    ensures Possible(y) && Consistent(f, Step(f, y, Deliver))
  {
    hide Accounted, Base64.Decode, Strip, Bytes, Receive;
    AccountedOf(f, y);
    var out, n := y.sender.carrier.out, |y.replies|;
    var p := out[n];
    assert InFlight(y)[0] == p;
    CarrierOf(f, y.sender, y.offered);
    ReceiveExpected(y.receiver, p);
    var s := Receive(y.receiver, p, []);
    var z := Step(f, y, Deliver);
    assert z.replies[..n] == y.replies;
    Regroup(y.read, y.receiver.buf, if s.reply == Accepted then Bytes(p) else []);
  }

  lemma ReadConsistent(f: Fates, y: System, n: nat)
    requires Consistent(f, y) && Possible(y)
    ensures Consistent(f, Step(f, y, Read(n))) && Arrived(Step(f, y, Read(n))) == Arrived(y)
  {
    hide Accounted, AcceptedFlow;
    var k := if n < |y.receiver.buf| then n else |y.receiver.buf|;
    assert y.receiver.buf == y.receiver.buf[..k] + y.receiver.buf[k..];
  }

  lemma LimitConsistent(f: Fates, y: System, max: int)
    requires Consistent(f, y) && Possible(y)
    ensures Consistent(f, Step(f, y, SetReadBuffer(max)))
  {
    hide Accounted, AcceptedFlow;
  }

  lemma BrokenOpen(f: Fates, s: Sender, offered: seq<byte>)
    requires Accounted(f, s, offered) && Broken(s) && !s.closed
    ensures s.failed
  {
  }

  lemma StepConsistent(f: Fates, y: System, a: Action)
    requires Consistent(f, y)
    ensures Possible(y) && Consistent(f, Step(f, y, a))
  {
    hide Consistent, Accounted;
    AccountedOf(f, y);
    var z := Step(f, y, a);
    match a
    case Write(data) =>
      if y.sender.closed {
        assert z == y;
      } else if Broken(y.sender) {
        BrokenOpen(f, y.sender, y.offered);
        WriteAccountedBroken(f, y.sender, y.offered, data);
        assert z == y;
      } else {
        WriteAccounted(f, y.sender, y.offered, data);
        SenderStep(f, y, z);
      }
    case Flush => FlushAccounted(f, y.sender, y.offered); SenderStep(f, y, z);
    case Close => CloseAccounted(f, y.sender, y.offered); SenderStep(f, y, z);
    case Deliver => if InFlight(y) != [] { DeliverConsistent(f, y); }
    case Read(n) => ReadConsistent(f, y, n);
    case SetReadBuffer(max) => LimitConsistent(f, y, max);
  }

  // A run: the state after a sequence of actions.
  function Run(f: Fates, y: System, actions: seq<Action>): (z: System)
    requires Consistent(f, y)
    ensures Consistent(f, z)
    decreases |actions|
  {
    if actions == [] then y
    else
      StepConsistent(f, y, actions[0]);
      AccountedOf(f, y);
      Run(f, Step(f, y, actions[0]), actions[1..])
  }

  // ----- What a reader can rely on -----

  lemma {:induction false} FlowPrefix(ps: seq<Payload>, n: nat)
    requires n <= |ps|
    ensures Flow(ps) == Flow(ps[..n]) + Flow(ps[n..])
    decreases |ps|
  {
    hide Bytes;
    if n < |ps| {
      var front := ps[..|ps| - 1];
      FlowPrefix(front, n);
      assert front[..n] == ps[..n];
      assert ps[n..][..|ps| - n - 1] == front[n..];
      Regroup(Flow(front[..n]), Flow(front[n..]), Bytes(ps[|ps| - 1]));
    } else {
      assert ps[..n] == ps && ps[n..] == [];
    }
  }

  // Nothing is lost in state y.
  predicate Conserves(y: System)
    requires Possible(y)
  {
    && y.sender.carrier.seqno == (y.receiver.seqno + |InFlight(y)|) % WRAP
    && Arrived(y) + Flow(InFlight(y)) + y.sender.encoder.held + y.sender.buf == y.offered
  }

  lemma ConsistentConserves(f: Fates, y: System)
    requires Consistent(f, y) && Possible(y) && !Broken(y.sender) && AllAccepted(y.replies)
    ensures Conserves(y)
  {
    hide Flow, AcceptedFlow;
    AllAcceptedFlow(y.sender.carrier.out, y.replies);
    FlowPrefix(y.sender.carrier.out, |y.replies|);
  }

  // In every reachable state, whatever failed and was refused: the receiver has
  // counted every payload delivered, refused ones too, and what arrived is
  // exactly what the accepted ones carry, in order.
  lemma ExactlyTheAcceptedArrives(f: Fates, blockSize: nat, maxBufSize: int, actions: seq<Action>)
    ensures var y := Run(f, Start(blockSize, maxBufSize), actions);
            && |y.replies| <= |y.sender.carrier.out|
            && (forall i | 0 <= i < |y.replies| :: y.replies[i] == Accepted || y.replies[i] == NoRoom)
            && y.receiver.seqno == |y.replies| % WRAP
            && Arrived(y) == AcceptedFlow(y.sender.carrier.out, y.replies)
  {
    hide Accounted, AcceptedFlow;
  }

  // Without failures and refusals, in every reachable state: the counters
  // differ by what is in flight, and every byte written is read, in the read
  // buffer, in flight, held by the encoder or in the write buffer, in this order.
  lemma NothingIsLost(f: Fates, blockSize: nat, maxBufSize: int, actions: seq<Action>)
    ensures var y := Run(f, Start(blockSize, maxBufSize), actions);
            Possible(y) && (!Broken(y.sender) && AllAccepted(y.replies) ==> Conserves(y))
  {
    hide Consistent;
    var y := Run(f, Start(blockSize, maxBufSize), actions);
    AccountedOf(f, y);
    if !Broken(y.sender) && AllAccepted(y.replies) { ConsistentConserves(f, y); }
  }

  // No payload is accepted behind a refused one.
  predicate NoneBehind(replies: seq<Reply>) {
    forall i, j | 0 <= i < j < |replies| :: replies[i] != Accepted ==> replies[j] != Accepted
  }

  // Then what is accepted is a beginning of what is delivered.
  lemma {:induction false} AcceptedIsFront(out: seq<Payload>, replies: seq<Reply>) returns (k: nat)
    requires |replies| <= |out| && NoneBehind(replies)
    ensures k <= |replies| && AcceptedFlow(out, replies) == Flow(out[..k])
    ensures AllAccepted(replies[..k]) && (k < |replies| ==> replies[k] != Accepted)
    decreases |replies|
  {
    hide Bytes, Flow;
    if AllAccepted(replies) {
      k := |replies|;
      assert replies[..k] == replies;
      AllAcceptedFlow(out, replies);
    } else {
      var last := |replies| - 1;
      var i :| 0 <= i <= last && replies[i] != Accepted;
      assert replies[last] != Accepted;
      k := AcceptedIsFront(out, replies[..last]);
      assert replies[..last][..k] == replies[..k];
    }
  }

  // Whatever is acknowledged: as long as no payload is accepted behind a refused
  // one, what arrives is a beginning of what was written.
  lemma PrefixUnlessBehind(f: Fates, y: System)
    requires Consistent(f, y) && NoneBehind(y.replies)
    ensures Arrived(y) <= y.offered
  {
    hide Flow, AcceptedFlow;
    var k := AcceptedIsFront(y.sender.carrier.out, y.replies);
    FlowPrefix(y.sender.carrier.out, k);
  }

  // When the sending of a payload is only reported as successful if the peer
  // accepted it, as with IQ stanzas.
  predicate HonestAcks(f: Fates, y: System) {
    forall i | 0 <= i < |y.replies| :: y.replies[i] != Accepted ==> f(i) != Sent
  }

  // Then the sender stops at the first refusal.
  lemma HonestStops(f: Fates, y: System)
    requires Consistent(f, y) && HonestAcks(f, y)
    ensures NoneBehind(y.replies)
  {
    hide Flow, AcceptedFlow;
  }

  // In every run what arrives is a beginning of what was written, whatever fails
  // and whenever, if no payload is accepted behind a refused one; and with
  // acknowledged payloads none is.
  lemma OnlyAPrefixArrives(f: Fates, blockSize: nat, maxBufSize: int, actions: seq<Action>)
    ensures var y := Run(f, Start(blockSize, maxBufSize), actions);
            && (NoneBehind(y.replies) ==> Arrived(y) <= y.offered)
            && (HonestAcks(f, y) ==> NoneBehind(y.replies))
  {
    hide Consistent;
    var y := Run(f, Start(blockSize, maxBufSize), actions);
    if HonestAcks(f, y) { HonestStops(f, y); }
    if NoneBehind(y.replies) { PrefixUnlessBehind(f, y); }
  }

  lemma {:induction false} QuietSender(f: Fates, y: System, after: seq<Action>)
    requires Consistent(f, y)
    requires forall i | 0 <= i < |after| :: after[i] == Deliver || after[i].Read?
    ensures var z := Run(f, y, after); z.sender == y.sender && z.offered == y.offered
    decreases |after|
  {
    hide Consistent;
    if after != [] {
      StepConsistent(f, y, after[0]);
      AccountedOf(f, y);
      QuietSender(f, Step(f, y, after[0]), after[1..]);
    }
  }

  // After an error-free close everything written is on its way, and once it is
  // delivered without refusal and read, the reader has it all.
  lemma CloseDeliversAll(f: Fates, blockSize: nat, maxBufSize: int, before: seq<Action>, after: seq<Action>)
    requires forall i | 0 <= i < |after| :: after[i] == Deliver || after[i].Read?
    ensures var open := Run(f, Start(blockSize, maxBufSize), before);
            var y := Run(f, open, [Close] + after);
            && Possible(y)
            && (!open.sender.closed && !Broken(y.sender) && AllAccepted(y.replies) ==>
                  && y.offered == open.offered
                  && Arrived(y) + Flow(InFlight(y)) == y.offered
                  && (InFlight(y) == [] && y.receiver.buf == [] ==> y.read == open.offered))
  {
    hide Consistent, Accounted, ConnClose;
    var open := Run(f, Start(blockSize, maxBufSize), before);
    AccountedOf(f, open);
    CloseAccounted(f, open.sender, open.offered);
    StepConsistent(f, open, Close);
    var closed := Step(f, open, Close);
    assert ([Close] + after)[1..] == after;
    var y := Run(f, open, [Close] + after);
    assert y == Run(f, closed, after);
    QuietSender(f, closed, after);
    AccountedOf(f, y);
    if !open.sender.closed && !Broken(y.sender) && AllAccepted(y.replies) {
      ConsistentConserves(f, y);
    }
  }
}
