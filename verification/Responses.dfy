// Matching responses to the goroutines that wait for them, as a protocol of
// steps: any number of callers, one reader of the input stream, a table under a
// mutex, and one unbuffered channel per call.
module Responses {
  import opened Xml

  // A response on the wire: its place in the input, its id and its stanza name.
  datatype Response = Response(place: nat, id: string, name: Name)

  // Where a call of sendResp is. It has been registered and is being sent, it
  // waits for the channel or its context, it has received a response and is
  // about to leave the table, it has returned with the response open, or it is
  // over.
  datatype Phase = Sending | Waiting | Received | Holding | Over

  datatype Call = Call(id: string, name: Name, phase: Phase)

  // What the reader does with the input lock in hand: nothing yet, offering a
  // response on a call's channel, waiting for the holder to close it, or reading
  // the element itself (for a handler, or to skip the rest of a response).
  datatype Reader = Idle | Offering(to: nat, what: Response) | Held(holder: nat) | Reading

  // Calls are numbered as they are made. cancelled holds calls whose context is
  // done; log records which call received what.
  datatype State = State(
    calls: seq<Call>,
    table: map<string, nat>,
    cancelled: set<nat>,
    reader: Reader,
    place: nat,
    log: seq<(nat, Response)>)

  const INIT := State([], map[], {}, Idle, 0, [])

  datatype Action =
    | MakeCall(id: string, name: Name)
    | SendDone(call: nat, ok: bool)
    | ContextDone(call: nat)
    | GiveUp(call: nat)
    | Arrive(response: bool, id: string, name: Name)
    | HandOver
    | OfferCancelled
    | Return(call: nat)
    | CloseResponse(call: nat)
    | FinishReading

  // The registered name fits the element: the same, or the same local name and
  // no namespace.
  predicate Fits(registered: Name, name: Name) { registered == name || registered == Name("", name.local) }

  // When each step can happen. Ids of calls in flight are distinct.
  predicate Enabled(s: State, a: Action) {
    match a
    case MakeCall(id, name) => id !in s.table
    case SendDone(c, ok) => c < |s.calls| && s.calls[c].phase == Sending
    case ContextDone(c) => c < |s.calls|
    case GiveUp(c) => c < |s.calls| && s.calls[c].phase == Waiting && c in s.cancelled
    case Arrive(response, id, name) => s.reader == Idle
    case HandOver => s.reader.Offering? && s.reader.to < |s.calls| && s.calls[s.reader.to].phase == Waiting
    case OfferCancelled => s.reader.Offering? && s.reader.to in s.cancelled
    case Return(c) => c < |s.calls| && s.calls[c].phase == Received
    case CloseResponse(c) => c < |s.calls| && s.calls[c].phase == Holding && s.reader == Held(c)
    case FinishReading => s.reader == Reading
  }

  function SetPhase(s: State, c: nat, p: Phase): State
    requires c < |s.calls|
  {
    s.(calls := s.calls[c := s.calls[c].(phase := p)])
  }

  // A call that ends takes its entry out of the table.
  function Leave(s: State, c: nat, p: Phase): State
    requires c < |s.calls|
  {
    SetPhase(s, c, p).(table := s.table - {s.calls[c].id})
  }

  function Step(s: State, a: Action): State
    requires Enabled(s, a)
  {
    match a
    case MakeCall(id, name) =>
      s.(calls := s.calls + [Call(id, name, Sending)], table := s.table[id := |s.calls|])
    case SendDone(c, ok) => if ok then SetPhase(s, c, Waiting) else Leave(s, c, Over)
    case ContextDone(c) => s.(cancelled := s.cancelled + {c})
    case GiveUp(c) => Leave(s, c, Over)
    case Arrive(response, id, name) =>
      var t := s.(place := s.place + 1);
      if response && id in s.table && s.table[id] < |s.calls| && Fits(s.calls[s.table[id]].name, name)
      then t.(reader := Offering(s.table[id], Response(s.place, id, name)))
      else t.(reader := Reading)
    case HandOver =>
      var c := s.reader.to;
      SetPhase(s, c, Received).(reader := Held(c), log := s.log + [(c, s.reader.what)])
    case OfferCancelled => s.(reader := Reading)
    case Return(c) => Leave(s, c, Holding)
    case CloseResponse(c) => SetPhase(s, c, Over).(reader := Reading)
    case FinishReading => s.(reader := Idle)
  }

  // ----- The invariant -----

  predicate InFlight(p: Phase) { p == Sending || p == Waiting || p == Received }

  // The table holds exactly the calls in flight, each under its id.
  predicate TableExact(s: State) {
    && (forall id | id in s.table ::
          s.table[id] < |s.calls| && s.calls[s.table[id]].id == id && InFlight(s.calls[s.table[id]].phase))
    && (forall c | 0 <= c < |s.calls| && InFlight(s.calls[c].phase) ::
        s.calls[c].id in s.table && s.table[s.calls[c].id] == c)
  }

  // A call has a response in its hands exactly while the reader waits for it.
  predicate OneHolder(s: State) {
    && (forall c | 0 <= c < |s.calls| && (s.calls[c].phase == Received || s.calls[c].phase == Holding) ::
        s.reader == Held(c))
    && (s.reader.Held? ==> s.reader.holder < |s.calls|
                           && (s.calls[s.reader.holder].phase == Received || s.calls[s.reader.holder].phase == Holding))
  }

  predicate Matches(s: State, c: nat, r: Response) {
    c < |s.calls| && s.calls[c].id == r.id && Fits(s.calls[c].name, r.name)
  }

  // Every delivery went to a call registered under its id and name; no call and
  // no response occurs twice; deliveries follow the order of arrival.
  predicate GoodLog(s: State) {
    && (forall i | 0 <= i < |s.log| ::
          && Matches(s, s.log[i].0, s.log[i].1) && s.log[i].1.place < s.place
          && (s.calls[s.log[i].0].phase == Received || s.calls[s.log[i].0].phase == Holding
            || s.calls[s.log[i].0].phase == Over))
    && (forall i, j | 0 <= i < j < |s.log| :: s.log[i].0 != s.log[j].0 && s.log[i].1.place < s.log[j].1.place)
  }

  // What is on offer is the element read last; it has not been delivered.
  predicate GoodOffer(s: State) {
    s.reader.Offering? ==>
      && Matches(s, s.reader.to, s.reader.what) && s.reader.what.place + 1 == s.place
      && forall i | 0 <= i < |s.log| :: s.log[i].1.place < s.reader.what.place
  }

  predicate Inv(s: State) { TableExact(s) && OneHolder(s) && GoodLog(s) && GoodOffer(s) }

  lemma LeaveTable(s: State, c: nat, p: Phase)
    requires TableExact(s) && c < |s.calls| && InFlight(s.calls[c].phase) && !InFlight(p)
    ensures TableExact(Leave(s, c, p))
  {
    var t := Leave(s, c, p);
    forall d | 0 <= d < |t.calls| && InFlight(t.calls[d].phase)
      ensures t.calls[d].id in t.table && t.table[t.calls[d].id] == d
    {
      assert t.calls[d] == s.calls[d];
    }
  }

  lemma TableStep(s: State, a: Action)
    requires TableExact(s) && Enabled(s, a)
    ensures TableExact(Step(s, a))
  {
    match a
    case SendDone(c, ok) => if !ok { LeaveTable(s, c, Over); }
    case GiveUp(c) => LeaveTable(s, c, Over);
    case Return(c) => LeaveTable(s, c, Holding);
    case MakeCall(id, name) =>
      var t := Step(s, a);
      assert t.calls[|s.calls|] == Call(id, name, Sending);
      assert forall d | 0 <= d < |s.calls| :: t.calls[d] == s.calls[d];
    case _ =>
  }

  lemma HolderStep(s: State, a: Action)
    requires Inv(s) && Enabled(s, a)
    ensures OneHolder(Step(s, a))
  {
  }

  // Calls keep their id and name, and a response once received stays received.
  lemma CallsKept(s: State, a: Action)
    requires Enabled(s, a)
    ensures var t := Step(s, a);
            && |s.calls| <= |t.calls|
            && (forall c | 0 <= c < |s.calls| ::
                  && t.calls[c].id == s.calls[c].id && t.calls[c].name == s.calls[c].name
                  && (s.calls[c].phase == Received || s.calls[c].phase == Holding || s.calls[c].phase == Over
                      ==> t.calls[c].phase == Received || t.calls[c].phase == Holding || t.calls[c].phase == Over))
  {
  }

  lemma LogStep(s: State, a: Action)
    requires GoodLog(s) && GoodOffer(s) && Enabled(s, a)
    ensures GoodLog(Step(s, a))
  {
    CallsKept(s, a);
    hide Enabled;
    var t := Step(s, a);
    if a.HandOver? {
      forall i | 0 <= i < |s.log| ensures s.log[i].0 != s.reader.to {
        assert Matches(s, s.log[i].0, s.log[i].1);
      }
    } else {
      assert t.log == s.log && t.place >= s.place;
    }
  }

  lemma OfferStep(s: State, a: Action)
    requires TableExact(s) && GoodLog(s) && GoodOffer(s) && Enabled(s, a)
    ensures GoodOffer(Step(s, a))
  {
    CallsKept(s, a);
    if a.Arrive? { assert forall i | 0 <= i < |s.log| :: s.log[i].1.place < s.place; }
  }

  lemma StepKeepsInv(s: State, a: Action)
    requires Inv(s) && Enabled(s, a)
    ensures Inv(Step(s, a))
  {
    TableStep(s, a);
    HolderStep(s, a);
    LogStep(s, a);
    OfferStep(s, a);
  }

  // A run from the start: every action happens when it can.
  predicate IsRun(s: State, actions: seq<Action>)
    decreases |actions|
  {
    actions == [] || (Enabled(s, actions[0]) && IsRun(Step(s, actions[0]), actions[1..]))
  }

  function After(s: State, actions: seq<Action>): State
    requires IsRun(s, actions)
    decreases |actions|
  {
    if actions == [] then s else After(Step(s, actions[0]), actions[1..])
  }

  lemma {:induction false} RunKeepsInv(s: State, actions: seq<Action>)
    requires Inv(s) && IsRun(s, actions)
    ensures Inv(After(s, actions))
    decreases |actions|
  {
    if actions != [] {
      StepKeepsInv(s, actions[0]);
      RunKeepsInv(Step(s, actions[0]), actions[1..]);
    }
  }

  // Who may read tokens of the input stream: the reader itself, or the one call
  // that holds a response.
  predicate MayRead(s: State, call: int) {
    if call < 0 then s.reader == Idle || s.reader == Reading else s.reader == Held(call)
  }

  ghost predicate OnlyReader(s: State, call: nat) {
    MayRead(s, call) && forall other :: MayRead(s, other) ==> other == call
  }

  // In every reachable state: a response went only to the call registered under
  // its id and stanza name, each call got at most one and each response went to
  // at most one; the table holds exactly the calls in flight; and while a call
  // has a response in its hands nobody else reads the input stream.
  lemma ResponsesReachTheirCallers(actions: seq<Action>)
    requires IsRun(INIT, actions)
    ensures var s := After(INIT, actions);
            && (forall i | 0 <= i < |s.log| :: Matches(s, s.log[i].0, s.log[i].1))
            && (forall i, j | 0 <= i < j < |s.log| :: s.log[i].0 != s.log[j].0 && s.log[i].1 != s.log[j].1)
            && (forall c | 0 <= c < |s.calls| ::
                  InFlight(s.calls[c].phase) <==> s.calls[c].id in s.table && s.table[s.calls[c].id] == c)
            && (forall c | 0 <= c < |s.calls| && (s.calls[c].phase == Received || s.calls[c].phase == Holding) ::
                OnlyReader(s, c))
  {
    RunKeepsInv(INIT, actions);
    var s := After(INIT, actions);
    forall i, j | 0 <= i < j < |s.log| ensures s.log[i].0 != s.log[j].0 && s.log[i].1 != s.log[j].1 {
      assert s.log[i].1.place < s.log[j].1.place;
    }
    forall c | 0 <= c < |s.calls| && s.calls[c].id in s.table && s.table[s.calls[c].id] == c
      ensures InFlight(s.calls[c].phase)
    {
      assert InFlight(s.calls[s.table[s.calls[c].id]].phase);
    }
    forall c | 0 <= c < |s.calls| && (s.calls[c].phase == Received || s.calls[c].phase == Holding)
      ensures OnlyReader(s, c)
    {
      assert s.reader == Held(c);
    }
  }

  // ----- Who is offered what -----

  // Nothing but the listed parts of a step's outcome differs from what was before:
  // call c goes to phase p, and its entry leaves the table if it has one and the
  // call is no longer in flight.
  predicate Moves(s: State, t: State, c: nat, p: Phase, reader: Reader, log: seq<(nat, Response)>) {
    && c < |s.calls| && |t.calls| == |s.calls| && t.calls[c] == s.calls[c].(phase := p)
    && (forall d | 0 <= d < |s.calls| && d != c :: t.calls[d] == s.calls[d])
    && t.table == (if InFlight(s.calls[c].phase) && !InFlight(p) then s.table - {s.calls[c].id} else s.table)
    && t.reader == reader && t.log == log && t.cancelled == s.cancelled && t.place == s.place
  }

  // The call that a response is for: it is in flight under the response's id, for
  // a stanza of the response's name or of its local name without a namespace.
  predicate IsFor(s: State, c: nat, id: string, name: Name) {
    && c < |s.calls| && s.calls[c].id == id
    && (s.calls[c].phase == Sending || s.calls[c].phase == Waiting || s.calls[c].phase == Received)
    && s.calls[c].name.local == name.local && (s.calls[c].name.space == name.space || s.calls[c].name.space == "")
  }

  // An element that arrives is offered to a call if and only if it is a response
  // for that call, and there is at most one such; otherwise the reader reads it.
  lemma ArrivalIsOffered(s: State, response: bool, id: string, name: Name, c: nat)
    requires Inv(s) && s.reader == Idle
    ensures Enabled(s, Arrive(response, id, name))
    ensures var t := Step(s, Arrive(response, id, name));
            && (t.reader == Offering(c, Response(s.place, id, name)) <==> response && IsFor(s, c, id, name))
            && (t.reader == Reading || t.reader.Offering?)
            && t == s.(reader := t.reader, place := s.place + 1)
    ensures forall d :: IsFor(s, c, id, name) && IsFor(s, d, id, name) ==> c == d
  {
    if response && IsFor(s, c, id, name) {
      assert s.table[s.calls[c].id] == c;
    }
  }

  lemma FiveSteps(s: State, a: Action, b: Action, c: Action, d: Action, e: Action)
    requires Enabled(s, a) && Enabled(Step(s, a), b) && Enabled(Step(Step(s, a), b), c)
    requires Enabled(Step(Step(Step(s, a), b), c), d) && Enabled(Step(Step(Step(Step(s, a), b), c), d), e)
    ensures IsRun(s, [a, b, c, d, e])
    ensures After(s, [a, b, c, d, e]) == Step(Step(Step(Step(Step(s, a), b), c), d), e)
  {
    hide Step, Enabled;
    var s1 := Step(s, a);
    var s2 := Step(s1, b);
    var s3 := Step(s2, c);
    var s4 := Step(s3, d);
    assert [a, b, c, d, e][1..] == [b, c, d, e] && [b, c, d, e][1..] == [c, d, e];
    assert [c, d, e][1..] == [d, e] && [d, e][1..] == [e] && [e][1..] == [];
    assert IsRun(s4, [e]) && After(s4, [e]) == Step(s4, e);
    assert IsRun(s3, [d, e]) && After(s3, [d, e]) == Step(s4, e);
    assert IsRun(s2, [c, d, e]) && After(s2, [c, d, e]) == Step(s4, e);
    assert IsRun(s1, [b, c, d, e]) && After(s1, [b, c, d, e]) == Step(s4, e);
  }

  // From its request to its end, a call that is not cancelled: it is registered,
  // sent, offered its response, handed it, leaves the table, and closes the
  // response; then the reader goes on. The response is logged for that call, and
  // no other call is touched.
  lemma ResponseIsDelivered(s: State, c: nat, id: string, name: Name)
    requires Inv(s) && s.reader == Idle && IsFor(s, c, id, name) && s.calls[c].phase == Waiting
    ensures var actions := [Arrive(true, id, name), HandOver, Return(c), CloseResponse(c), FinishReading];
            && IsRun(s, actions)
            && After(s, actions).place == s.place + 1
            && Moves(s.(place := s.place + 1), After(s, actions), c, Over, Idle,
              s.log + [(c, Response(s.place, id, name))])
  {
    hide Inv;
    ArrivalIsOffered(s, true, id, name, c);
    var s1 := Step(s, Arrive(true, id, name));
    var s2 := Step(s1, HandOver);
    var s3 := Step(s2, Return(c));
    var s4 := Step(s3, CloseResponse(c));
    FiveSteps(s, Arrive(true, id, name), HandOver, Return(c), CloseResponse(c), FinishReading);
  }

  // A call that gives up while its response is on offer does not hold up the
  // reader, and is over.
  lemma CancelledIsSkipped(s: State, c: nat, id: string, name: Name)
    requires Inv(s) && s.reader == Idle && IsFor(s, c, id, name) && s.calls[c].phase == Waiting
    ensures var actions := [Arrive(true, id, name), ContextDone(c), OfferCancelled, FinishReading, GiveUp(c)];
            && IsRun(s, actions)
            && Moves(s.(place := s.place + 1, cancelled := s.cancelled + {c}), After(s, actions), c, Over, Idle, s.log)
  {
    hide Inv;
    ArrivalIsOffered(s, true, id, name, c);
    var s1 := Step(s, Arrive(true, id, name));
    var s2 := Step(s1, ContextDone(c));
    var s3 := Step(s2, OfferCancelled);
    var s4 := Step(s3, FinishReading);
    FiveSteps(s, Arrive(true, id, name), ContextDone(c), OfferCancelled, FinishReading, GiveUp(c));
  }

  // A call is registered before it is sent, under an id that is free; then it
  // waits, or it is over at once if it could not be sent.
  lemma CallIsRegistered(s: State, id: string, name: Name, ok: bool)
    requires Inv(s) && id !in s.table
    ensures var c, actions := |s.calls|, [MakeCall(id, name), SendDone(|s.calls|, ok)];
            && IsRun(s, actions)
            && var t := After(s, actions);
               && |t.calls| == c + 1 && t.calls[..c] == s.calls
               && t.calls[c] == Call(id, name, if ok then Waiting else Over)
               && t.table == (if ok then s.table[id := c] else s.table) && t.reader == s.reader && t.log == s.log
  {
    var c := |s.calls|;
    var a, b := MakeCall(id, name), SendDone(c, ok);
    var s1 := Step(s, a);
    assert s1.calls[c] == Call(id, name, Sending);
    assert [a, b][1..] == [b] && [b][1..] == [];
    assert IsRun(s1, [b]);
    assert After(s1, [b]) == Step(s1, b);
    assert s.table[id := c] - {id} == s.table;
  }

  // In every reachable state in which the reader is idle.
  lemma OffersInEveryRun(actions: seq<Action>, response: bool, id: string, name: Name, c: nat)
    requires IsRun(INIT, actions) && After(INIT, actions).reader == Idle
    ensures var s := After(INIT, actions);
            && Enabled(s, Arrive(response, id, name))
            && (Step(s, Arrive(response, id, name)).reader == Offering(c, Response(s.place, id, name))
                <==> response && IsFor(s, c, id, name))
  {
    RunKeepsInv(INIT, actions);
    ArrivalIsOffered(After(INIT, actions), response, id, name, c);
  }

  // ----- What is not promised -----

  // If the request could not be sent although its response is on offer, the
  // reader waits for the call's context: no other step of the reader is possible.
  lemma OfferToFailedCallWaits(s: State, a: Action)
    requires Inv(s) && s.reader.Offering? && s.calls[s.reader.to].phase == Over && s.reader.to !in s.cancelled
    requires Enabled(s, a) && a != ContextDone(s.reader.to)
    ensures Step(s, a).reader == s.reader && Step(s, a).calls[s.reader.to].phase == Over
  {
  }
}
