// Stream feature negotiation (RFC 6120, section 4.3): a bitmask state machine
// whose rounds restart the stream.
module Negotiation {
  import opened Wrappers
  import opened Xml

  datatype Bit = Secure | Authn | Ready | Received | S2S

  type Bits = set<Bit>

  // A stream feature; informational ones cannot be negotiated.
  datatype Feature = Feature(name: Name, necessary: Bits, prohibited: Bits, negotiable: bool)

  const NS_TLS := "urn:ietf:params:xml:ns:xmpp-tls"
  const NS_SASL := "urn:ietf:params:xml:ns:xmpp-sasl"
  const NS_BIND := "urn:ietf:params:xml:ns:xmpp-bind"

  const STARTTLS := Feature(Name(NS_TLS, "starttls"), {}, {Secure}, true)
  const SASL := Feature(Name(NS_SASL, "mechanisms"), {Secure}, {Authn}, true)
  const BIND := Feature(Name(NS_BIND, "bind"), {Authn}, {Ready}, true)

  // A new connection may keep or lose the tee; no new connection, no restart.
  datatype Conn = Same | New(tee: bool)

  datatype Outcome = Outcome(mask: Bits, conn: Conn, err: bool)

  // One entry of a received feature list; ok tells whether it could be parsed.
  datatype Advert = Advert(name: Name, req: bool, ok: bool)

  datatype Entry = Entry(req: bool, feature: Feature)

  datatype List = List(total: nat, req: bool, cache: map<string, Entry>)

  // Whether a feature may be listed in this state.
  predicate Allowed(f: Feature, state: Bits) { f.necessary <= state && f.prohibited * state == {} }

  // A list made in the given state: entries under their namespace, each allowed.
  predicate GoodList(list: List, state: Bits, features: seq<Feature>) {
    && (forall k | k in list.cache ::
          && list.cache[k].feature.name.space == k && list.cache[k].feature in features
          && Allowed(list.cache[k].feature, state))
    && (list.cache != map[] ==> list.total > 0)
  }

  // An entry that has not been negotiated on this stream and can be.
  predicate Candidate(list: List, negotiated: set<string>, k: string) {
    k in list.cache && k !in negotiated && list.cache[k].feature.negotiable
  }

  // One call of a feature's Negotiate function.
  datatype Call = Call(feature: Feature, req: bool, forced: bool, server: bool, state: Bits)

  // Necessary bits are set, unless StartTLS is tried without having been listed.
  predicate GoodCall(c: Call) { c.forced || (c.feature.necessary <= c.state && c.feature.negotiable) }

  predicate OptionalLeft(list: List, negotiated: set<string>) {
    exists k | k in list.cache :: Candidate(list, negotiated, k) && !list.cache[k].req
  }

  // The environment: what features do when negotiated, and what peers send.
  datatype World = World(
    outcome: (nat, Feature) -> Outcome,
    adverts: nat -> seq<Advert>,
    listRequired: Feature -> bool,
    request: nat -> Option<string>)

  // ----- Feature lists -----

  // The first configured feature of this name.
  function FirstNamed(features: seq<Feature>, name: Name): Option<Feature> {
    if features == [] then None
    else if features[0].name == name then Some(features[0]) else FirstNamed(features[1..], name)
  }

  function FirstTLS(features: seq<Feature>): Option<Feature> {
    if features == [] then None
    else if features[0].name.space == NS_TLS then Some(features[0]) else FirstTLS(features[1..])
  }

  // Every supported entry could be parsed.
  predicate Parsed(features: seq<Feature>, adverts: seq<Advert>) {
    forall i | 0 <= i < |adverts| && FirstNamed(features, adverts[i].name).Some? :: adverts[i].ok
  }

  // The list a client makes of what it reads, and a server of what it has.
  function ReadList(features: seq<Feature>, state: Bits, adverts: seq<Advert>): List {
    if adverts == [] then List(0, false, map[])
    else
      var a := adverts[|adverts| - 1];
      var list := ReadList(features, state, adverts[..|adverts| - 1]);
      var f := FirstNamed(features, a.name);
      List(list.total + 1, list.req || (f.Some? && a.req),
           if f.Some? && Allowed(f.value, state) then list.cache[a.name.space := Entry(a.req, f.value)] else list.cache)
  }

  function WriteList(w: World, features: seq<Feature>, state: Bits): List {
    if features == [] then List(0, false, map[])
    else
      var f := features[|features| - 1];
      var list := WriteList(w, features[..|features| - 1], state);
      if !Allowed(f, state) then list
      else List(list.total + 1, list.req || w.listRequired(f), list.cache[f.name.space := Entry(w.listRequired(f), f)])
  }

  function Listed(w: World, features: seq<Feature>, state: Bits, round: nat): List {
    if Received in state then WriteList(w, features, state) else ReadList(features, state, w.adverts(round))
  }

  // It is configured under this name and none before it is; without one no
  // feature has the name.
  lemma {:induction false} FirstNamedIs(features: seq<Feature>, name: Name)
    ensures match FirstNamed(features, name)
            case Some(f) =>
              f in features
              && exists i | 0 <= i < |features| ::
                   features[i] == f && f.name == name && forall j | 0 <= j < i :: features[j].name != name
            case None => forall i | 0 <= i < |features| :: features[i].name != name
  {
    if features != [] && features[0].name != name {
      FirstNamedIs(features[1..], name);
      if FirstNamed(features, name).Some? {
        var f, rest := FirstNamed(features, name).value, features[1..];
        var i :| 0 <= i < |rest| && rest[i] == f && f.name == name && forall j | 0 <= j < i :: rest[j].name != name;
        assert features[i + 1] == f;
        assert forall j | 0 < j < i + 1 :: features[j] == rest[j - 1];
      } else {
        assert forall i | 0 < i < |features| :: features[i] == features[1..][i - 1];
      }
    }
  }

  predicate Lists(features: seq<Feature>, state: Bits, a: Advert, k: string) {
    a.name.space == k && var f := FirstNamed(features, a.name); f.Some? && Allowed(f.value, state)
  }

  // A client's list holds the namespaces of the advertised features that it has
  // and may list, and is required as a whole if one it has is.
  lemma {:induction false} ReadListHolds(features: seq<Feature>, state: Bits, adverts: seq<Advert>)
    ensures var list := ReadList(features, state, adverts);
            && GoodList(list, state, features) && list.total == |adverts|
            && (list.req <==> exists i | 0 <= i < |adverts| ::
                FirstNamed(features, adverts[i].name).Some? && adverts[i].req)
            && forall k :: k in list.cache <==> exists i | 0 <= i < |adverts| :: Lists(features, state, adverts[i], k)
  {
    if adverts != [] {
      var last := |adverts| - 1;
      ReadListHolds(features, state, adverts[..last]);
      FirstNamedIs(features, adverts[last].name);
      assert forall i | 0 <= i < last :: adverts[..last][i] == adverts[i];
    }
  }

  // The entry of a namespace is that of the last advert that lists it: as required
  // as that says, with the configured feature of that name.
  lemma {:induction false} ReadListEntries(features: seq<Feature>, state: Bits, adverts: seq<Advert>, k: string, i: nat)
    requires i < |adverts| && Lists(features, state, adverts[i], k)
    requires forall j | i < j < |adverts| :: !Lists(features, state, adverts[j], k)
    ensures var list := ReadList(features, state, adverts);
            && k in list.cache && list.cache[k].req == adverts[i].req
            && Some(list.cache[k].feature) == FirstNamed(features, adverts[i].name)
    decreases |adverts|
  {
    if i < |adverts| - 1 {
      var front := adverts[..|adverts| - 1];
      assert !Lists(features, state, adverts[|adverts| - 1], k);
      assert forall j | i < j < |front| :: front[j] == adverts[j];
      ReadListEntries(features, state, front, k, i);
    }
  }

  // Likewise for a server and its last feature of the namespace.
  lemma {:induction false} WriteListEntries(w: World, features: seq<Feature>, state: Bits, k: string, i: nat)
    requires i < |features| && features[i].name.space == k && Allowed(features[i], state)
    requires forall j | i < j < |features| :: !(features[j].name.space == k && Allowed(features[j], state))
    ensures var list := WriteList(w, features, state);
            k in list.cache && list.cache[k] == Entry(w.listRequired(features[i]), features[i])
    decreases |features|
  {
    if i < |features| - 1 {
      var last := |features| - 1;
      assert !(features[last].name.space == k && Allowed(features[last], state));
      assert forall j | i < j < last :: features[..last][j] == features[j];
      WriteListEntries(w, features[..last], state, k, i);
    }
  }

  // A server's list holds the namespaces of the features it may list.
  lemma {:induction false} WriteListHolds(w: World, features: seq<Feature>, state: Bits)
    ensures var list := WriteList(w, features, state);
            && GoodList(list, state, features)
            && (list.req <==> exists i | 0 <= i < |features| ::
                Allowed(features[i], state) && w.listRequired(features[i]))
            && forall k ::
                 k in list.cache
                 <==> exists i | 0 <= i < |features| :: features[i].name.space == k && Allowed(features[i], state)
  {
    if features != [] {
      var last := |features| - 1;
      WriteListHolds(w, features[..last], state);
      assert forall i | 0 <= i < last :: features[..last][i] == features[i];
    }
  }

  // ----- Calls -----

  // The namespaces of calls, from the n-th on, are new and occur once.
  predicate FreshCalls(calls: seq<Call>, n: nat, negotiated: set<string>) {
    && (forall i | n <= i < |calls| && !calls[i].forced :: calls[i].feature.name.space !in negotiated)
    && (forall i, j | n <= i < j < |calls| :: calls[i].feature.name.space != calls[j].feature.name.space)
  }

  function Spaces(calls: seq<Call>, n: nat): set<string> { set i | n <= i < |calls| :: calls[i].feature.name.space }

  lemma SpacesAppend(calls: seq<Call>, n: nat, c: Call)
    requires n <= |calls|
    ensures Spaces(calls + [c], n) == Spaces(calls, n) + {c.feature.name.space}
  {
    var all := calls + [c];
    assert all[|calls|] == c;
    assert forall i | 0 <= i < |calls| :: all[i] == calls[i];
  }

  // A call is of a feature allowed when the list was made, or of StartTLS
  // tried unlisted on an insecure connection.
  predicate Offered(c: Call, state: Bits) {
    if c.forced then c.feature.name.space == NS_TLS && Secure !in state else Allowed(c.feature, state)
  }

  // The bits after the i-th call: an error adds none.
  function AfterCall(w: World, calls: seq<Call>, i: nat): Bits
    requires i < |calls|
  {
    var out := w.outcome(i, calls[i].feature);
    calls[i].state + if out.err then {} else out.mask
  }

  // A call is made in the state that the one before it left.
  predicate Follows(w: World, calls: seq<Call>, i: nat)
    requires 0 < i < |calls|
  {
    calls[i].state == AfterCall(w, calls, i - 1)
  }

  // The calls from the n-th on lead from one state to the other.
  predicate Threaded(w: World, state: Bits, calls: seq<Call>, n: nat, state': Bits) {
    if |calls| <= n then state' == state
    else
      && calls[n].state == state && state' == AfterCall(w, calls, |calls| - 1)
      && forall i | n < i < |calls| :: Follows(w, calls, i)
  }

  // The calls made from the n-th on, and what they did to bits and namespaces.
  ghost predicate Progress(w: World, features: seq<Feature>, server: bool, state: Bits, negotiated: set<string>, n: nat,
                           state': Bits, negotiated': set<string>, calls: seq<Call>) {
    && n <= |calls| && state <= state'
    && (forall i | n <= i < |calls| :: GoodCall(calls[i]) && calls[i].feature in features && calls[i].server == server)
    && FreshCalls(calls, n, negotiated)
    && negotiated' == negotiated + Spaces(calls, n)
    && Threaded(w, state, calls, n, state')
    && (forall i | n <= i < |calls| :: Offered(calls[i], state))
  }

  // ----- One round -----

  // Before the i-th call every optional feature of the list that can be negotiated
  // has been, on this stream before the round or by one of its calls.
  predicate OptionalDone(list: List, negotiated: set<string>, calls: seq<Call>, n: nat, i: nat)
    requires i <= |calls|
  {
    forall k | k in list.cache && !list.cache[k].req && list.cache[k].feature.negotiable ::
      k in negotiated || exists j | n <= j < i :: calls[j].feature.name.space == k
  }

  // Calls are of listed features, for a server of those the peer asked for, for a
  // client of required ones only when nothing optional is left; or there is one
  // call, of StartTLS unlisted.
  predicate FromList(w: World, list: List, server: bool, forced: Option<Feature>, negotiated: set<string>,
                     calls: seq<Call>, n: nat) {
    forall i | n <= i < |calls| ::
      && calls[i].forced == forced.Some?
      && if forced.Some? then i == n && calls[i].feature == forced.value && calls[i].req
         else var k := calls[i].feature.name.space;
              && k in list.cache && list.cache[k] == Entry(calls[i].req, calls[i].feature)
              && (server ==> w.request(i) == Some(k))
              && (!server && calls[i].req ==> OptionalDone(list, negotiated, calls, n, i))
  }

  // The round goes on after a call for an optional feature that keeps the
  // connection, whether or not it succeeded.
  predicate GoesOn(w: World, calls: seq<Call>, i: nat)
    requires i < |calls|
  {
    !calls[i].req && w.outcome(i, calls[i].feature).conn == Same
  }

  // The peer has asked for nothing that it could ask for.
  predicate Refused(w: World, list: List, negotiated: set<string>, n: nat) {
    w.request(n).None? || !Candidate(list, negotiated, w.request(n).value)
  }

  // How the loop over a list ends: with the first call that does not let it go
  // on, whose outcome is returned, with Ready if the list requires nothing; for
  // a server with a wrong request; or for a client when no candidate is left.
  predicate Ends(w: World, list: List, server: bool, forced: Option<Feature>, negotiated': set<string>,
                 calls: seq<Call>, n: nat, mask: Bits, conn: Conn, err: bool) {
    && (forall i | n <= i < |calls| - 1 :: GoesOn(w, calls, i))
    && if |calls| > n && !GoesOn(w, calls, |calls| - 1) then
         var out := w.outcome(|calls| - 1, calls[|calls| - 1].feature);
         mask == out.mask + (if list.req then {} else {Ready}) && conn == out.conn && err == out.err
       else if server then err && Refused(w, list, negotiated', |calls|)
       else !err && mask == {Ready} && conn == Same && forced.None?
            && forall k | k in list.cache :: !Candidate(list, negotiated', k)
  }

  // StartTLS, if it is to be tried although it is not on the list: in the first
  // round, by an insecure client that has it.
  function Tried(w: World, features: seq<Feature>, first: bool, round: nat, state: Bits): Option<Feature> {
    if first && Received !in state && Secure !in state && NS_TLS !in Listed(w, features, state, round).cache
    then FirstTLS(features) else None
  }

  // What a round calls and returns. A client fails at once on a feature that it
  // cannot parse, and on a list of which it may negotiate nothing.
  predicate Round(w: World, features: seq<Feature>, first: bool, round: nat, state: Bits, negotiated: set<string>,
                  negotiated': set<string>, calls: seq<Call>, n: nat, mask: Bits, conn: Conn, err: bool) {
    var server, list := Received in state, Listed(w, features, state, round);
    var forced := Tried(w, features, first, round, state);
    if !server && (!Parsed(features, w.adverts(round)) || (forced.None? && list.total != 0 && list.cache == map[]))
    then |calls| == n && err
    else
      && FromList(w, list, server, forced, negotiated, calls, n)
      && Ends(w, list, server, forced, negotiated', calls, n, mask, conn, err)
  }

  // ----- The rounds of a session -----

  // State bits, namespaces negotiated on this stream, the tee, and how many calls
  // have been made.
  datatype At = At(state: Bits, negotiated: set<string>, hasTee: bool, n: nat)

  // A round: from where it went, what it left in the session, and what it returned.
  datatype Passed = Passed(from: At, state: Bits, negotiated: set<string>, n: nat, mask: Bits, conn: Conn, err: bool)

  // Where the session stands after a round: a failed one ends it; otherwise the
  // bits are added, and a new connection starts a new stream.
  function AfterRound(p: Passed): At {
    if p.err then At(p.state, p.negotiated, p.from.hasTee, p.n)
    else At(p.state + p.mask, if p.conn == Same then p.negotiated else {},
            if p.conn == Same then p.from.hasTee else p.conn.tee, p.n)
  }

  // Where the first k rounds lead.
  function Stage(start: At, rounds: seq<Passed>, k: nat): At
    requires k <= |rounds|
  {
    if k == 0 then start else AfterRound(rounds[k - 1])
  }

  function Last(start: At, rounds: seq<Passed>): At { Stage(start, rounds, |rounds|) }

  predicate Failed(rounds: seq<Passed>) { rounds != [] && rounds[|rounds| - 1].err }

  // What Negotiator promises of the k-th round.
  ghost predicate RoundDone(w: World, features: seq<Feature>, wantTee: bool, k: nat, p: Passed, calls: seq<Call>) {
    && p.from.n <= p.n <= |calls|
    && Progress(w, features, Received in p.from.state, p.from.state, p.from.negotiated, p.from.n, p.state,
      p.negotiated, calls[..p.n])
    && if wantTee && !p.from.hasTee then p.n == p.from.n && p.mask == {} && p.conn == New(true) && !p.err
       else Round(w, features, k == 0, k, p.from.state, p.from.negotiated, p.negotiated, calls[..p.n], p.from.n,
                  p.mask, p.conn, p.err)
  }

  // The k-th round starts where the one before it ended, without an error and
  // before the session was ready.
  ghost predicate Leg(w: World, features: seq<Feature>, wantTee: bool, start: At, rounds: seq<Passed>, calls: seq<Call>,
                      k: nat)
    requires k < |rounds|
  {
    && RoundDone(w, features, wantTee, k, rounds[k], calls)
    && rounds[k].from == Stage(start, rounds, k) && Ready !in rounds[k].from.state
    && (k > 0 ==> !rounds[k - 1].err)
  }

  ghost predicate Journey(w: World, features: seq<Feature>, wantTee: bool, start: At, rounds: seq<Passed>,
                          calls: seq<Call>) {
    forall k | 0 <= k < |rounds| :: Leg(w, features, wantTee, start, rounds, calls, k)
  }

  lemma NoRounds(w: World, features: seq<Feature>, wantTee: bool, start: At, calls: seq<Call>)
    ensures Journey(w, features, wantTee, start, [], calls)
  {
  }

  lemma ThisRound(w: World, features: seq<Feature>, wantTee: bool, k: nat, p: Passed, calls: seq<Call>)
    requires p.n == |calls| && p.from.n <= p.n
    requires Progress(w, features, Received in p.from.state, p.from.state, p.from.negotiated, p.from.n, p.state,
             p.negotiated, calls)
    requires if wantTee && !p.from.hasTee then p.n == p.from.n && p.mask == {} && p.conn == New(true) && !p.err
             else Round(w, features, k == 0, k, p.from.state, p.from.negotiated, p.negotiated, calls, p.from.n,
                        p.mask, p.conn, p.err)
    ensures RoundDone(w, features, wantTee, k, p, calls)
  {
    hide Progress, Round;
    assert calls[..p.n] == calls;
  }

  lemma JourneyOn(w: World, features: seq<Feature>, wantTee: bool, start: At, rounds: seq<Passed>, was: seq<Call>,
                  p: Passed, calls: seq<Call>)
    requires Journey(w, features, wantTee, start, rounds, was) && was <= calls
    requires RoundDone(w, features, wantTee, |rounds|, p, calls)
    requires p.from == Last(start, rounds) && Ready !in p.from.state && !Failed(rounds)
    ensures Journey(w, features, wantTee, start, rounds + [p], calls)
  {
    hide Progress, Round;
    var all := rounds + [p];
    forall k | 0 <= k < |all| ensures Leg(w, features, wantTee, start, all, calls, k) {
      if k < |rounds| {
        assert Leg(w, features, wantTee, start, rounds, was, k);
        assert calls[..rounds[k].n] == was[..rounds[k].n];
      }
    }
  }

  // ----- StartTLS, SASL and resource binding -----

  const STAGES: Bits := {Secure, Authn, Ready}

  predicate Standard(features: seq<Feature>) {
    forall i | 0 <= i < |features| :: features[i] == STARTTLS || features[i] == SASL || features[i] == BIND
  }

  // What the three features do on success: StartTLS secures and SASL
  // authenticates, both restarting the stream; binding makes the session ready.
  ghost predicate StandardWorld(w: World) {
    forall n: nat, f: Feature | !w.outcome(n, f).err ::
      && (f == STARTTLS ==> w.outcome(n, f).mask == {Secure} && w.outcome(n, f).conn != Same)
      && (f == SASL ==> w.outcome(n, f).mask == {Authn} && w.outcome(n, f).conn != Same)
      && (f == BIND ==> w.outcome(n, f).mask == {Ready} && w.outcome(n, f).conn == Same)
  }

  lemma SaslIsNotTls()
    ensures SASL.name.space != STARTTLS.name.space && BIND.name.space != STARTTLS.name.space
  {
    assert NS_SASL[|NS_SASL| - 1] != NS_TLS[|NS_TLS| - 1];
    assert NS_BIND[|NS_BIND| - 1] != NS_TLS[|NS_TLS| - 1];
  }

  // The one bit a successful call of the three adds; it was not set when the
  // list was made, and authentication is only offered when secure.
  lemma BitOf(w: World, features: seq<Feature>, state: Bits, k: nat, c: Call) returns (bit: Bit)
    requires Standard(features) && StandardWorld(w) && c.feature in features && Offered(c, state)
    ensures bit in STAGES
    ensures !w.outcome(k, c.feature).err ==> w.outcome(k, c.feature).mask == {bit}
    ensures bit == Authn ==> Secure in state
    ensures bit !in state
  {
    SaslIsNotTls();
    bit := if c.feature == STARTTLS then Secure else if c.feature == SASL then Authn else Ready;
    assert !c.forced && bit in state ==> bit in c.feature.prohibited * state;
    assert bit == Authn ==> Secure in c.feature.necessary;
  }

  // An error-free round of features adds one of the three bits.
  lemma RoundAdvances(w: World, features: seq<Feature>, first: bool, round: nat,
                      state: Bits, negotiated: set<string>, n: nat,
                      state': Bits, negotiated': set<string>, calls: seq<Call>, mask: Bits, conn: Conn)
    requires Standard(features) && StandardWorld(w) && Ready !in state
    requires Progress(w, features, Received in state, state, negotiated, n, state', negotiated', calls)
    requires Round(w, features, first, round, state, negotiated, negotiated', calls, n, mask, conn, false)
    ensures STAGES - (state' + mask) < STAGES - state
    ensures Authn in state' + mask ==> Authn in state'
    ensures state <= state'
  {
    hide FreshCalls, Spaces, GoodCall, FromList, Listed, Tried, Parsed;
    var after := state' + mask;
    if |calls| > n && !GoesOn(w, calls, |calls| - 1) {
      var last := |calls| - 1;
      var bit := BitOf(w, features, state, last, calls[last]);
      assert bit in mask && bit in STAGES - state && bit !in STAGES - after;
    } else {
      assert Ready in STAGES - state && Ready !in STAGES - after;
    }
  }

  predicate NoneForced(calls: seq<Call>, n: nat) { forall i | n <= i < |calls| :: !calls[i].forced }

  // A round that does not fail makes the session ready if the list requires
  // nothing, if nothing is left to negotiate, or if the last feature does; and in
  // no other case. It brings a new connection exactly if the last feature does.
  lemma RoundIsReady(w: World, features: seq<Feature>, first: bool, round: nat, state: Bits,
                     negotiated: set<string>, negotiated': set<string>, calls: seq<Call>, n: nat, mask: Bits,
                     conn: Conn)
    requires Round(w, features, first, round, state, negotiated, negotiated', calls, n, mask, conn, false)
    ensures var list := Listed(w, features, state, round);
            if |calls| > n && !GoesOn(w, calls, |calls| - 1) then
              var out := w.outcome(|calls| - 1, calls[|calls| - 1].feature);
              && !out.err && conn == out.conn && out.mask <= mask <= out.mask + {Ready}
              && (Ready in mask <==> Ready in out.mask || !list.req)
            else
              && Received !in state && Ready in mask && conn == Same
              && forall k | k in list.cache :: k in negotiated' || !list.cache[k].feature.negotiable
  {
    hide Listed;
    var list := Listed(w, features, state, round);
    if !(|calls| > n && !GoesOn(w, calls, |calls| - 1)) {
      assert forall k | k in list.cache :: !Candidate(list, negotiated', k);
    }
  }

  // StartTLS is tried unlisted in the first round only.
  lemma OnlyFirstForces(w: World, features: seq<Feature>, round: nat, state: Bits,
                        negotiated: set<string>, negotiated': set<string>, calls: seq<Call>, n: nat, mask: Bits,
                        conn: Conn, err: bool)
    requires Round(w, features, round == 0, round, state, negotiated, negotiated', calls, n, mask, conn, err)
    ensures round > 0 ==> NoneForced(calls, n)
  {
  }

  // Before and after every call of a round: authenticated only if secure.
  lemma {:induction false} CallsAreSafe(w: World, features: seq<Feature>, server: bool,
                                        state: Bits, negotiated: set<string>, n: nat,
                                        state': Bits, negotiated': set<string>, calls: seq<Call>, k: nat)
    requires Standard(features) && StandardWorld(w) && (Authn in state ==> Secure in state)
    requires Progress(w, features, server, state, negotiated, n, state', negotiated', calls) && n <= k < |calls|
    ensures state <= calls[k].state && (Authn in calls[k].state ==> Secure in calls[k].state)
    ensures Authn in AfterCall(w, calls, k) ==> Secure in AfterCall(w, calls, k)
    decreases k
  {
    hide FreshCalls, Spaces, GoodCall, Standard, StandardWorld, Offered;
    if k > n {
      CallsAreSafe(w, features, server, state, negotiated, n, state', negotiated', calls, k - 1);
      assert Follows(w, calls, k);
    }
    var bit := BitOf(w, features, state, k, calls[k]);
  }

  // Every call was made in a state that is authenticated only if secure.
  predicate CallsSafe(calls: seq<Call>, n: nat) {
    forall i | n <= i < |calls| :: Authn in calls[i].state ==> Secure in calls[i].state
  }

  // Before and after every call of a round, and so after the round.
  lemma RoundIsSafe(w: World, features: seq<Feature>, state: Bits, negotiated: set<string>, n: nat,
                    state': Bits, negotiated': set<string>, calls: seq<Call>)
    requires Standard(features) && StandardWorld(w) && (Authn in state ==> Secure in state)
    requires exists server :: Progress(w, features, server, state, negotiated, n, state', negotiated', calls)
    ensures Authn in state' ==> Secure in state'
    ensures CallsSafe(calls, n)
    ensures state <= state'
  {
    hide FreshCalls, Spaces, GoodCall, Standard, StandardWorld, Offered, AfterCall;
    var server :| Progress(w, features, server, state, negotiated, n, state', negotiated', calls);
    if |calls| > n {
      CallsAreSafe(w, features, server, state, negotiated, n, state', negotiated', calls, |calls| - 1);
    }
    forall i | n <= i < |calls| ensures Authn in calls[i].state ==> Secure in calls[i].state {
      CallsAreSafe(w, features, server, state, negotiated, n, state', negotiated', calls, i);
    }
  }

  // Every round of a session with the three features that does not fail installs
  // the tee or adds one of the three bits.
  lemma JourneyAdvances(w: World, features: seq<Feature>, wantTee: bool, start: At, rounds: seq<Passed>,
                        calls: seq<Call>, k: nat)
    requires Standard(features) && StandardWorld(w) && Journey(w, features, wantTee, start, rounds, calls)
    requires k < |rounds| && !rounds[k].err
    ensures var p := rounds[k];
            || (wantTee && !p.from.hasTee && AfterRound(p).hasTee && AfterRound(p).state == p.from.state)
            || STAGES - AfterRound(p).state < STAGES - p.from.state
    ensures rounds[k].from.state <= AfterRound(rounds[k]).state
  {
    hide Round, Standard, StandardWorld, GoodCall, Offered;
    var p := rounds[k];
    assert Leg(w, features, wantTee, start, rounds, calls, k);
    if wantTee && !p.from.hasTee {
      assert Threaded(w, p.from.state, calls[..p.n], p.n, p.state);
    } else {
      RoundAdvances(w, features, k == 0, k, p.from.state, p.from.negotiated, p.from.n,
                    p.state, p.negotiated, calls[..p.n], p.mask, p.conn);
    }
  }

  lemma {:induction false} FirstTLSIs(features: seq<Feature>)
    ensures FirstTLS(features).Some? <==> exists i | 0 <= i < |features| :: features[i].name.space == NS_TLS
  {
    if features != [] && features[0].name.space != NS_TLS {
      FirstTLSIs(features[1..]);
      assert forall i | 0 < i < |features| :: features[i] == features[1..][i - 1];
      assert forall i | 0 <= i < |features| - 1 :: features[1..][i] == features[i + 1];
    }
  }

  lemma TriedWhen(w: World, features: seq<Feature>, state: Bits)
    ensures Tried(w, features, true, 0, state).Some?
            <==> Received !in state && Secure !in state
                 && (exists i | 0 <= i < |features| :: features[i].name.space == NS_TLS)
                 && forall i | 0 <= i < |w.adverts(0)| :: !Lists(features, state, w.adverts(0)[i], NS_TLS)
  {
    hide FirstTLS, ReadList, Lists;
    FirstTLSIs(features);
    ReadListHolds(features, state, w.adverts(0));
  }

  // When StartTLS is tried although it was not offered: by a client in a first
  // round that no tee takes, on a list that could be read, if it is insecure, has
  // StartTLS and may not negotiate it from the list. In no later round.
  lemma ForcedExactly(w: World, features: seq<Feature>, wantTee: bool, start: At, rounds: seq<Passed>, calls: seq<Call>,
                      k: nat)
    requires Journey(w, features, wantTee, start, rounds, calls) && k < |rounds|
    ensures rounds[k].from.n <= rounds[k].n <= |calls|
    ensures (exists i | rounds[k].from.n <= i < rounds[k].n :: calls[i].forced)
            <==> k == 0 && !(wantTee && !start.hasTee) && Received !in start.state && Secure !in start.state
                 && (exists i | 0 <= i < |features| :: features[i].name.space == NS_TLS)
                 && Parsed(features, w.adverts(0))
                 && forall i | 0 <= i < |w.adverts(0)| :: !Lists(features, start.state, w.adverts(0)[i], NS_TLS)
  {
    hide Progress, Lists, Parsed;
    TriedWhen(w, features, start.state);
    var p := rounds[k];
    assert Leg(w, features, wantTee, start, rounds, calls, k);
    if !(wantTee && !p.from.hasTee) {
      var part := calls[..p.n];
      assert forall i | p.from.n <= i < p.n :: part[i] == calls[i];
      var forced := Tried(w, features, k == 0, k, p.from.state);
      if Received !in p.from.state && Parsed(features, w.adverts(k)) && forced.Some? {
        assert |part| > p.from.n;
        assert part[p.from.n].forced;
      }
    }
  }

  // ----- Adding a call -----

  lemma NoCalls(w: World, features: seq<Feature>, server: bool, state: Bits, negotiated: set<string>, calls: seq<Call>)
    ensures Progress(w, features, server, state, negotiated, |calls|, state, negotiated, calls)
  {
    assert Spaces(calls, |calls|) == {};
  }

  lemma FreshAppend(calls: seq<Call>, n: nat, negotiated: set<string>, c: Call)
    requires n <= |calls| && FreshCalls(calls, n, negotiated) && c.feature.name.space !in Spaces(calls, n)
    requires c.feature.name.space !in negotiated || c.forced
    ensures FreshCalls(calls + [c], n, negotiated)
  {
    var all := calls + [c];
    assert forall i | 0 <= i < |calls| :: all[i] == calls[i];
    forall i | n <= i < |calls| ensures all[i].feature.name.space != c.feature.name.space {
      assert calls[i].feature.name.space in Spaces(calls, n);
    }
  }

  lemma NoSpaces(calls: seq<Call>, n: nat)
    requires n >= |calls|
    ensures Spaces(calls, n) == {}
  {
  }

  lemma ThreadedAppend(w: World, state: Bits, calls: seq<Call>, n: nat, state': Bits, c: Call)
    requires n <= |calls| && Threaded(w, state, calls, n, state') && c.state == state'
    ensures var out := w.outcome(|calls|, c.feature);
            Threaded(w, state, calls + [c], n, state' + if out.err then {} else out.mask)
  {
    var all := calls + [c];
    assert all[|calls|] == c && forall i | 0 <= i < |calls| :: all[i] == calls[i];
    forall i | n < i < |all| ensures Follows(w, all, i) {
      if i < |calls| { assert Follows(w, calls, i); }
    }
  }

  lemma AddCall(w: World, features: seq<Feature>, server: bool, state: Bits, negotiated: set<string>, n: nat,
                state': Bits, negotiated': set<string>, calls: seq<Call>, c: Call)
    requires Progress(w, features, server, state, negotiated, n, state', negotiated', calls)
    requires GoodCall(c) && c.feature in features && c.server == server && c.state == state'
    requires c.feature.name.space !in negotiated' || (c.forced && n == |calls|)
    requires Offered(c, state)
    ensures var out := w.outcome(|calls|, c.feature);
            Progress(w, features, server, state, negotiated, n,
                     state' + (if out.err then {} else out.mask), negotiated' + {c.feature.name.space}, calls + [c])
  {
    hide GoodCall, FreshCalls, Threaded, Spaces, Offered;
    SpacesAppend(calls, n, c);
    ThreadedAppend(w, state, calls, n, state', c);
    assert c.feature.name.space !in Spaces(calls, n) by {
      if n == |calls| { NoSpaces(calls, n); }
    }
    FreshAppend(calls, n, negotiated, c);
    var all := calls + [c];
    forall i | n <= i < |all|
      ensures GoodCall(all[i]) && all[i].feature in features && all[i].server == server
      ensures Offered(all[i], state)
    {
      if i < |calls| { assert all[i] == calls[i]; }
    }
  }

  lemma FromListNone(w: World, list: List, server: bool, forced: Option<Feature>, negotiated: set<string>,
                     calls: seq<Call>)
    ensures FromList(w, list, server, forced, negotiated, calls, |calls|)
  {
  }

  lemma DoneLonger(list: List, negotiated: set<string>, calls: seq<Call>, all: seq<Call>, n: nat, i: nat)
    requires i <= |calls| && calls <= all && OptionalDone(list, negotiated, calls, n, i)
    ensures OptionalDone(list, negotiated, all, n, i)
  {
    forall k | k in list.cache && !list.cache[k].req && list.cache[k].feature.negotiable && k !in negotiated
      ensures exists j | n <= j < i :: all[j].feature.name.space == k
    {
      var j :| n <= j < i && calls[j].feature.name.space == k;
      assert all[j] == calls[j];
    }
  }

  lemma NothingLeft(list: List, negotiated: set<string>, calls: seq<Call>, n: nat, i: nat)
    requires i <= |calls| && !OptionalLeft(list, negotiated + Spaces(calls[..i], n))
    ensures OptionalDone(list, negotiated, calls, n, i)
  {
    forall k | k in list.cache && !list.cache[k].req && list.cache[k].feature.negotiable && k !in negotiated
      ensures exists j | n <= j < i :: calls[j].feature.name.space == k
    {
      assert !Candidate(list, negotiated + Spaces(calls[..i], n), k);
      var j :| n <= j < i && calls[..i][j].feature.name.space == k;
      assert calls[j].feature.name.space == k;
    }
  }

  lemma FromListAppend(w: World, list: List, server: bool, forced: Option<Feature>, negotiated: set<string>,
                       calls: seq<Call>, n: nat, c: Call)
    requires n <= |calls| && FromList(w, list, server, forced, negotiated, calls, n)
    requires c.forced == forced.Some?
    requires forced.Some? ==> |calls| == n && c.feature == forced.value && c.req
    requires forced.None? ==> var k := c.feature.name.space;
                              k in list.cache && list.cache[k] == Entry(c.req, c.feature)
                                && (server ==> w.request(|calls|) == Some(k))
    requires forced.None? && !server && c.req ==> !OptionalLeft(list, negotiated + Spaces(calls, n))
    ensures FromList(w, list, server, forced, negotiated, calls + [c], n)
  {
    hide OptionalDone, OptionalLeft;
    var all := calls + [c];
    assert forall i | n <= i < |calls| :: all[i] == calls[i];
    forall i | n <= i < |all| && forced.None? && !server && all[i].req
      ensures OptionalDone(list, negotiated, all, n, i)
    {
      if i < |calls| {
        DoneLonger(list, negotiated, calls, all, n, i);
      } else {
        NothingLeft(list, negotiated, all, n, i);
        assert all[..i] == calls;
      }
    }
  }

  // ----- The session -----

  class Session {
    const w: World
    const features: seq<Feature>
    var state: Bits
    var negotiated: set<string>
    var hasTee: bool
    var calls: seq<Call>

    constructor (w: World, features: seq<Feature>, state: Bits)
      ensures this.w == w && this.features == features && this.state == state
      ensures negotiated == {} && !hasTee && calls == []
    {
      this.w, this.features, this.state := w, features, state;
      negotiated, hasTee, calls := {}, false, [];
    }

    method GetFeature(name: Name) returns (f: Option<Feature>)
      ensures f == FirstNamed(features, name)
    {
      for i := 0 to |features|
        invariant FirstNamed(features, name) == FirstNamed(features[i..], name)
      {
        if features[i].name == name { return Some(features[i]); }
      }
      return None;
    }

    method ContainsStartTLS() returns (f: Option<Feature>)
      ensures f == FirstTLS(features)
      ensures f.Some? ==> f.value in features && f.value.name.space == NS_TLS
    {
      for i := 0 to |features|
        invariant FirstTLS(features) == FirstTLS(features[i..])
      {
        if features[i].name.space == NS_TLS { return Some(features[i]); }
      }
      return None;
    }

    // The client reads the feature list of this round.
    method ReadStreamFeatures(adverts: seq<Advert>) returns (list: List, ok: bool)
      ensures ok <==> Parsed(features, adverts)
      ensures ok ==> list == ReadList(features, state, adverts)
    {
      list := List(0, false, map[]);
      for i := 0 to |adverts|
        invariant list == ReadList(features, state, adverts[..i])
        invariant Parsed(features, adverts[..i])
      {
        assert adverts[..i + 1][..i] == adverts[..i];
        list := list.(total := list.total + 1);
        var f := GetFeature(adverts[i].name);
        if f.Some? {
          if !adverts[i].ok { return list, false; }
          list := list.(req := list.req || adverts[i].req);
          if Allowed(f.value, state) {
            list := list.(cache := list.cache[adverts[i].name.space := Entry(adverts[i].req, f.value)]);
          }
        }
      }
      assert adverts[..|adverts|] == adverts;
      ok := true;
    }

    // The server writes a feature list.
    method WriteStreamFeatures() returns (list: List)
      ensures list == WriteList(w, features, state)
    {
      list := List(0, false, map[]);
      for i := 0 to |features|
        invariant list == WriteList(w, features[..i], state)
      {
        assert features[..i + 1][..i] == features[..i];
        var f := features[i];
        if Allowed(f, state) {
          var r := w.listRequired(f);
          list := List(list.total + 1, list.req || r, list.cache[f.name.space := Entry(r, f)]);
        }
      }
      assert features[..|features|] == features;
    }

    // The client's choice: some optional candidate, in whatever order the map
    // is walked, or else some required one.
    method Choose(list: List) returns (data: Option<Entry>)
      requires forall k | k in list.cache :: list.cache[k].feature.name.space == k
      ensures data.None? ==> forall k | k in list.cache :: !Candidate(list, negotiated, k)
      ensures data.Some? ==> exists k :: Candidate(list, negotiated, k) && list.cache[k] == data.value
      ensures data.Some? && data.value.req ==> !OptionalLeft(list, negotiated)
    {
      data := None;
      var todo := list.cache.Keys;
      while todo != {}
        invariant todo <= list.cache.Keys
        invariant forall k | k in list.cache.Keys - todo && Candidate(list, negotiated, k) ::
                    list.cache[k].req && data.Some?
        invariant data.Some?
                  ==> data.value.req && exists k :: Candidate(list, negotiated, k) && list.cache[k] == data.value
        decreases todo
      {
        var k :| k in todo;
        todo := todo - {k};
        var v := list.cache[k];
        if v.feature.name.space in negotiated || !v.feature.negotiable {
          continue;
        }
        data := Some(v);
        if !v.req {
          break;
        }
      }
    }

    // One feature is negotiated: its outcome takes effect on the state unless
    // it is an error, and its namespace counts as negotiated either way.
    method Negotiate(data: Entry, forced: bool, server: bool) returns (out: Outcome)
      modifies this`state, this`negotiated, this`calls
      ensures out == w.outcome(old(|calls|), data.feature)
      ensures calls == old(calls) + [Call(data.feature, data.req, forced, server, old(state))]
      ensures state == old(state) + (if out.err then {} else out.mask)
      ensures negotiated == old(negotiated) + {data.feature.name.space}
    {
      out := w.outcome(|calls|, data.feature);
      calls := calls + [Call(data.feature, data.req, forced, server, state)];
      if !out.err {
        state := state + out.mask;
      }
      negotiated := negotiated + {data.feature.name.space};
    }

    // What the client does with this round's list before anything is
    // negotiated: try StartTLS although it is not listed, be done, or give up.
    method ClientStart(first: bool, list: List) returns (startTLS: Option<Feature>, done: bool, err: bool)
      ensures startTLS == if first && Secure !in state && NS_TLS !in list.cache then FirstTLS(features) else None
      ensures startTLS.Some? ==> startTLS.value in features && startTLS.value.name.space == NS_TLS && !done && !err
      ensures done == (startTLS.None? && list.total == 0)
      ensures err == (startTLS.None? && list.total != 0 && list.cache == map[])
    {
      startTLS := ContainsStartTLS();
      if !(first && NS_TLS !in list.cache && Secure !in state) {
        startTLS := None;
      }
      done := startTLS.None? && list.total == 0;
      err := startTLS.None? && list.total != 0 && list.cache == map[];
    }

    // The feature to negotiate next: the one tried unlisted, the one the peer
    // asks for, or the client's choice. Without one the client is done and the
    // server has been asked for something it did not offer.
    method Select(server: bool, list: List, startTLS: Option<Feature>) returns (data: Option<Entry>)
      requires forall k | k in list.cache :: list.cache[k].feature.name.space == k
      requires startTLS.Some? ==> !server
      ensures startTLS.Some? ==> data == Some(Entry(true, startTLS.value))
      ensures data.Some? && startTLS.None? ==>
                && Candidate(list, negotiated, data.value.feature.name.space)
                && list.cache[data.value.feature.name.space] == data.value
                && (server ==> w.request(|calls|) == Some(data.value.feature.name.space))
                && (!server && data.value.req ==> !OptionalLeft(list, negotiated))
      ensures data.None? ==> if server then Refused(w, list, negotiated, |calls|)
                             else forall k | k in list.cache :: !Candidate(list, negotiated, k)
    {
      if server {
        var request := w.request(|calls|);
        if request.None? { return None; }
        var k := request.value;
        if k !in list.cache || k in negotiated || !list.cache[k].feature.negotiable {
          return None;
        }
        return Some(list.cache[k]);
      } else if startTLS.Some? {
        return Some(Entry(true, startTLS.value));
      }
      data := Choose(list);
    }

    // The loop over one list. It ends because candidates run out.
    method NegotiateListed(server: bool, list: List, forced: Option<Feature>)
      returns (mask: Bits, conn: Conn, err: bool)
      requires GoodList(list, state, features)
      requires forced.Some?
               ==> forced.value in features && !server && forced.value.name.space == NS_TLS && Secure !in state
      modifies this`state, this`negotiated, this`calls
      ensures Progress(w, features, server, old(state), old(negotiated), |old(calls)|, state, negotiated, calls)
      ensures old(calls) <= calls && FromList(w, list, server, forced, old(negotiated), calls, |old(calls)|)
      ensures Ends(w, list, server, forced, negotiated, calls, |old(calls)|, mask, conn, err)
    {
      hide Progress, FromList, OptionalLeft, FreshCalls, Spaces;
      ghost var start, neg, n := state, negotiated, |calls|;
      NoCalls(w, features, server, state, negotiated, calls);
      NoSpaces(calls, n);
      FromListNone(w, list, server, forced, negotiated, calls);
      mask, conn, err := {}, Same, false;
      while true
        invariant start <= state && old(calls) <= calls && neg <= negotiated
        invariant Progress(w, features, server, start, neg, n, state, negotiated, calls)
        invariant FromList(w, list, server, forced, neg, calls, n)
        invariant negotiated == neg + Spaces(calls, n)
        invariant forall i | n <= i < |calls| :: GoesOn(w, calls, i)
        invariant forced.Some? ==> calls == old(calls) && negotiated == neg
        decreases list.cache.Keys - negotiated
      {
        var data := Select(server, list, forced);
        if data.None? {
          return {Ready}, Same, server;
        }
        ghost var s, neg', cs := state, negotiated, calls;
        var out := Negotiate(data.value, forced.Some?, server);
        AddCall(w, features, server, start, neg, n, s, neg', cs, calls[|cs|]);
        SpacesAppend(cs, n, calls[|cs|]);
        FromListAppend(w, list, server, forced, neg, cs, n, calls[|cs|]);
        assert forall i | n <= i < |cs| :: GoesOn(w, cs, i) && calls[i] == cs[i];
        mask, conn, err := out.mask, out.conn, out.err;
        if conn != Same || data.value.req {
          break;
        }
      }
      if !list.req {
        mask := mask + {Ready};
      }
    }

    // One round of features. Whatever the features, the peer and the order in
    // which the list is walked: each call was right, no namespace is negotiated
    // twice on one stream, bits are only added, and the round ends as Round says.
    method NegotiateFeatures(first: bool, round: nat) returns (mask: Bits, conn: Conn, err: bool)
      modifies this`state, this`negotiated, this`calls
      ensures Progress(w, features, Received in old(state), old(state), old(negotiated), |old(calls)|, state,
              negotiated, calls)
      ensures old(calls) <= calls
      ensures Round(w, features, first, round, old(state), old(negotiated), negotiated, calls, |old(calls)|,
                    mask, conn, err)
    {
      hide Progress, GoodList, FromList, OptionalLeft;
      var server := Received in state;
      var list;
      var startTLS: Option<Feature> := None;
      NoCalls(w, features, server, state, negotiated, calls);
      FromListNone(w, Listed(w, features, state, round), server, None, negotiated, calls);
      if server {
        list := WriteStreamFeatures();
        WriteListHolds(w, features, state);
      } else {
        var ok, done;
        list, ok := ReadStreamFeatures(w.adverts(round));
        if !ok { return {}, Same, true; }
        ReadListHolds(features, state, w.adverts(round));
        startTLS, done, err := ClientStart(first, list);
        if done { return {Ready}, Same, false; }
        if err { return {}, Same, true; }
      }
      mask, conn, err := NegotiateListed(server, list, startTLS);
    }

    // The negotiator around a round: a configured tee is installed first, on
    // every new connection, and takes the round; then features are negotiated.
    method Negotiator(wantTee: bool, round: nat) returns (mask: Bits, conn: Conn, err: bool)
      modifies this`state, this`negotiated, this`calls
      ensures Progress(w, features, Received in old(state), old(state), old(negotiated), |old(calls)|, state,
              negotiated, calls)
      ensures old(calls) <= calls
      ensures if wantTee && !hasTee
              then calls == old(calls) && mask == {} && conn == New(true) && !err
              else Round(w, features, round == 0, round, old(state), old(negotiated), negotiated, calls, |old(calls)|,
                         mask, conn, err)
    {
      if wantTee && !hasTee {
        NoCalls(w, features, Received in state, state, negotiated, calls);
        return {}, New(true), false;
      }
      mask, conn, err := NegotiateFeatures(round == 0, round);
    }

    // Where the loop of a session stands.
    ghost function Now(): At
      reads this
    {
      At(state, negotiated, hasTee, |calls|)
    }

    // The loop of a session with only StartTLS, SASL and resource binding, in
    // either role. It ends, because every error-free round installs the tee or
    // adds one of three bits. The rounds listed are those it went through, each
    // what Negotiator makes of the state that the one before it left; it ends
    // ready, or with the one round that failed. At all times nobody is
    // authenticated over an insecure connection.
    method NegotiateSession(wantTee: bool) returns (ok: bool, ghost rounds: seq<Passed>)
      requires Standard(features) && StandardWorld(w)
      requires Authn in state ==> Secure in state
      modifies this`state, this`negotiated, this`calls, this`hasTee
      ensures Journey(w, features, wantTee, old(Now()), rounds, calls) && old(calls) <= calls
      ensures Now() == Last(old(Now()), rounds)
      ensures ok <==> Ready in state && !Failed(rounds)
      ensures !ok ==> Failed(rounds)
      ensures (Authn in state ==> Secure in state) && CallsSafe(calls, |old(calls)|)
      ensures old(state) <= state
      // The tee takes the first round, the only one that tries StartTLS unlisted.
      ensures wantTee && !old(hasTee) ==> NoneForced(calls, |old(calls)|)
    {
      hide Progress, Round, Standard, StandardWorld, RoundDone, Leg, Journey;
      NoRounds(w, features, wantTee, Now(), calls);
      rounds := [];
      var round := 0;
      while Ready !in state
        invariant round == |rounds| && !Failed(rounds)
        invariant Journey(w, features, wantTee, old(Now()), rounds, calls) && old(calls) <= calls
        invariant Now() == Last(old(Now()), rounds)
        invariant (Authn in state ==> Secure in state) && CallsSafe(calls, |old(calls)|)
        invariant old(state) <= state
        invariant wantTee && !old(hasTee) ==> NoneForced(calls, |old(calls)|) && (round == 0 ==> !hasTee)
        decreases STAGES - state, wantTee && !hasTee
      {
        ghost var before, was := Now(), calls;
        var mask, conn, err := Negotiator(wantTee, round);
        if !(wantTee && !hasTee) {
          OnlyFirstForces(w, features, round, before.state, before.negotiated, negotiated, calls, before.n,
                          mask, conn, err);
        }
        RoundIsSafe(w, features, before.state, before.negotiated, before.n, state, negotiated, calls);
        ghost var passed := Passed(before, state, negotiated, |calls|, mask, conn, err);
        ThisRound(w, features, wantTee, round, passed, calls);
        JourneyOn(w, features, wantTee, old(Now()), rounds, was, passed, calls);
        rounds := rounds + [passed];
        if err {
          return false, rounds;
        }
        if !(wantTee && !hasTee) {
          RoundAdvances(w, features, round == 0, round, before.state, before.negotiated, before.n,
                        state, negotiated, calls, mask, conn);
        }
        if conn != Same {
          negotiated := {};
          hasTee := conn.tee;
        }
        state := state + mask;
        round := round + 1;
      }
      ok := true;
    }
  }
}
