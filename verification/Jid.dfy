// Addresses (jid/jid.go, jid/unsafe.go; RFC 7622, section 3).
module Jid {
  import opened Wrappers
  import opened Utf8

  type Text = seq<byte>

  const AT: byte := 0x40
  const SLASH: byte := 0x2F
  const DOT: byte := 0x2E

  datatype Error =
    | ForbiddenLocalpart | InvalidDomainLen | InvalidUTF8 | LongLocalpart | LongResourcepart
    | NoLocalpart | NoResourcepart | Rejected

  datatype Result<+T> = Ok(value: T) | Err(error: Error)

  datatype Parts = Parts(local: Text, domain: Text, resource: Text)

  // The three parts of an address back to back in one buffer.
  datatype JID = JID(locallen: nat, domainlen: nat, data: Text) {

    predicate Valid() { locallen + domainlen <= |data| }

    function Localpart(): Text
      requires Valid()
    {
      data[..locallen]
    }

    function Domainpart(): Text
      requires Valid()
    {
      data[locallen..locallen + domainlen]
    }

    function Resourcepart(): Text
      requires Valid()
    {
      data[locallen + domainlen..]
    }

    function Unpack(): Parts
      requires Valid()
    {
      Parts(Localpart(), Domainpart(), Resourcepart())
    }

    function Bare(): (r: JID)
      requires Valid()
      ensures r.Valid() && r.Unpack() == Unpack().(resource := [])
    {
      assert data[..domainlen + locallen][..locallen] == data[..locallen];
      JID(locallen, domainlen, data[..domainlen + locallen])
    }

    function Domain(): (r: JID)
      requires Valid()
      ensures r.Valid() && r.Unpack() == Parts([], Domainpart(), [])
    {
      JID(0, domainlen, data[locallen..domainlen + locallen])
    }

    function String(): Text
      requires Valid()
    {
      var s := if locallen > 0 then Localpart() + [AT] + Domainpart() else Domainpart();
      var addsep := if locallen > 0 then 1 else 0;
      if |s| != |data| + addsep then s + [SLASH] + Resourcepart() else s
    }

    // Octet for octet.
    method Equal(j: JID) returns (same: bool)
      requires Valid() && j.Valid()
      ensures same <==> Unpack() == j.Unpack()
    {
      PackUnpack(this);
      PackUnpack(j);
      if |data| != |j.data| {
        return false;
      }
      var i := 0;
      while i < |data|
        invariant 0 <= i <= |data| && data[..i] == j.data[..i]
      {
        if data[i] != j.data[i] {
          return false;
        }
        i := i + 1;
      }
      assert data[..i] == data && j.data[..i] == j.data;
      same := locallen == j.locallen && domainlen == j.domainlen;
    }
  }

  // NewUnsafe: packs the parts as they are.
  function Pack(p: Parts): (j: JID)
    ensures j.Valid() && j.Unpack() == p
  {
    var data := p.local + p.domain + p.resource;
    assert data[..|p.local|] == p.local && data[|p.local|..|p.local| + |p.domain|] == p.domain;
    JID(|p.local|, |p.domain|, data)
  }

  lemma PackUnpack(j: JID)
    requires j.Valid()
    ensures Pack(j.Unpack()) == j
  {
    assert j.data == j.Localpart() + j.Domainpart() + j.Resourcepart();
  }

  // ----- Splitting -----

  // strings.Index for a single byte; |s| stands for "not found".
  function Index(s: Text, b: byte): (i: nat)
    ensures i <= |s| && b !in s[..i] && (i < |s| ==> s[i] == b)
  {
    if s == [] || s[0] == b then 0
    else
      assert forall k | 0 < k <= |s| :: s[..k] == [s[0]] + s[1..][..k - 1];
      1 + Index(s[1..], b)
  }

  // Parts of the text before the first slash.
  function HeadLocal(rest: Text): Text { if Index(rest, AT) < |rest| then rest[..Index(rest, AT)] else [] }

  function HeadDomain(rest: Text): Text { if Index(rest, AT) < |rest| then rest[Index(rest, AT) + 1..] else rest }

  function SplitString(s: Text, safe: bool): (r: Result<Parts>)
    ensures !safe ==> r.Ok?
  {
    var sep := Index(s, SLASH);
    if safe && sep < |s| && sep == |s| - 1 then Err(NoResourcepart)
    else
      var resource := if sep < |s| then s[sep + 1..] else [];
      var rest := s[..sep];
      var at := Index(rest, AT);
      if safe && at < |rest| && at == 0 then Err(NoLocalpart)
      else Ok(Parts(HeadLocal(rest), HeadDomain(rest), resource))
  }

  // NewUnsafe after an unsafe split, which cannot fail.
  function ParseUnsafe(s: Text): (j: JID)
    ensures j.Valid()
  {
    Pack(SplitString(s, false).value)
  }

  // What the printed form can hold apart.
  predicate Separable(p: Parts) {
    && AT !in p.local && SLASH !in p.local && SLASH !in p.domain
    && (p.local == [] ==> AT !in p.domain)
  }

  function Head(p: Parts): Text { (if p.local == [] then [] else p.local + [AT]) + p.domain }

  // The printed form of the parts.
  function Joined(p: Parts): Text {
    Head(p) + (if p.resource == [] then [] else [SLASH] + p.resource)
  }

  lemma StringIsJoined(j: JID)
    requires j.Valid()
    ensures j.String() == Joined(j.Unpack())
  {
    assert |j.data| == |j.Localpart()| + |j.Domainpart()| + |j.Resourcepart()|;
    assert [] + j.Domainpart() == j.Domainpart();
    assert j.locallen == 0 ==> j.Localpart() == [];
  }

  lemma {:induction false} FirstIs(s: Text, b: byte, i: nat)
    requires i <= |s| && b !in s[..i] && (i < |s| ==> s[i] == b)
    ensures Index(s, b) == i
  {
    if i > 0 {
      assert s[..i][0] != b;
      assert s[1..][..i - 1] == s[..i][1..];
      FirstIs(s[1..], b, i - 1);
    }
  }

  lemma Slices(l: Text, d: Text, x: Text)
    ensures (l + d + x)[..|l|] == l && (l + d + x)[|l| + |d|..] == x && (l + d + x)[|l|..|l| + |d|] == d
  {
  }

  lemma HeadIsCut(p: Parts)
    requires Separable(p)
    ensures SLASH !in Head(p) && Index(Head(p), AT) == if p.local == [] then |Head(p)| else |p.local|
    ensures HeadLocal(Head(p)) == p.local && HeadDomain(Head(p)) == p.domain
  {
    hide Index;
    if p.local == [] {
      assert Head(p) == p.domain;
      assert Head(p)[..|Head(p)|] == Head(p);
      FirstIs(Head(p), AT, |Head(p)|);
    } else {
      Slices(p.local, [AT], p.domain);
      FirstIs(Head(p), AT, |p.local|);
    }
  }

  lemma SplitJoined(p: Parts, safe: bool)
    requires Separable(p)
    ensures SplitString(Joined(p), safe) == Ok(p)
  {
    hide Index, Separable, Head;
    HeadIsCut(p);
    var s := Joined(p);
    assert s == Head(p) + (if p.resource == [] then [] else [SLASH] + p.resource);
    assert s[..|Head(p)|] == Head(p);
    FirstIs(s, SLASH, |Head(p)|);
    if p.resource != [] { assert s[|Head(p)| + 1..] == p.resource; }
  }

  lemma SplitIsSeparable(s: Text, safe: bool)
    requires SplitString(s, safe).Ok?
    ensures var p := SplitString(s, safe).value;
            && AT !in p.local && SLASH !in p.local && SLASH !in p.domain
            && (Joined(p) == s ==> Separable(p))
  {
  }

  // Splitting a printed address gives its parts back exactly if they are
  // separable, whether or not empty parts are refused.
  lemma SplitInvertsString(j: JID, safe: bool)
    requires j.Valid()
    ensures SplitString(j.String(), safe) == Ok(j.Unpack()) <==> Separable(j.Unpack())
  {
    StringIsJoined(j);
    if Separable(j.Unpack()) {
      SplitJoined(j.Unpack(), safe);
    } else if SplitString(j.String(), safe) == Ok(j.Unpack()) {
      SplitIsSeparable(j.String(), safe);
    }
  }

  lemma CutAt(s: Text, i: nat)
    requires i < |s|
    ensures s == s[..i] + [s[i]] + s[i + 1..] && s == s[..i] + ([s[i]] + s[i + 1..])
  {
  }

  lemma {:induction false} HeadIsWhole(rest: Text)
    ensures rest == (if Index(rest, AT) < |rest| then HeadLocal(rest) + [AT] else []) + HeadDomain(rest)
  {
    hide Index;
    if Index(rest, AT) < |rest| { CutAt(rest, Index(rest, AT)); }
  }

  lemma SafeSplit(s: Text)
    requires SplitString(s, true).Ok?
    ensures var sep := Index(s, SLASH); var p := SplitString(s, true).value; var rest := s[..sep];
            && SplitString(s, false) == Ok(p)
            && p == Parts(HeadLocal(rest), HeadDomain(rest), if sep < |s| then s[sep + 1..] else [])
            && (p.local == [] <==> Index(rest, AT) == |rest|) && (p.resource == [] <==> sep == |s|)
  {
    hide Index;
  }

  lemma JoinedAs(p: Parts, before: Text, rest: Text, after: Text, s: Text)
    requires before == (if p.local == [] then [] else p.local + [AT]) && rest == before + p.domain
    requires after == (if p.resource == [] then [] else [SLASH] + p.resource) && s == rest + after
    ensures Joined(p) == s
  {
  }

  lemma SafeSplitJoins(s: Text)
    requires SplitString(s, true).Ok?
    ensures SplitString(s, true) == SplitString(s, false) && Joined(SplitString(s, true).value) == s
  {
    hide Index, Joined, SplitString;
    SafeSplit(s);
    var sep := Index(s, SLASH);
    HeadIsWhole(s[..sep]);
    if sep < |s| { CutAt(s, sep); } else { assert s[..sep] + [] == s; }
    var after := if sep < |s| then [SLASH] + s[sep + 1..] else [];
    var before := if Index(s[..sep], AT) < sep then HeadLocal(s[..sep]) + [AT] else [];
    JoinedAs(SplitString(s, true).value, before, s[..sep], after, s);
  }

  lemma RefusedSplitIsShorter(s: Text)
    requires SplitString(s, true).Err?
    ensures |Joined(SplitString(s, false).value)| < |s|
  {
    hide Index;
  }

  // Printing what a split accepts gives the text back; without the refusals that
  // holds for exactly the texts that would not have been refused.
  lemma StringInvertsSplit(s: Text)
    ensures SplitString(s, true).Ok? ==> SplitString(s, true) == SplitString(s, false)
    ensures ParseUnsafe(s).String() == s <==> SplitString(s, true).Ok?
  {
    hide SplitString, Joined;
    var p := SplitString(s, false).value;
    hide JID.String;
    StringIsJoined(Pack(p));
    if SplitString(s, true).Ok? { SafeSplitJoins(s); } else { RefusedSplitIsShorter(s); }
  }

  // Equal addresses print alike, and where the parts are separable only those do.
  lemma EqualMeansSameString(a: JID, b: JID)
    requires a.Valid() && b.Valid()
    ensures a == b <==> a.Unpack() == b.Unpack()
    ensures Separable(a.Unpack()) && Separable(b.Unpack()) ==> (a == b <==> a.String() == b.String())
  {
    PackUnpack(a);
    PackUnpack(b);
    SplitInvertsString(a, true);
    SplitInvertsString(b, true);
  }

  // The string does not tell an address without localpart from one with it.
  lemma StringsCanCollide(l: Text, d: Text)
    requires l != []
    ensures Pack(Parts(l, d, [])) != Pack(Parts([], l + [AT] + d, []))
    ensures Pack(Parts(l, d, [])).String() == Pack(Parts([], l + [AT] + d, [])).String()
  {
    StringIsJoined(Pack(Parts(l, d, [])));
    StringIsJoined(Pack(Parts([], l + [AT] + d, [])));
    assert Joined(Parts(l, d, [])) == Joined(Parts([], l + [AT] + d, []));
  }

  // ----- Checked addresses -----

  // The string preparation libraries: PRECIS profiles for localpart and
  // resourcepart, IDNA for the domainpart, and the recognition of IP addresses.
  datatype Profiles = Profiles(
    username: Text -> Option<Text>,
    opaqueString: Text -> Option<Text>,
    toUnicode: Text -> Option<Text>,
    ipLiteral: Text -> bool,
    ip4: Text -> bool)

  const MAX_PART := 1023

  // The characters " & ' / : < > @
  const FORBIDDEN: set<byte> := {0x22, 0x26, 0x27, 0x2F, 0x3A, 0x3C, 0x3E, 0x40}

  function LocalChecks(local: Text): Option<Error> {
    if |local| > MAX_PART then Some(LongLocalpart)
    else if exists i | 0 <= i < |local| :: local[i] in FORBIDDEN then Some(ForbiddenLocalpart)
    else None
  }

  function ResourceChecks(resource: Text): Option<Error> {
    if |resource| > MAX_PART then Some(LongResourcepart) else None
  }

  function TrimDot(d: Text): Text { if d != [] && d[|d| - 1] == DOT then d[..|d| - 1] else d }

  predicate IsIP(p: Profiles, d: Text) {
    (|d| > 2 && d[0] == 0x5B && d[|d| - 1] == 0x5D && p.ipLiteral(d[1..|d| - 1])) || p.ip4(d)
  }

  function NormalizeDomainpart(p: Profiles, d: Text): Result<Text> {
    if !ValidUtf8(d) then Err(InvalidUTF8)
    else if IsIP(p, d) then Ok(d)
    else
      var u := p.toUnicode(TrimDot(d));
      if u.None? then Err(Rejected)
      else if 1 <= |u.value| <= MAX_PART then Ok(u.value) else Err(InvalidDomainLen)
  }

  // An empty part is not prepared.
  function Prepared(profile: Text -> Option<Text>, part: Text): Option<Text> {
    if part == [] then Some([]) else profile(part)
  }

  function New(p: Profiles, local: Text, domain: Text, resource: Text): (r: Result<JID>)
    ensures r.Ok? ==> r.value.Valid()
  {
    if !ValidUtf8(local) || !ValidUtf8(resource) then Err(InvalidUTF8)
    else
      var d := NormalizeDomainpart(p, domain);
      if d.Err? then Err(d.error)
      else
        var l := Prepared(p.username, local);
        if l.None? then Err(Rejected)
        else
          var data := l.value + d.value;
          var x := Prepared(p.opaqueString, resource);
          if x.None? then Err(Rejected)
          else
            var all := data + x.value;
            var bad := LocalChecks(all[..|l.value|]);
            if bad.Some? then Err(bad.value)
            else
              var long := ResourceChecks(all[|l.value| + |d.value|..]);
              if long.Some? then Err(long.value) else Ok(JID(|l.value|, |d.value|, all))
  }

  function Parse(p: Profiles, s: Text): Result<JID> {
    var parts := SplitString(s, true);
    if parts.Err? then Err(parts.error) else New(p, parts.value.local, parts.value.domain, parts.value.resource)
  }

  // The methods that replace one part return an address beside the error.
  function WithLocal(p: Profiles, j: JID, local: Text): (r: (JID, Option<Error>))
    requires j.Valid()
    ensures r.0.Valid() && r.0.Domainpart() == j.Domainpart() && r.0.Resourcepart() == j.Resourcepart()
  {
    if local != [] && !ValidUtf8(local) then (j, Some(InvalidUTF8))
    else
      var l := Prepared(p.username, local);
      if l.None? then (j, Some(Rejected))
      else
        var data := l.value + j.data[j.locallen..];
        assert data[|l.value|..] == j.data[j.locallen..];
        assert j.data[j.locallen..][j.domainlen..] == j.Resourcepart();
        (JID(|l.value|, j.domainlen, data), LocalChecks(data[..|l.value|]))
  }

  function WithDomain(p: Profiles, j: JID, domain: Text): (r: (JID, Option<Error>))
    requires j.Valid()
    ensures r.0.Valid() && r.0.Localpart() == j.Localpart() && r.0.Resourcepart() == j.Resourcepart()
  {
    var d := NormalizeDomainpart(p, domain);
    if d.Err? then (j, Some(d.error))
    else
      var data := j.data[..j.locallen] + d.value + j.data[j.locallen + j.domainlen..];
      assert data[..j.locallen] == j.data[..j.locallen];
      (JID(j.locallen, |d.value|, data), None)
  }

  function WithResource(p: Profiles, j: JID, resource: Text): (r: (JID, Option<Error>))
    requires j.Valid()
    ensures r.0.Valid()
    ensures r.1.None? ==> r.0.Localpart() == j.Localpart() && r.0.Domainpart() == j.Domainpart()
  {
    var bare := j.Bare();
    if resource == [] then (bare, ResourceChecks(bare.data[j.locallen + j.domainlen..]))
    else if !ValidUtf8(resource) then (JID(0, 0, []), Some(InvalidUTF8))
    else
      var x := p.opaqueString(resource);
      if x.None? then (JID(0, 0, []), Some(Rejected))
      else
        var data := bare.data + x.value;
        assert data[..j.locallen] == j.data[..j.locallen];
        assert data[j.locallen..j.locallen + j.domainlen] == j.Domainpart();
        (bare.(data := data), ResourceChecks(data[j.locallen + j.domainlen..]))
  }

  // What makes the parts acceptable, part by part.
  predicate GoodLocal(p: Profiles, local: Text) {
    && ValidUtf8(local) && Prepared(p.username, local).Some?
    && LocalChecks(Prepared(p.username, local).value).None?
  }

  predicate GoodResource(p: Profiles, resource: Text) {
    && ValidUtf8(resource) && Prepared(p.opaqueString, resource).Some?
    && ResourceChecks(Prepared(p.opaqueString, resource).value).None?
  }

  // Why an address is refused: the first reason in this order.
  function Refusal(p: Profiles, local: Text, domain: Text, resource: Text): Option<Error> {
    var l, d, x := Prepared(p.username, local), NormalizeDomainpart(p, domain), Prepared(p.opaqueString, resource);
    if !ValidUtf8(local) || !ValidUtf8(resource) then Some(InvalidUTF8)
    else if d.Err? then Some(d.error)
    else if l.None? || x.None? then Some(Rejected)
    else if LocalChecks(l.value).Some? then LocalChecks(l.value)
    else ResourceChecks(x.value)
  }

  lemma LocalIsPlain(local: Text)
    ensures LocalChecks(local).None? ==> |local| <= MAX_PART && AT !in local && SLASH !in local
  {
    if LocalChecks(local).None? {
      assert forall i | 0 <= i < |local| :: local[i] !in FORBIDDEN;
      assert AT in FORBIDDEN && SLASH in FORBIDDEN;
    }
  }

  // An address is made exactly if each part is acceptable by itself, and holds
  // the prepared parts; its localpart has neither separator.
  lemma NewIsPartwise(p: Profiles, local: Text, domain: Text, resource: Text)
    ensures New(p, local, domain, resource).Ok?
       <==> GoodLocal(p, local) && NormalizeDomainpart(p, domain).Ok? && GoodResource(p, resource)
    ensures if New(p, local, domain, resource).Ok? then Refusal(p, local, domain, resource).None?
            else Refusal(p, local, domain, resource) == Some(New(p, local, domain, resource).error)
    ensures New(p, local, domain, resource).Ok? ==>
              var q := New(p, local, domain, resource).value.Unpack();
              && Some(q.local) == Prepared(p.username, local)
              && Ok(q.domain) == NormalizeDomainpart(p, domain)
              && Some(q.resource) == Prepared(p.opaqueString, resource)
              && |q.local| <= MAX_PART && |q.resource| <= MAX_PART && AT !in q.local && SLASH !in q.local
  {
    hide ValidUtf8, NormalizeDomainpart, Prepared, LocalChecks;
    var l, d, x := Prepared(p.username, local), NormalizeDomainpart(p, domain), Prepared(p.opaqueString, resource);
    if l.Some? && d.Ok? && x.Some? {
      Slices(l.value, d.value, x.value);
      LocalIsPlain(l.value);
    }
  }

  // Two addresses with the same parts are the same.
  lemma SameParts(a: JID, b: JID)
    requires a.Valid() && b.Valid() && a.Unpack() == b.Unpack()
    ensures a == b
  {
    PackUnpack(a);
    PackUnpack(b);
  }

  lemma EmptyIsValid()
    ensures ValidUtf8([])
  {
  }

  // What replacing the localpart gives, whatever the address.
  lemma WithLocalGives(p: Profiles, j: JID, part: Text)
    requires j.Valid()
    ensures var r, l := WithLocal(p, j, part), Prepared(p.username, part);
            if part != [] && !ValidUtf8(part) then r.1 == Some(InvalidUTF8)
            else if l.None? then r.1 == Some(Rejected)
            else r.1 == LocalChecks(l.value) && r.0.Localpart() == l.value
  {
    hide ValidUtf8, LocalChecks;
    var l := Prepared(p.username, part);
    if l.Some? { assert (l.value + j.data[j.locallen..])[..|l.value|] == l.value; }
  }

  lemma WithLocalIsNew(p: Profiles, local: Text, domain: Text, resource: Text, part: Text)
    requires New(p, local, domain, resource).Ok?
    ensures var r := WithLocal(p, New(p, local, domain, resource).value, part);
            New(p, part, domain, resource) == if r.1.None? then Ok(r.0) else Err(r.1.value)
  {
    hide NormalizeDomainpart, LocalChecks, ResourceChecks, New, WithLocal, Prepared, ValidUtf8;
    NewIsPartwise(p, local, domain, resource);
    NewIsPartwise(p, part, domain, resource);
    var r := WithLocal(p, New(p, local, domain, resource).value, part);
    WithLocalGives(p, New(p, local, domain, resource).value, part);
    EmptyIsValid();
    if r.1.None? { SameParts(r.0, New(p, part, domain, resource).value); }
  }

  lemma WithDomainIsNew(p: Profiles, local: Text, domain: Text, resource: Text, part: Text)
    requires New(p, local, domain, resource).Ok?
    ensures var r := WithDomain(p, New(p, local, domain, resource).value, part);
            New(p, local, part, resource) == if r.1.None? then Ok(r.0) else Err(r.1.value)
  {
    hide NormalizeDomainpart, LocalChecks, ResourceChecks, New, Prepared, ValidUtf8;
    NewIsPartwise(p, local, domain, resource);
    NewIsPartwise(p, local, part, resource);
    var j := New(p, local, domain, resource).value;
    var r := WithDomain(p, j, part);
    if r.1.None? {
      Slices(j.Localpart(), NormalizeDomainpart(p, part).value, j.Resourcepart());
      SameParts(r.0, New(p, local, part, resource).value);
    }
  }

  lemma WithResourceGives(p: Profiles, j: JID, part: Text)
    requires j.Valid()
    ensures var r, x := WithResource(p, j, part), Prepared(p.opaqueString, part);
            if part != [] && !ValidUtf8(part) then r.1 == Some(InvalidUTF8)
            else if x.None? then r.1 == Some(Rejected)
            else r.1 == ResourceChecks(x.value) && r.0.Resourcepart() == x.value
  {
    hide ValidUtf8, ResourceChecks;
    var bare, n := j.Bare(), j.locallen + j.domainlen;
    assert bare.data[n..] == [];
    if part != [] && p.opaqueString(part).Some? {
      assert (bare.data + p.opaqueString(part).value)[n..] == p.opaqueString(part).value;
    }
  }

  lemma WithResourceIsNew(p: Profiles, local: Text, domain: Text, resource: Text, part: Text)
    requires New(p, local, domain, resource).Ok?
    ensures var r := WithResource(p, New(p, local, domain, resource).value, part);
            New(p, local, domain, part) == if r.1.None? then Ok(r.0) else Err(r.1.value)
  {
    hide NormalizeDomainpart, LocalChecks, ResourceChecks, New, WithResource, Prepared, ValidUtf8;
    NewIsPartwise(p, local, domain, resource);
    NewIsPartwise(p, local, domain, part);
    var r := WithResource(p, New(p, local, domain, resource).value, part);
    WithResourceGives(p, New(p, local, domain, resource).value, part);
    EmptyIsValid();
    if r.1.None? { SameParts(r.0, New(p, local, domain, part).value); }
  }

  // Replacing a part of an accepted address gives the address, or the error, that
  // building it from scratch with the other part gives.
  lemma WithIsNew(p: Profiles, local: Text, domain: Text, resource: Text, part: Text)
    requires New(p, local, domain, resource).Ok?
    ensures var r := WithLocal(p, New(p, local, domain, resource).value, part);
            New(p, part, domain, resource) == if r.1.None? then Ok(r.0) else Err(r.1.value)
    ensures var r := WithDomain(p, New(p, local, domain, resource).value, part);
            New(p, local, part, resource) == if r.1.None? then Ok(r.0) else Err(r.1.value)
    ensures var r := WithResource(p, New(p, local, domain, resource).value, part);
            New(p, local, domain, part) == if r.1.None? then Ok(r.0) else Err(r.1.value)
  {
    WithLocalIsNew(p, local, domain, resource, part);
    WithDomainIsNew(p, local, domain, resource, part);
    WithResourceIsNew(p, local, domain, resource, part);
  }

  // A localpart is checked to have at most 1023 bytes and none of these eight.
  lemma LocalIsChecked(local: Text)
    ensures LocalChecks(local).None?
            <==> && |local| < 1024
                 && forall i | 0 <= i < |local| ::
                      && local[i] != '\"' as int && local[i] != '&' as int && local[i] != '\'' as int
                      && local[i] != '/' as int && local[i] != ':' as int && local[i] != '<' as int
                      && local[i] != '>' as int && local[i] != '@' as int
    ensures LocalChecks(local) == Some(LongLocalpart) <==> |local| >= 1024
  {
  }

  // One final dot of a domain makes no difference.
  lemma FinalDotIsDropped(p: Profiles, d: Text)
    requires d != [] && d[|d| - 1] != DOT && ValidUtf8(d) && ValidUtf8(d + [DOT]) && !IsIP(p, d) && !IsIP(p, d + [DOT])
    ensures NormalizeDomainpart(p, d + [DOT]) == NormalizeDomainpart(p, d)
  {
    hide ValidUtf8, IsIP;
    assert (d + [DOT])[..|d|] == d;
  }

  // An IP address is kept as it is, even with a final dot or at any length; every
  // other domain that is accepted has 1 to 1023 bytes then.
  lemma DomainsKept(p: Profiles, d: Text)
    requires ValidUtf8(d)
    ensures var r := NormalizeDomainpart(p, d);
            if (|d| > 2 && d[0] == '[' as int && d[|d| - 1] == ']' as int && p.ipLiteral(d[1..|d| - 1])) || p.ip4(d)
            then r == Ok(d) else r.Ok? ==> 1 <= |r.value| <= 1023
  {
  }

  // ----- Parsing what was printed -----

  // Prepared text is well-formed and stays as it is when prepared again; for
  // domains also without a final dot.
  ghost predicate Stable(p: Profiles) {
    && (forall x :: p.username(x).Some? ==>
          ValidUtf8(p.username(x).value) && p.username(p.username(x).value) == p.username(x))
    && (forall x :: p.opaqueString(x).Some? ==>
          ValidUtf8(p.opaqueString(x).value) && p.opaqueString(p.opaqueString(x).value) == p.opaqueString(x))
    && (forall x :: p.toUnicode(x).Some? ==>
          var u := p.toUnicode(x).value;
          ValidUtf8(u) && p.toUnicode(u) == Some(u) && p.toUnicode(TrimDot(u)) == Some(TrimDot(u)))
  }

  lemma LocalAgain(p: Profiles, local: Text)
    requires Stable(p) && GoodLocal(p, local)
    ensures var l := Prepared(p.username, local).value; GoodLocal(p, l) && Prepared(p.username, l) == Some(l)
  {
    hide ValidUtf8, LocalChecks;
    assert ValidUtf8([]) by { EmptyIsValid(); }
  }

  lemma ResourceAgain(p: Profiles, resource: Text)
    requires Stable(p) && GoodResource(p, resource)
    ensures var x := Prepared(p.opaqueString, resource).value;
            GoodResource(p, x) && Prepared(p.opaqueString, x) == Some(x)
  {
    hide ValidUtf8;
    EmptyIsValid();
  }

  lemma DomainAgain(p: Profiles, domain: Text)
    requires Stable(p) && NormalizeDomainpart(p, domain).Ok?
    ensures var d := NormalizeDomainpart(p, domain).value;
            NormalizeDomainpart(p, d) == Ok(d) <==> TrimDot(d) == d || IsIP(p, d)
  {
    hide ValidUtf8, IsIP;
    if !IsIP(p, domain) { assert p.toUnicode(TrimDot(domain)).Some?; }
  }

  // An accepted address is read back from its printed form exactly if its domain
  // does not end in a dot. Only one dot is taken off a domain, so a domain written
  // with two keeps one; an IP address keeps its form.
  lemma ParseInvertsString(p: Profiles, local: Text, domain: Text, resource: Text)
    requires Stable(p) && New(p, local, domain, resource).Ok?
    requires var q := New(p, local, domain, resource).value.Unpack();
             SLASH !in q.domain && (q.local == [] ==> AT !in q.domain)
    ensures var j := New(p, local, domain, resource).value;
            Parse(p, j.String()) == Ok(j) <==> TrimDot(j.Domainpart()) == j.Domainpart() || IsIP(p, j.Domainpart())
  {
    hide ValidUtf8, LocalChecks, New, IsIP, SplitString, Prepared, NormalizeDomainpart;
    NewIsPartwise(p, local, domain, resource);
    var j := New(p, local, domain, resource).value;
    var q := j.Unpack();
    SplitInvertsString(j, true);
    NewIsPartwise(p, q.local, q.domain, q.resource);
    LocalAgain(p, local);
    ResourceAgain(p, resource);
    DomainAgain(p, domain);
    if New(p, q.local, q.domain, q.resource).Ok? {
      var k := New(p, q.local, q.domain, q.resource).value;
      if k.Unpack() == q { SameParts(j, k); }
    }
  }
}
