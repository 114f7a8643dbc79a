// Answers to IQs (RFC 6120, section 8.2.3): how the session recognises that a
// handler has answered, and the error it sends otherwise.
module ReplyModel {
  import opened Xml
  import S = StanzaModel

  datatype IdType = IdType(id: string, typ: string)

  // getIDTyp: scans until both an id and a type were seen.
  function Scan(attrs: seq<Attr>, i: nat, acc: IdType, foundId: bool, foundTyp: bool): IdType
    requires i <= |attrs|
    decreases |attrs| - i
  {
    if i == |attrs| || (foundId && foundTyp) then acc
    else if attrs[i].name.local == "id" then Scan(attrs, i + 1, acc.(id := attrs[i].value), true, foundTyp)
    else if attrs[i].name.local == "type" then Scan(attrs, i + 1, acc.(typ := attrs[i].value), foundId, true)
    else Scan(attrs, i + 1, acc, foundId, foundTyp)
  }

  function IdTypeOf(attrs: seq<Attr>): IdType { Scan(attrs, 0, IdType("", ""), false, false) }

  // Position of the first attribute with this local name; the length if there is none.
  function FirstAt(attrs: seq<Attr>, local: string): (k: nat)
    ensures k <= |attrs| && (k < |attrs| ==> attrs[k].name.local == local)
    ensures forall j | 0 <= j < k :: attrs[j].name.local != local
  {
    if attrs == [] || attrs[0].name.local == local then 0 else 1 + FirstAt(attrs[1..], local)
  }

  // Value of the last attribute with this local name, or "".
  function LastValue(attrs: seq<Attr>, local: string): string {
    if attrs == [] then ""
    else if attrs[|attrs| - 1].name.local == local then attrs[|attrs| - 1].value
    else LastValue(attrs[..|attrs| - 1], local)
  }

  // How far the scan goes: until an id and a type have been seen.
  function Scanned(attrs: seq<Attr>): (n: nat)
    ensures n <= |attrs|
  {
    var id, typ := FirstAt(attrs, "id"), FirstAt(attrs, "type");
    if id == |attrs| || typ == |attrs| then |attrs| else 1 + if id > typ then id else typ
  }

  lemma LastStep(attrs: seq<Attr>, i: nat, local: string)
    requires i < |attrs|
    ensures LastValue(attrs[..i + 1], local)
            == if attrs[i].name.local == local then attrs[i].value else LastValue(attrs[..i], local)
    ensures attrs[i].name.local != local ==> FirstAt(attrs, local) != i
    ensures attrs[i].name.local == local ==> FirstAt(attrs, local) <= i
  {
    hide FirstAt;
    assert attrs[..i + 1][..i] == attrs[..i];
  }

  lemma {:induction false} ScanIs(attrs: seq<Attr>, i: nat, acc: IdType, foundId: bool, foundTyp: bool)
    requires i <= Scanned(attrs)
    requires acc == IdType(LastValue(attrs[..i], "id"), LastValue(attrs[..i], "type"))
    requires foundId == (FirstAt(attrs, "id") < i) && foundTyp == (FirstAt(attrs, "type") < i)
    ensures var n := Scanned(attrs);
            Scan(attrs, i, acc, foundId, foundTyp) == IdType(LastValue(attrs[..n], "id"), LastValue(attrs[..n], "type"))
    decreases |attrs| - i
  {
    hide LastValue, FirstAt;
    if i < |attrs| && !(foundId && foundTyp) {
      LastStep(attrs, i, "id");
      LastStep(attrs, i, "type");
      var a := attrs[i];
      if a.name.local == "id" {
        ScanIs(attrs, i + 1, acc.(id := a.value), true, foundTyp);
      } else if a.name.local == "type" {
        ScanIs(attrs, i + 1, acc.(typ := a.value), foundId, true);
      } else {
        ScanIs(attrs, i + 1, acc, foundId, foundTyp);
      }
    }
  }

  // The id and the type found are the last ones up to where both have occurred.
  lemma IdTypeIs(attrs: seq<Attr>)
    ensures var n := Scanned(attrs);
            IdTypeOf(attrs) == IdType(LastValue(attrs[..n], "id"), LastValue(attrs[..n], "type"))
  {
    ScanIs(attrs, 0, IdType("", ""), false, false);
  }

  function Part(it: IdType, local: string): string { if local == "id" then it.id else it.typ }

  predicate OnlyOne(attrs: seq<Attr>, k: nat)
    requires k < |attrs|
  {
    forall j | 0 <= j < |attrs| && j != k :: attrs[j].name.local != attrs[k].name.local
  }

  lemma {:induction false} OnlyValue(attrs: seq<Attr>, local: string, k: nat)
    requires k < |attrs| && attrs[k].name.local == local && forall j | k < j < |attrs| :: attrs[j].name.local != local
    ensures LastValue(attrs, local) == attrs[k].value
    decreases |attrs|
  {
    if k < |attrs| - 1 { OnlyValue(attrs[..|attrs| - 1], local, k); }
  }

  lemma {:induction false} NoValue(attrs: seq<Attr>, local: string)
    requires forall j | 0 <= j < |attrs| :: attrs[j].name.local != local
    ensures LastValue(attrs, local) == ""
  {
    if attrs != [] { NoValue(attrs[..|attrs| - 1], local); }
  }

  // So with one of a kind it is found, and with none nothing.
  lemma SingleIsFound(attrs: seq<Attr>, local: string)
    requires local == "id" || local == "type"
    ensures FirstAt(attrs, local) == |attrs| ==> Part(IdTypeOf(attrs), local) == ""
    ensures forall k | 0 <= k < |attrs| && attrs[k].name.local == local && OnlyOne(attrs, k) ::
              Part(IdTypeOf(attrs), local) == attrs[k].value
  {
    hide LastValue, IdTypeOf;
    IdTypeIs(attrs);
    var n := Scanned(attrs);
    if FirstAt(attrs, local) == |attrs| { NoValue(attrs[..n], local); }
    forall k | 0 <= k < |attrs| && attrs[k].name.local == local && OnlyOne(attrs, k)
      ensures Part(IdTypeOf(attrs), local) == attrs[k].value
    {
      assert FirstAt(attrs, local) == k;
      OnlyValue(attrs[..n], local, k);
    }
  }

  predicate IsIQ(name: Name) { name.local == "iq" && (name.space == S.NS_CLIENT || name.space == S.NS_SERVER) }

  predicate IsIQEmptySpace(name: Name) {
    name.local == "iq" && (name.space == "" || name.space == S.NS_CLIENT || name.space == S.NS_SERVER)
  }

  predicate NeedsReply(start: Token)
    requires start.Start?
  {
    IsIQ(start.name) && (IdTypeOf(start.attrs).typ == "get" || IdTypeOf(start.attrs).typ == "set")
  }

  // A start token that, at the top level, answers the IQ with this id.
  predicate Answers(id: string, t: Token) {
    && t.Start? && IsIQEmptySpace(t.name)
    && IdTypeOf(t.attrs).id == id && IdTypeOf(t.attrs).typ != "get" && IdTypeOf(t.attrs).typ != "set"
  }

  // An element with one id and one type: which IQ it answers, and whether it asks
  // for an answer itself.
  lemma AnswerMeans(id: string, t: Token, i: nat, j: nat)
    requires t.Start? && i < |t.attrs| && t.attrs[i].name.local == "id" && OnlyOne(t.attrs, i)
    requires j < |t.attrs| && t.attrs[j].name.local == "type" && OnlyOne(t.attrs, j)
    ensures Answers(id, t)
            <==> && t.name.local == "iq" && (t.name.space in {"", "jabber:client", "jabber:server"})
                 && t.attrs[i].value == id && t.attrs[j].value !in {"get", "set"}
    ensures NeedsReply(t)
            <==> && t.name.local == "iq" && (t.name.space in {"jabber:client", "jabber:server"})
                 && t.attrs[j].value in {"get", "set"}
  {
    hide IdTypeOf;
    SingleIsFound(t.attrs, "id");
    SingleIsFound(t.attrs, "type");
  }

  // An element answers at most one IQ, and none that asks for an answer does.
  lemma AnswersOne(a: string, b: string, t: Token)
    ensures Answers(a, t) && Answers(b, t) ==> a == b
    ensures Answers(a, t) ==> t.Start? && !NeedsReply(t)
  {
  }

  // ----- The response checker -----

  datatype Checker = Checker(wroteResp: bool, level: int)

  function Check(id: string, c: Checker, t: Token): Checker {
    match t
    case Start(_, _) => Checker(c.wroteResp || (c.level < 1 && Answers(id, t)), c.level + 1)
    case End(_) => c.(level := c.level - 1)
    case Text(_) => c
  }

  function CheckAll(id: string, c: Checker, ts: seq<Token>): Checker
    decreases |ts|
  {
    if ts == [] then c else CheckAll(id, Check(id, c, ts[0]), ts[1..])
  }

  // Whether one of the top-level elements of ts is an answer.
  predicate HasAnswer(id: string, ts: seq<Token>)
    requires Balanced(ts)
    decreases |ts|
  {
    ts != [] &&
    if ts[0].Text? then HasAnswer(id, ts[1..])
    else Answers(id, ts[0]) || HasAnswer(id, ts[Behind(ts, 1, 1)..])
  }

  lemma {:induction false} CheckAllSplit(id: string, c: Checker, a: seq<Token>, b: seq<Token>)
    ensures CheckAll(id, c, a + b) == CheckAll(id, CheckAll(id, c, a), b)
    decreases |a|
  {
    if a == [] {
      assert a + b == b;
    } else {
      assert (a + b)[1..] == a[1..] + b;
      CheckAllSplit(id, Check(id, c, a[0]), a[1..], b);
    }
  }

  lemma CheckOneMore(id: string, c: Checker, a: seq<Token>, t: Token)
    ensures CheckAll(id, c, a + [t]) == Check(id, CheckAll(id, c, a), t)
  {
    CheckAllSplit(id, c, a, [t]);
    assert [t][1..] == [];
  }

  // Inside an element nothing is taken for an answer, and behind it the level
  // is that of its start.
  lemma {:induction false} CheckInside(id: string, c: Checker, ts: seq<Token>, i: nat, d: nat)
    requires i <= |ts| && d >= 1 && Closes(ts, i, d) && c.level == d
    ensures CheckAll(id, c, ts[i..]) == CheckAll(id, Checker(c.wroteResp, 0), ts[Behind(ts, i, d)..])
    decreases |ts| - i
  {
    var next := Check(id, c, ts[i]);
    assert ts[i..][0] == ts[i] && ts[i..][1..] == ts[i + 1..];
    match ts[i]
    case Start(_, _) => CheckInside(id, next, ts, i + 1, d + 1);
    case End(_) => if d > 1 { CheckInside(id, next, ts, i + 1, d - 1); }
    case Text(_) => CheckInside(id, next, ts, i + 1, d);
  }

  // The checker has seen an answer exactly if one was written at the top level.
  lemma {:induction false} CheckerIsRight(id: string, ts: seq<Token>, wrote: bool)
    requires Balanced(ts)
    ensures CheckAll(id, Checker(wrote, 0), ts) == Checker(wrote || HasAnswer(id, ts), 0)
    decreases |ts|
  {
    if ts != [] {
      var next := Check(id, Checker(wrote, 0), ts[0]);
      if ts[0].Text? {
        CheckerIsRight(id, ts[1..], wrote);
      } else {
        CheckInside(id, next, ts, 1, 1);
        CheckerIsRight(id, ts[Behind(ts, 1, 1)..], next.wroteResp);
      }
    }
  }

  // ----- The automatic reply -----

  // iq of type error with the condition service-unavailable.
  function ErrorReply(id: string, to: string): (r: seq<Token>)
    ensures |r| == 6
  {
    var iq, error, condition := Name("", "iq"), Name("", "error"),
      Name("urn:ietf:params:xml:ns:xmpp-stanzas", "service-unavailable");
    [ Start(iq, [Attr(Name("", "type"), "error")]
                + (if to != "" then [Attr(Name("", "to"), to)] else [])
                + (if id != "" then [Attr(Name("", "id"), id)] else [])),
      Start(error, [Attr(Name("", "type"), "cancel")]),
      Start(condition, []), End(condition), End(error), End(iq)]
  }

  lemma ErrorReplyAnswers(id: string, to: string)
    requires id != ""
    ensures Answers(id, ErrorReply(id, to)[0])
    ensures Balanced(ErrorReply(id, to)) && HasAnswer(id, ErrorReply(id, to))
  {
    var ts := ErrorReply(id, to);
    var attrs := ts[0].attrs;
    var last := |attrs| - 1;
    assert attrs[0].value == "error" && attrs[last] == Attr(Name("", "id"), id);
    assert Scan(attrs, last + 1, IdType(id, "error"), true, true) == IdType(id, "error");
    assert Scan(attrs, last, IdType("", "error"), false, true) == IdType(id, "error");
    assert Scan(attrs, 1, IdType("", "error"), false, true) == IdType(id, "error");
    assert Behind(ts, 5, 1) == 6 && Behind(ts, 4, 2) == 6 && Behind(ts, 3, 3) == 6 && Behind(ts, 2, 2) == 6;
    assert Behind(ts, 1, 1) == 6;
    assert Closes(ts, 5, 1) && Closes(ts, 4, 2) && Closes(ts, 3, 3) && Closes(ts, 2, 2);
    assert ts[6..] == [];
  }

  lemma ErrorReplyTo(id: string, to: string)
    ensures S.Named(ErrorReply(id, to)[0].attrs, "to") == if to == "" then [] else [Attr(Name("", "to"), to)]
  {
    hide S.Named;
    var typ, addr := [Attr(Name("", "type"), "error")], if to != "" then [Attr(Name("", "to"), to)] else [];
    var ids := if id != "" then [Attr(Name("", "id"), id)] else [];
    S.AddedNamed(typ, addr, ids, "to");
    S.NamedNone("to");
    S.NamedOne(typ[0], "to");
    S.NamedOne(Attr(Name("", "to"), to), "to");
    S.NamedOne(Attr(Name("", "id"), id), "to");
    assert ErrorReply(id, to)[0].attrs == typ + addr + ids;
  }

  lemma ErrorReplyIdType(id: string, to: string)
    requires id != ""
    ensures IdTypeOf(ErrorReply(id, to)[0].attrs) == IdType(id, "error")
  {
    hide IdTypeOf, Scan;
    var attrs := ErrorReply(id, to)[0].attrs;
    var last := |attrs| - 1;
    assert attrs[0] == Attr(Name("", "type"), "error") && attrs[last] == Attr(Name("", "id"), id);
    assert forall k | 0 < k < last :: attrs[k].name.local == "to";
    assert OnlyOne(attrs, 0) && OnlyOne(attrs, last);
    SingleIsFound(attrs, "id");
    SingleIsFound(attrs, "type");
  }

  // What the automatic reply says: an error for this id, to this address if there
  // is one, to be cancelled because the service is not available.
  lemma ErrorReplyIs(id: string, to: string)
    requires id != ""
    ensures var r := ErrorReply(id, to);
            && r[0].Start? && r[0].name == Name("", "iq") && IdTypeOf(r[0].attrs) == IdType(id, "error")
            && S.Named(r[0].attrs, "to") == (if to == "" then [] else [Attr(Name("", "to"), to)])
            && r[1] == Start(Name("", "error"), [Attr(Name("", "type"), "cancel")])
            && r[2] == Start(Name("urn:ietf:params:xml:ns:xmpp-stanzas", "service-unavailable"), [])
  {
    hide IdTypeOf, S.Named;
    ErrorReplyTo(id, to);
    ErrorReplyIdType(id, to);
  }

  lemma {:induction false} BehindExtend(a: seq<Token>, b: seq<Token>, i: nat, d: nat)
    requires i <= |a| && d >= 1 && Closes(a, i, d)
    ensures Closes(a + b, i, d) && Behind(a + b, i, d) == Behind(a, i, d)
    decreases |a| - i
  {
    match a[i]
    case Start(_, _) => BehindExtend(a, b, i + 1, d + 1);
    case End(_) => if d > 1 { BehindExtend(a, b, i + 1, d - 1); }
    case Text(_) => BehindExtend(a, b, i + 1, d);
  }

  // Balanced output may be written piece by piece.
  lemma {:induction false} HasAnswerAppend(id: string, a: seq<Token>, b: seq<Token>)
    requires Balanced(a) && Balanced(b)
    ensures Balanced(a + b) && (HasAnswer(id, a + b) <==> HasAnswer(id, a) || HasAnswer(id, b))
    decreases |a|
  {
    if a == [] {
      assert a + b == b;
    } else if a[0].Text? {
      assert (a + b)[1..] == a[1..] + b;
      HasAnswerAppend(id, a[1..], b);
    } else {
      BehindExtend(a, b, 1, 1);
      var j := Behind(a, 1, 1);
      assert (a + b)[j..] == a[j..] + b;
      HasAnswerAppend(id, a[j..], b);
    }
  }
}
