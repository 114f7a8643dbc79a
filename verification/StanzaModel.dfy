// What the session's stanza encoder does to outgoing tokens (RFC 6120, sections
// 4.7.1, 8.1.2 and 8.1.3), and what it keeps.
module StanzaModel {
  import opened Wrappers
  import opened Xml

  const NS_CLIENT := "jabber:client"
  const NS_SERVER := "jabber:server"

  predicate IsStanzaName(local: string) { local == "iq" || local == "message" || local == "presence" }

  predicate IsStanzaEmptySpace(name: Name) {
    IsStanzaName(name.local) && (name.space == NS_CLIENT || name.space == NS_SERVER || name.space == "")
  }

  // Stanzas, in the namespaces of clients and servers or in none.
  lemma StanzaNames(name: Name)
    ensures IsStanzaEmptySpace(name)
            <==> name.local in {"iq", "message", "presence"} && name.space in {"", "jabber:client", "jabber:server"}
  {
  }

  // Settings of an encoder: the stream's namespace, and the address to fill in
  // ("" for none).
  datatype Config = Config(ns: string, from: string)

  // The attributes the encoder looks at, by local name.
  datatype Role = Id | From | Xmlns | Other

  function RoleOf(a: Attr): Role {
    if a.name.local == "id" then Id
    else if a.name.local == "from" then From
    else if a.name.local == "xmlns" then Xmlns
    else Other
  }

  predicate Has(attrs: seq<Attr>, role: Role) { exists i | 0 <= i < |attrs| :: RoleOf(attrs[i]) == role }

  predicate NotEmpty(a: Attr) { !((RoleOf(a) == Id || RoleOf(a) == From) && a.value == "") }

  predicate NotXmlns(a: Attr) { RoleOf(a) != Xmlns }

  predicate IsOther(a: Attr) { RoleOf(a) == Other }

  function Filter(p: Attr -> bool, s: seq<Attr>): seq<Attr> {
    if s == [] then [] else (if p(s[0]) then [s[0]] else []) + Filter(p, s[1..])
  }

  // Attributes without empty ids and addresses.
  function DropEmpty(attrs: seq<Attr>): seq<Attr> { Filter(NotEmpty, attrs) }

  function DropXmlns(attrs: seq<Attr>): seq<Attr> { Filter(NotXmlns, attrs) }

  // The attributes the encoder has no business with.
  function Others(attrs: seq<Attr>): seq<Attr> { Filter(IsOther, attrs) }

  function FillIn(attrs: seq<Attr>, from: string, id: string): seq<Attr> {
    attrs
    + (if from != "" && !Has(attrs, From) then [Attr(Name("", "from"), from)] else [])
    + (if !Has(attrs, Id) then [Attr(Name("", "id"), id)] else [])
  }

  function FixSpace(c: Config, name: Name): Name {
    if IsStanzaEmptySpace(name) && name.space == "" then name.(space := c.ns) else name
  }

  // The token that goes out for t when depth elements are open before it.
  function Fix(c: Config, depth: int, t: Token, id: string): Token {
    match t
    case Start(name, attrs) =>
      var top := depth == 0 && IsStanzaEmptySpace(name);
      var name' := if top then FixSpace(c, name) else name;
      var attrs' := if top then FillIn(DropEmpty(attrs), c.from, id) else attrs;
      Start(name', if name'.space != "" then DropXmlns(attrs') else attrs')
    case End(name) => if depth == 1 then End(FixSpace(c, name)) else t
    case Text(_) => t
  }

  function DepthAfter(depth: int, t: Token): int {
    match t case Start(_, _) => depth + 1 case End(_) => depth - 1 case Text(_) => depth
  }

  // All of a token sequence; the i-th token may use the i-th fresh id.
  function FixAll(c: Config, depth: int, ts: seq<Token>, ids: nat -> string): (r: seq<Token>)
    ensures |r| == |ts|
    decreases |ts|
  {
    if ts == [] then []
    else
      [Fix(c, depth, ts[0], ids(0))] + FixAll(c, DepthAfter(depth, ts[0]), ts[1..], (i: nat) => ids(i + 1))
  }

  // ----- Nesting -----

  // Start and end tokens match by name; open holds the elements open before.
  predicate Nested(open: seq<Name>, ts: seq<Token>)
    decreases |ts|
  {
    if ts == [] then open == []
    else match ts[0]
      case Start(name, _) => Nested(open + [name], ts[1..])
      case End(name) => open != [] && open[|open| - 1] == name && Nested(open[..|open| - 1], ts[1..])
      case Text(_) => Nested(open, ts[1..])
  }

  // The names that are open in the output.
  function FixOpen(c: Config, open: seq<Name>): seq<Name> {
    if open == [] then [] else [FixSpace(c, open[0])] + open[1..]
  }

  // A properly nested sequence goes out properly nested.
  lemma {:induction false} FixNests(c: Config, open: seq<Name>, ts: seq<Token>, ids: nat -> string)
    requires Nested(open, ts)
    ensures Nested(FixOpen(c, open), FixAll(c, |open|, ts, ids))
    decreases |ts|
  {
    if ts != [] {
      var rest := (i: nat) => ids(i + 1);
      var out := FixAll(c, |open|, ts, ids);
      assert out[1..] == FixAll(c, DepthAfter(|open|, ts[0]), ts[1..], rest);
      match ts[0]
      case Start(name, _) =>
        FixNests(c, open + [name], ts[1..], rest);
        if open == [] {
          assert [] + [name] == [name] && [] + [FixSpace(c, name)] == [FixSpace(c, name)];
          assert FixOpen(c, [name]) == [FixSpace(c, name)];
        } else {
          assert FixOpen(c, open + [name]) == FixOpen(c, open) + [name];
        }
      case End(name) =>
        var outer := open[..|open| - 1];
        FixNests(c, outer, ts[1..], rest);
        var o := FixOpen(c, open);
        assert o[..|o| - 1] == FixOpen(c, outer);
      case Text(_) => FixNests(c, open, ts[1..], rest);
    }
  }

  // ----- Attributes -----

  lemma {:induction false} FilterMember(p: Attr -> bool, s: seq<Attr>)
    ensures forall a :: a in Filter(p, s) <==> a in s && p(a)
  {
    if s != [] { FilterMember(p, s[1..]); }
  }

  lemma FilterOne(p: Attr -> bool, a: Attr)
    ensures Filter(p, [a]) == if p(a) then [a] else []
  {
    assert [a][1..] == [];
  }

  // A coarser filter first changes nothing.
  lemma {:induction false} FilterTwice(p: Attr -> bool, q: Attr -> bool, s: seq<Attr>)
    requires forall a | a in s :: q(a) ==> p(a)
    ensures Filter(q, Filter(p, s)) == Filter(q, s)
  {
    if s != [] {
      FilterTwice(p, q, s[1..]);
      var f := Filter(p, s);
      assert f == (if p(s[0]) then [s[0]] else []) + Filter(p, s[1..]);
      if p(s[0]) {
        assert f[0] == s[0] && f[1..] == Filter(p, s[1..]);
      } else {
        assert f == Filter(p, s[1..]);
      }
    }
  }

  lemma {:induction false} FilterAll(p: Attr -> bool, s: seq<Attr>)
    requires forall a | a in s :: p(a)
    ensures Filter(p, s) == s
  {
    if s != [] { FilterAll(p, s[1..]); }
  }

  lemma {:induction false} FilterNone(p: Attr -> bool, s: seq<Attr>)
    requires forall a | a in s :: !p(a)
    ensures Filter(p, s) == []
  {
    if s != [] { FilterNone(p, s[1..]); }
  }

  lemma {:induction false} FilterAppend(p: Attr -> bool, s: seq<Attr>, t: seq<Attr>)
    ensures Filter(p, s + t) == Filter(p, s) + Filter(p, t)
  {
    if s == [] {
      assert s + t == t;
    } else {
      FilterAppend(p, s[1..], t);
      assert (s + t)[1..] == s[1..] + t;
      Regroup(if p(s[0]) then [s[0]] else [], Filter(p, s[1..]), Filter(p, t));
    }
  }

  lemma DropXmlnsKeeps(attrs: seq<Attr>)
    ensures Others(DropXmlns(attrs)) == Others(attrs)
    ensures forall a :: a in DropXmlns(attrs) <==> a in attrs && NotXmlns(a)
    ensures !Has(DropXmlns(attrs), Xmlns)
  {
    FilterTwice(NotXmlns, IsOther, attrs);
    FilterMember(NotXmlns, attrs);
    var r := DropXmlns(attrs);
    assert forall i | 0 <= i < |r| :: r[i] in r && NotXmlns(r[i]);
  }

  // No id or from attribute is empty.
  predicate Filled(attrs: seq<Attr>) { forall a | a in attrs :: NotEmpty(a) }

  lemma DropEmptyKeeps(attrs: seq<Attr>)
    ensures Others(DropEmpty(attrs)) == Others(attrs) && Filled(DropEmpty(attrs))
    ensures forall a :: a in DropEmpty(attrs) <==> a in attrs && NotEmpty(a)
  {
    FilterTwice(NotEmpty, IsOther, attrs);
    FilterMember(NotEmpty, attrs);
  }

  lemma HasMember(attrs: seq<Attr>, role: Role, a: Attr)
    requires a in attrs && RoleOf(a) == role
    ensures Has(attrs, role)
  {
  }

  lemma AddedRoles(from: string, id: string)
    ensures RoleOf(Attr(Name("", "from"), from)) == From && RoleOf(Attr(Name("", "id"), id)) == Id
  {
  }

  lemma FillInKeeps(attrs: seq<Attr>, from: string, id: string)
    requires Filled(attrs) && id != ""
    ensures var r := FillIn(attrs, from, id);
            Others(r) == Others(attrs) && Filled(r) && attrs <= r && Has(r, Id) && (from != "" ==> Has(r, From))
  {
    var f, i := Attr(Name("", "from"), from), Attr(Name("", "id"), id);
    var fs := if from != "" && !Has(attrs, From) then [f] else [];
    var ids := if !Has(attrs, Id) then [i] else [];
    var r := FillIn(attrs, from, id);
    hide RoleOf, Filter;
    assert r == attrs + (fs + ids);
    AddedRoles(from, id);
    FilterAppend(IsOther, attrs, fs + ids);
    FilterNone(IsOther, fs + ids);
    if Has(attrs, Id) {
      var k :| 0 <= k < |attrs| && RoleOf(attrs[k]) == Id;
      HasMember(r, Id, attrs[k]);
    } else {
      HasMember(r, Id, i);
    }
    if Has(attrs, From) {
      var k :| 0 <= k < |attrs| && RoleOf(attrs[k]) == From;
      HasMember(r, From, attrs[k]);
    } else if from != "" {
      HasMember(r, From, f);
    }
  }

  lemma HasAfterDrop(attrs: seq<Attr>, role: Role)
    requires Has(attrs, role) && role != Xmlns
    ensures Has(DropXmlns(attrs), role)
  {
    DropXmlnsKeeps(attrs);
    var k :| 0 <= k < |attrs| && RoleOf(attrs[k]) == role;
    HasMember(DropXmlns(attrs), role, attrs[k]);
  }

  // A top-level stanza goes out in a namespace, with a non-empty id, no empty
  // from, and a from at all if the encoder has an address; ids and addresses
  // already there are kept, and so are all other attributes but xmlns, in order.
  lemma TopLevelStanza(c: Config, name: Name, attrs: seq<Attr>, id: string)
    requires c.ns != "" && id != "" && IsStanzaEmptySpace(name)
    ensures var out := Fix(c, 0, Start(name, attrs), id);
            && out.name.local == name.local && out.name.space == (if name.space == "" then c.ns else name.space)
            && Has(out.attrs, Id) && (c.from != "" ==> Has(out.attrs, From)) && Filled(out.attrs)
            && !Has(out.attrs, Xmlns) && Others(out.attrs) == Others(attrs)
            && (forall a | a in attrs && a.value != "" && RoleOf(a) != Xmlns :: a in out.attrs)
  {
    DropEmptyKeeps(attrs);
    var kept := DropEmpty(attrs);
    FillInKeeps(kept, c.from, id);
    var full := FillIn(kept, c.from, id);
    DropXmlnsKeeps(full);
    HasAfterDrop(full, Id);
    if c.from != "" { HasAfterDrop(full, From); }
  }

  // Anything else, below the top or not a stanza, keeps its name and all its
  // attributes; xmlns goes only if the name carries the namespace.
  lemma OtherElements(c: Config, depth: int, t: Token, id: string)
    requires t.Start? && !(depth == 0 && IsStanzaEmptySpace(t.name))
    ensures var out := Fix(c, depth, t, id);
            && out.name == t.name
            && (t.name.space == "" ==> out == t)
            && (t.name.space != "" ==> out.attrs == DropXmlns(t.attrs) && !Has(out.attrs, Xmlns))
            && Others(out.attrs) == Others(t.attrs)
            && (forall a: Attr | RoleOf(a) != Xmlns :: a in out.attrs <==> a in t.attrs)
  {
    DropXmlnsKeeps(t.attrs);
  }

  // ----- Token by token -----

  // Every token goes out as one of its kind: text as it is, elements under their
  // local names.
  predicate SameKind(t: Token, out: Token) {
    match t
    case Text(data) => out == Text(data)
    case Start(name, _) => out.Start? && out.name.local == name.local
    case End(name) => out.End? && out.name.local == name.local
  }

  lemma {:induction false} FixAllKeepsKinds(c: Config, depth: int, ts: seq<Token>, ids: nat -> string)
    ensures forall i | 0 <= i < |ts| :: SameKind(ts[i], FixAll(c, depth, ts, ids)[i])
    decreases |ts|
  {
    if ts != [] {
      var rest := (i: nat) => ids(i + 1);
      FixAllKeepsKinds(c, DepthAfter(depth, ts[0]), ts[1..], rest);
      var out := FixAll(c, depth, ts, ids);
      assert out[1..] == FixAll(c, DepthAfter(depth, ts[0]), ts[1..], rest);
      forall i | 0 <= i < |ts| ensures SameKind(ts[i], out[i]) {
        if i > 0 { assert out[i] == out[1..][i - 1] && ts[i] == ts[1..][i - 1]; }
      }
    }
  }

  // Elements open behind the first i tokens.
  function OpenAt(ts: seq<Token>, i: nat): int
    requires i <= |ts|
  {
    if i == 0 then 0 else OpenAt(ts, i - 1) + (if ts[i - 1].Start? then 1 else if ts[i - 1].End? then -1 else 0)
  }

  lemma {:induction false} OpenAtLater(ts: seq<Token>, i: nat)
    requires 1 <= i <= |ts|
    ensures OpenAt(ts, i) == DepthAfter(0, ts[0]) + OpenAt(ts[1..], i - 1)
    decreases i
  {
    if i > 1 { OpenAtLater(ts, i - 1); }
  }

  // The i-th token goes out as it does at its own depth, with its own id.
  lemma {:induction false} FixAllAt(c: Config, depth: int, ts: seq<Token>, ids: nat -> string, i: nat)
    requires i < |ts|
    ensures FixAll(c, depth, ts, ids)[i] == Fix(c, depth + OpenAt(ts, i), ts[i], ids(i))
    decreases |ts|
  {
    var out := FixAll(c, depth, ts, ids);
    if i > 0 {
      var rest := (j: nat) => ids(j + 1);
      assert out[1..] == FixAll(c, DepthAfter(depth, ts[0]), ts[1..], rest);
      FixAllAt(c, DepthAfter(depth, ts[0]), ts[1..], rest, i - 1);
      OpenAtLater(ts, i);
      assert out[i] == out[1..][i - 1];
    }
  }

  // The namespace is only filled in on top-level stanzas without one, and on end
  // tags only of those.
  lemma EndTags(c: Config, depth: int, name: Name, id: string)
    ensures Fix(c, depth, End(name), id).name
            == if depth == 1 && name.space == "" && IsStanzaName(name.local) then Name(c.ns, name.local) else name
  {
  }

  // The attributes of one local name, in order.
  function Named(attrs: seq<Attr>, local: string): seq<Attr> {
    if attrs == [] then [] else (if attrs[0].name.local == local then [attrs[0]] else []) + Named(attrs[1..], local)
  }

  lemma {:induction false} NamedAppend(a: seq<Attr>, b: seq<Attr>, local: string)
    ensures Named(a + b, local) == Named(a, local) + Named(b, local)
  {
    if a == [] {
      assert a + b == b;
    } else {
      NamedAppend(a[1..], b, local);
      assert (a + b)[1..] == a[1..] + b;
      Regroup(if a[0].name.local == local then [a[0]] else [], Named(a[1..], local), Named(b, local));
    }
  }

  lemma {:induction false} NamedFilter(p: Attr -> bool, s: seq<Attr>, local: string)
    ensures Named(Filter(p, s), local) == Filter(p, Named(s, local))
  {
    if s != [] {
      NamedFilter(p, s[1..], local);
      var h := if p(s[0]) then [s[0]] else [];
      NamedAppend(h, Filter(p, s[1..]), local);
      var g := if s[0].name.local == local then [s[0]] else [];
      FilterAppend(p, g, Named(s[1..], local));
      FilterOne(p, s[0]);
      assert Named([s[0]], local) == g by { assert [s[0]][1..] == []; }
    }
  }

  // A value to fill in: the attributes of this name that are not empty, or, if
  // there are none and there is a value, one that has it.
  function FilledIn(attrs: seq<Attr>, local: string, value: string): seq<Attr> {
    var kept := Filter((a: Attr) => a.value != "", Named(attrs, local));
    if kept == [] && value != "" then [Attr(Name("", local), value)] else kept
  }

  lemma {:induction false} FilterSame(p: Attr -> bool, q: Attr -> bool, s: seq<Attr>)
    requires forall a | a in s :: p(a) == q(a)
    ensures Filter(p, s) == Filter(q, s)
  {
    if s != [] { FilterSame(p, q, s[1..]); }
  }

  lemma {:induction false} NamedMembers(s: seq<Attr>, local: string)
    ensures forall a | a in Named(s, local) :: a.name.local == local
    ensures Named(s, local) == [] <==> forall i | 0 <= i < |s| :: s[i].name.local != local
  {
    if s != [] {
      NamedMembers(s[1..], local);
      assert forall i | 0 < i < |s| :: s[i] == s[1..][i - 1];
      assert forall i | 0 <= i < |s| - 1 :: s[1..][i] == s[i + 1];
    }
  }

  lemma HasNamed(s: seq<Attr>)
    ensures Has(s, Id) <==> Named(s, "id") != []
    ensures Has(s, From) <==> Named(s, "from") != []
  {
    NamedMembers(s, "id");
    NamedMembers(s, "from");
  }

  lemma DropsNamed(attrs: seq<Attr>, local: string)
    requires local == "id" || local == "from"
    ensures Named(DropEmpty(attrs), local) == Filter((a: Attr) => a.value != "", Named(attrs, local))
    ensures Named(DropXmlns(attrs), local) == Named(attrs, local)
  {
    NamedFilter(NotEmpty, attrs, local);
    NamedFilter(NotXmlns, attrs, local);
    NamedMembers(attrs, local);
    FilterSame(NotEmpty, (a: Attr) => a.value != "", Named(attrs, local));
    FilterAll(NotXmlns, Named(attrs, local));
  }

  lemma NamedOne(a: Attr, local: string)
    ensures Named([a], local) == if a.name.local == local then [a] else []
  {
    assert [a][1..] == [];
  }

  lemma NamedNone(local: string)
    ensures Named([], local) == []
  {
  }

  lemma AddedNamed(a: seq<Attr>, b: seq<Attr>, c: seq<Attr>, local: string)
    ensures Named(a + b + c, local) == Named(a, local) + Named(b, local) + Named(c, local)
  {
    NamedAppend(a + b, c, local);
    NamedAppend(a, b, local);
  }

  // The attributes of one local name among those kept and those filled in.
  lemma FillInNamed(kept: seq<Attr>, from: string, id: string)
    ensures Named(FillIn(kept, from, id), "id")
            == Named(kept, "id") + if !Has(kept, Id) then [Attr(Name("", "id"), id)] else []
    ensures Named(FillIn(kept, from, id), "from")
            == Named(kept, "from") + if from != "" && !Has(kept, From) then [Attr(Name("", "from"), from)] else []
  {
    hide Named, Has;
    var f, i := Attr(Name("", "from"), from), Attr(Name("", "id"), id);
    var fs := if from != "" && !Has(kept, From) then [f] else [];
    var ids := if !Has(kept, Id) then [i] else [];
    assert FillIn(kept, from, id) == kept + fs + ids;
    NamedOne(f, "id");
    NamedOne(f, "from");
    NamedOne(i, "id");
    NamedOne(i, "from");
    NamedNone("id");
    NamedNone("from");
    AddedNamed(kept, fs, ids, "id");
    AddedNamed(kept, fs, ids, "from");
  }

  // The id and the from of a top-level stanza: what it had, if that is not empty,
  // and otherwise exactly what is to be filled in.
  lemma StanzaIdAndFrom(c: Config, name: Name, attrs: seq<Attr>, id: string)
    requires c.ns != "" && id != "" && IsStanzaEmptySpace(name)
    ensures var out := Fix(c, 0, Start(name, attrs), id).attrs;
            Named(out, "id") == FilledIn(attrs, "id", id) && Named(out, "from") == FilledIn(attrs, "from", c.from)
  {
    hide Named, Filter, FillIn, DropXmlns, DropEmpty, Has;
    var kept := DropEmpty(attrs);
    FillInNamed(kept, c.from, id);
    HasNamed(kept);
    DropsNamed(attrs, "id");
    DropsNamed(attrs, "from");
    DropsNamed(FillIn(kept, c.from, id), "id");
    DropsNamed(FillIn(kept, c.from, id), "from");
  }

  // ----- Encoding what has been encoded -----

  lemma NothingToDrop(attrs: seq<Attr>)
    ensures Filled(attrs) ==> DropEmpty(attrs) == attrs
    ensures !Has(attrs, Xmlns) ==> DropXmlns(attrs) == attrs
  {
    if Filled(attrs) { FilterAll(NotEmpty, attrs); }
    if !Has(attrs, Xmlns) { FilterAll(NotXmlns, attrs); }
  }

  // A second encoder leaves everything as the first one made it.
  lemma FixIsIdempotent(c: Config, depth: int, t: Token, id: string, id2: string)
    requires c.ns == NS_CLIENT || c.ns == NS_SERVER
    requires id != ""
    ensures Fix(c, depth, Fix(c, depth, t, id), id2) == Fix(c, depth, t, id)
  {
    hide RoleOf, DropXmlns, DropEmpty, Others, NotEmpty, NotXmlns;
    assert c.ns != "" by { assert |NS_CLIENT| > 0 && |NS_SERVER| > 0; }
    if t.Start? {
      var out := Fix(c, depth, t, id);
      if depth == 0 && IsStanzaEmptySpace(t.name) {
        TopLevelStanza(c, t.name, t.attrs, id);
        assert FillIn(out.attrs, c.from, id2) == out.attrs;
      } else {
        OtherElements(c, depth, t, id);
      }
      NothingToDrop(out.attrs);
    }
  }
}
