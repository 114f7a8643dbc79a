// Which handler a payload goes to, and the children of a stanza.
module MuxModel {
  import opened Wrappers
  import opened Xml

  // ----- Pattern lookup -----

  datatype Pattern = Pattern(payload: Name, kind: string)

  // A pattern leaves out what it does not care about.
  predicate Matches(p: Pattern, kind: string, payload: Name) {
    && p.kind == kind
    && (p.payload.space == payload.space || p.payload.space == "")
    && (p.payload.local == payload.local || p.payload.local == "")
  }

  // How specific a matching pattern is: a full name first, then any namespace,
  // then any local name, then any name.
  function Rank(p: Pattern, payload: Name): nat {
    if p.payload == payload then 0
    else if p.payload.local == payload.local && p.payload.space == "" then 1
    else if p.payload.space == payload.space && p.payload.local == "" then 2
    else 3
  }

  function Candidates(kind: string, payload: Name): seq<Pattern> {
    [Pattern(payload, kind), Pattern(Name("", payload.local), kind), Pattern(Name(payload.space, ""), kind),
      Pattern(Name("", ""), kind)]
  }

  // MessageHandler, PresenceHandler and IQHandler, short of the fallback.
  function Lookup(registered: set<Pattern>, kind: string, payload: Name): Option<Pattern> {
    var c := Candidates(kind, payload);
    if c[0] in registered then Some(c[0])
    else if c[1] in registered then Some(c[1])
    else if c[2] in registered then Some(c[2])
    else if c[3] in registered then Some(c[3])
    else None
  }

  // The lookup finds a registered pattern that matches, none more specific is
  // registered, and it finds nothing only if no registered pattern matches.
  lemma LookupIsMostSpecific(registered: set<Pattern>, kind: string, payload: Name)
    ensures match Lookup(registered, kind, payload)
            case Some(p) =>
              && p in registered && Matches(p, kind, payload)
              && (forall q | q in registered && Matches(q, kind, payload) :: Rank(p, payload) <= Rank(q, payload))
            case None => forall q | q in registered :: !Matches(q, kind, payload)
  {
    forall q | q in registered && Matches(q, kind, payload)
      ensures q in Candidates(kind, payload) && Rank(q, payload) <= 3
      ensures Candidates(kind, payload)[Rank(q, payload)] == q
    {
    }
  }

  // The order that the type's documentation gives: wildcard local names go before
  // wildcard namespaces.
  function DocumentedLookup(registered: set<Pattern>, kind: string, payload: Name): Option<Pattern> {
    var c := Candidates(kind, payload);
    if c[0] in registered then Some(c[0])
    else if c[2] in registered then Some(c[2])
    else if c[1] in registered then Some(c[1])
    else if c[3] in registered then Some(c[3])
    else None
  }

  // The code has it the other way round: the two differ exactly if both
  // wildcards are registered and the full name is not.
  lemma LookupIsAsDocumented(registered: set<Pattern>, kind: string, payload: Name)
    ensures Lookup(registered, kind, payload) == DocumentedLookup(registered, kind, payload)
            <==> !(Pattern(payload, kind) !in registered
                   && Pattern(Name("", payload.local), kind) in registered
                   && Pattern(Name(payload.space, ""), kind) in registered)
  {
    var space, local := Name("", payload.local), Name(payload.space, "");
    assert space == local ==> space == payload;
  }

  // So they do for a payload with a namespace and a local name.
  lemma WildcardsAreSwapped(kind: string, payload: Name)
    requires payload.space != "" && payload.local != ""
    ensures var anySpace, anyLocal := Pattern(Name("", payload.local), kind), Pattern(Name(payload.space, ""), kind);
            && Lookup({anySpace, anyLocal}, kind, payload) == Some(anySpace)
            && DocumentedLookup({anySpace, anyLocal}, kind, payload) == Some(anyLocal)
            && anySpace != anyLocal
  {
    var anySpace := Pattern(Name("", payload.local), kind);
    assert anySpace.payload.space != payload.space;
  }

  // ----- Children -----

  // Names of the child elements from position i on, jumping over each child.
  function ChildrenFrom(s: seq<Token>, i: nat): seq<Name>
    requires i <= |s|
    decreases |s| - i
  {
    if i == |s| || s[i].End? then []
    else if s[i].Text? then ChildrenFrom(s, i + 1)
    else [s[i].name] + ChildrenFrom(s, Behind(s, i + 1, 1))
  }

  function Children(s: seq<Token>): seq<Name>
    requires |s| >= 1
  {
    ChildrenFrom(s, 1)
  }

  // Names of the start tokens at depth one, token by token.
  function AtDepthOne(s: seq<Token>, i: nat, d: nat): seq<Name>
    requires i <= |s|
    decreases |s| - i
  {
    if i == |s| || d == 0 then []
    else match s[i]
      case Start(name, _) => (if d == 1 then [name] else []) + AtDepthOne(s, i + 1, d + 1)
      case End(_) => AtDepthOne(s, i + 1, d - 1)
      case Text(_) => AtDepthOne(s, i + 1, d)
  }

  lemma {:induction false} InsideChild(s: seq<Token>, i: nat, d: nat)
    requires i <= |s| && d >= 1
    ensures AtDepthOne(s, i, d + 1) == if Closes(s, i, d) then AtDepthOne(s, Behind(s, i, d), 1) else []
    decreases |s| - i
  {
    if i < |s| {
      match s[i]
      case Start(_, _) => InsideChild(s, i + 1, d + 1);
      case End(_) => if d > 1 { InsideChild(s, i + 1, d - 1); }
      case Text(_) => InsideChild(s, i + 1, d);
    }
  }

  // What closes two levels closes the inner one first.
  lemma {:induction false} ClosesInside(s: seq<Token>, i: nat, d: nat)
    requires i <= |s| && d >= 1 && Closes(s, i, d + 1)
    ensures Closes(s, i, d) && Closes(s, Behind(s, i, d), 1)
    ensures Behind(s, i, d + 1) == Behind(s, Behind(s, i, d), 1)
    decreases |s| - i
  {
    match s[i]
    case Start(_, _) => ClosesInside(s, i + 1, d + 1);
    case End(_) => if d > 1 { ClosesInside(s, i + 1, d - 1); }
    case Text(_) => ClosesInside(s, i + 1, d);
  }

  // The children are the start tokens at depth one.
  lemma {:induction false} ChildrenAtDepthOne(s: seq<Token>, i: nat)
    requires i <= |s| && Closes(s, i, 1)
    ensures ChildrenFrom(s, i) == AtDepthOne(s, i, 1)
    decreases |s| - i
  {
    match s[i]
    case Text(_) => ChildrenAtDepthOne(s, i + 1);
    case End(_) =>
    case Start(_, _) =>
      InsideChild(s, i + 1, 1);
      ClosesInside(s, i + 1, 1);
      ChildrenAtDepthOne(s, Behind(s, i + 1, 1));
  }

  // One step over the inside of an element.
  lemma ChildStep(s: seq<Token>, i: nat)
    requires i <= |s| && Closes(s, i, 1) && Behind(s, i, 1) == |s|
    ensures i < |s|
    ensures match s[i]
            case End(_) => i + 1 == |s| && ChildrenFrom(s, i) == []
            case Text(_) =>
              Closes(s, i + 1, 1) && Behind(s, i + 1, 1) == |s| && ChildrenFrom(s, i) == ChildrenFrom(s, i + 1)
            case Start(name, _) =>
              var j := Behind(s, i + 1, 1);
              && i + 1 < |s| && Closes(s, j, 1) && Behind(s, j, 1) == |s|
              && ChildrenFrom(s, i) == [name] + ChildrenFrom(s, j)
  {
    if s[i].Start? { ClosesInside(s, i + 1, 1); }
  }
}
