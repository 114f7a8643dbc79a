// The text that is hashed for entity capabilities (XEP-0115, section 5.1).
module Caps {
  import opened Wrappers
  import opened Ordering

  datatype Identity = Identity(category: string, typ: string, name: string, lang: string)

  // How a form field reads as one string: by its first value, by its lines, or
  // not at all.
  datatype Kind = Single | Lines | NoString

  datatype Field = Field(name: string, kind: Kind, values: seq<string>)

  type Form = seq<Field>

  const FORM_TYPE := "FORM_TYPE"

  function IdentityKey(i: Identity): seq<string> { [i.category, i.typ, i.lang] }

  function StringKey(s: string): seq<string> { [s] }

  // ----- The canonical text -----

  function InsertString(s: seq<string>, x: string): (r: seq<string>)
    ensures multiset(r) == multiset(s) + multiset{x}
  {
    if s == [] then [x]
    else if KeyLess([x], [s[0]]) then
      [x] + s
    else
      assert s == [s[0]] + s[1..];
      [s[0]] + InsertString(s[1..], x)
  }

  function SortedStrings(s: seq<string>): (r: seq<string>)
    ensures multiset(r) == multiset(s)
  {
    if s == [] then [] else
      assert s == s[..|s| - 1] + [s[|s| - 1]];
      InsertString(SortedStrings(s[..|s| - 1]), s[|s| - 1])
  }

  function RenderIdentity(i: Identity): string { i.category + "/" + i.typ + "/" + i.lang + "/" + i.name + "<" }

  function RenderIdentities(s: seq<Identity>): string {
    if s == [] then [] else RenderIdentities(s[..|s| - 1]) + RenderIdentity(s[|s| - 1])
  }

  function RenderStrings(s: seq<string>): string {
    if s == [] then [] else RenderStrings(s[..|s| - 1]) + s[|s| - 1] + "<"
  }

  function Join(lines: seq<string>): string {
    if lines == [] then "" else if |lines| == 1 then lines[0] else lines[0] + "\n" + Join(lines[1..])
  }

  // The raw values of the first field of this name.
  function Raw(f: Form, name: string): seq<string> {
    if f == [] then [] else if f[0].name == name then f[0].values else Raw(f[1..], name)
  }

  // The value of the first field of this name as one string.
  function GetString(f: Form, name: string): string {
    if f == [] then ""
    else if f[0].name == name then
      match f[0].kind
      case Single => if f[0].values == [] then "" else f[0].values[0]
      case Lines => Join(f[0].values)
      case NoString => ""
    else GetString(f[1..], name)
  }

  // The type of a form, if it has a type field.
  function FormType(f: Form): string { GetString(f, FORM_TYPE) }

  function Names(f: Form): seq<string> {
    if f == [] then []
    else
      var last := f[|f| - 1];
      Names(f[..|f| - 1]) + if last.name == FORM_TYPE then [] else [last.name]
  }

  function RenderFields(f: Form, names: seq<string>): string {
    if names == [] then []
    else
      var last := names[|names| - 1];
      RenderFields(f, names[..|names| - 1]) + last + "<" + RenderStrings(SortedStrings(Raw(f, last)))
  }

  function RenderForm(f: Form): string { FormType(f) + "<" + RenderFields(f, SortedStrings(Names(f))) }

  function RenderForms(fs: seq<Form>): string {
    if fs == [] then [] else RenderForms(fs[..|fs| - 1]) + RenderForm(fs[|fs| - 1])
  }

  // The text for identities already in order.
  function Text(ids: seq<Identity>, features: seq<string>, forms: seq<Form>): string {
    RenderIdentities(ids) + RenderStrings(SortedStrings(features)) + RenderForms(forms)
  }

  // ----- Sorting strings has one outcome -----

  lemma ConsSorted(h: string, t: seq<string>)
    requires Sorted(StringKey, t) && forall j | 0 <= j < |t| :: !KeyLess([t[j]], [h])
    ensures Sorted(StringKey, [h] + t)
  {
    hide KeyLess;
    var r := [h] + t;
    forall i, j | 0 <= i < j < |r| ensures !KeyLess(StringKey(r[j]), StringKey(r[i])) {
      assert r[j] == t[j - 1];
      if i > 0 {
        assert r[i] == t[i - 1];
        assert !KeyLess(StringKey(t[j - 1]), StringKey(t[i - 1]));
      }
    }
  }

  lemma {:induction false} InsertStringSorted(s: seq<string>, x: string)
    requires Sorted(StringKey, s)
    ensures Sorted(StringKey, InsertString(s, x))
  {
    hide KeyLess;
    if s == [] {
    } else if KeyLess([x], [s[0]]) {
      forall j | 0 <= j < |s| ensures !KeyLess([s[j]], [x]) {
        assert j > 0 ==> !KeyLess(StringKey(s[j]), StringKey(s[0]));
        KeyTotal([s[j]], [s[0]]);
        if KeyLess([s[j]], [x]) { KeyTransitive([s[j]], [x], [s[0]]); }
      }
      ConsSorted(x, s);
    } else {
      var rest := InsertString(s[1..], x);
      InsertStringSorted(s[1..], x);
      forall j | 0 <= j < |rest| ensures !KeyLess([rest[j]], [s[0]]) {
        assert rest[j] in multiset(rest);
        if rest[j] != x {
          assert rest[j] in multiset(s[1..]);
          var k :| 0 <= k < |s[1..]| && s[1..][k] == rest[j];
          assert !KeyLess(StringKey(s[k + 1]), StringKey(s[0]));
        }
      }
      ConsSorted(s[0], rest);
    }
  }

  lemma {:induction false} SortedStringsSorted(s: seq<string>)
    ensures Sorted(StringKey, SortedStrings(s))
  {
    if s != [] {
      SortedStringsSorted(s[..|s| - 1]);
      InsertStringSorted(SortedStrings(s[..|s| - 1]), s[|s| - 1]);
    }
  }

  lemma SortsTo(s: seq<string>, r: seq<string>)
    requires Sorted(StringKey, r) && multiset(r) == multiset(s)
    ensures r == SortedStrings(s)
  {
    SortedStringsSorted(s);
    forall i, j | 0 <= i < |r| && 0 <= j < |r| && StringKey(r[i]) == StringKey(r[j]) ensures r[i] == r[j] {
      assert StringKey(r[i])[0] == StringKey(r[j])[0];
    }
    SortedOnce(StringKey, r, SortedStrings(s));
  }

  lemma SortingForgetsOrder(s: seq<string>, t: seq<string>)
    requires multiset(s) == multiset(t)
    ensures SortedStrings(s) == SortedStrings(t)
  {
    SortedStringsSorted(s);
    SortsTo(t, SortedStrings(s));
  }

  // ----- Independence of order -----

  predicate DistinctNames(f: Form) { forall i, j | 0 <= i < j < |f| :: f[i].name != f[j].name }

  function Norm(x: Field): Field { x.(values := SortedStrings(x.values)) }

  function NormSet(f: Form): set<Field> { set i | 0 <= i < |f| :: Norm(f[i]) }

  // The same fields with the same values, each in any order. A type field has
  // at most one value.
  predicate SameForm(f: Form, g: Form) {
    && DistinctNames(f) && DistinctNames(g) && NormSet(f) == NormSet(g)
    && (forall i | 0 <= i < |f| && f[i].name == FORM_TYPE :: |f[i].values| <= 1)
    && (forall i | 0 <= i < |g| && g[i].name == FORM_TYPE :: |g[i].values| <= 1)
  }

  lemma {:induction false} RawOf(f: Form, i: nat)
    requires DistinctNames(f) && i < |f|
    ensures Raw(f, f[i].name) == f[i].values
    ensures GetString(f, f[i].name) == GetString([f[i]], f[i].name)
  {
    if i > 0 {
      assert f[0].name != f[i].name;
      RawOf(f[1..], i - 1);
    }
  }

  predicate HasField(f: Form, name: string) { exists i | 0 <= i < |f| :: f[i].name == name }

  lemma HasFieldLast(f: Form, name: string)
    requires f != []
    ensures HasField(f, name) <==> HasField(f[..|f| - 1], name) || f[|f| - 1].name == name
  {
    var front := f[..|f| - 1];
    if HasField(front, name) {
      var i :| 0 <= i < |front| && front[i].name == name;
      assert f[i].name == name;
    }
    if HasField(f, name) {
      var i :| 0 <= i < |f| && f[i].name == name;
      if i < |front| { assert front[i].name == name; }
    }
  }

  lemma NoField(name: string)
    ensures !HasField([], name)
  {
  }

  lemma LastIsNew(f: Form)
    requires f != [] && DistinctNames(f)
    ensures !HasField(f[..|f| - 1], f[|f| - 1].name)
  {
  }

  lemma {:induction false} NamesMembers(f: Form, name: string)
    ensures name in Names(f) <==> name != FORM_TYPE && HasField(f, name)
    ensures DistinctNames(f) ==> multiset(Names(f))[name] <= 1
  {
    hide HasField;
    if f == [] {
      NoField(name);
    } else {
      var front, last := f[..|f| - 1], f[|f| - 1];
      NamesMembers(front, name);
      HasFieldLast(f, name);
      if DistinctNames(f) {
        assert DistinctNames(front);
        LastIsNew(f);
      }
      assert name in multiset(Names(front)) <==> name in Names(front);
    }
  }

  // The field of f that corresponds to the i-th field of g.
  lemma Counterpart(f: Form, g: Form, i: nat) returns (j: nat)
    requires SameForm(f, g) && i < |g|
    ensures j < |f| && f[j].name == g[i].name && f[j].kind == g[i].kind
    ensures SortedStrings(f[j].values) == SortedStrings(g[i].values)
  {
    assert Norm(g[i]) in NormSet(g);
    j :| 0 <= j < |f| && Norm(f[j]) == Norm(g[i]);
  }

  lemma {:induction false} SameNames(f: Form, g: Form)
    requires SameForm(f, g)
    ensures multiset(Names(f)) == multiset(Names(g))
  {
    forall name ensures multiset(Names(f))[name] == multiset(Names(g))[name] {
      NamesMembers(f, name);
      NamesMembers(g, name);
      if name in Names(g) {
        var i :| 0 <= i < |g| && g[i].name == name;
        var j := Counterpart(f, g, i);
      }
      if name in Names(f) {
        var i :| 0 <= i < |f| && f[i].name == name;
        var j := Counterpart(g, f, i);
      }
      assert name in Names(f) <==> name in multiset(Names(f));
      assert name in Names(g) <==> name in multiset(Names(g));
    }
  }

  lemma OneValue(a: seq<string>, b: seq<string>)
    requires SortedStrings(a) == SortedStrings(b) && |a| <= 1 && |b| <= 1
    ensures a == b
  {
    assert |multiset(a)| == |a| && |multiset(b)| == |b| && multiset(a) == multiset(b);
    if |a| == 1 { assert a[0] in multiset(b); }
  }

  lemma {:induction false} RawAbsent(f: Form, name: string)
    requires forall i | 0 <= i < |f| :: f[i].name != name
    ensures Raw(f, name) == [] && GetString(f, name) == ""
  {
    if f != [] { RawAbsent(f[1..], name); }
  }

  lemma SameRaw(f: Form, g: Form, name: string)
    requires SameForm(f, g)
    ensures SortedStrings(Raw(f, name)) == SortedStrings(Raw(g, name))
    ensures name == FORM_TYPE ==> GetString(f, name) == GetString(g, name)
  {
    if i :| 0 <= i < |g| && g[i].name == name {
      var j := Counterpart(f, g, i);
      RawOf(f, j);
      RawOf(g, i);
      if name == FORM_TYPE { OneValue(f[j].values, g[i].values); }
    } else {
      forall j | 0 <= j < |f| ensures f[j].name != name {
        var i := Counterpart(g, f, j);
      }
      RawAbsent(f, name);
      RawAbsent(g, name);
    }
  }

  lemma {:induction false} SameFields(f: Form, g: Form, names: seq<string>)
    requires SameForm(f, g)
    ensures RenderFields(f, names) == RenderFields(g, names)
  {
    hide SameForm;
    if names != [] {
      SameFields(f, g, names[..|names| - 1]);
      SameRaw(f, g, names[|names| - 1]);
    }
  }

  lemma SameFormText(f: Form, g: Form)
    requires SameForm(f, g)
    ensures RenderForm(f) == RenderForm(g)
  {
    SameNames(f, g);
    SortingForgetsOrder(Names(f), Names(g));
    SameRaw(f, g, FORM_TYPE);
    SameFields(f, g, SortedStrings(Names(f)));
  }

  lemma {:induction false} SameFormsText(fs: seq<Form>, gs: seq<Form>)
    requires |fs| == |gs| && forall k | 0 <= k < |fs| :: SameForm(fs[k], gs[k])
    ensures RenderForms(fs) == RenderForms(gs)
  {
    if fs != [] {
      var last := |fs| - 1;
      SameFormsText(fs[..last], gs[..last]);
      SameFormText(fs[last], gs[last]);
    }
  }

  // The text is the same for every order of identities, features, form fields
  // and field values. Identities are told apart by category, type and language;
  // the order of the forms is part of the text.
  lemma TextIgnoresOrder(ids: seq<Identity>, sorted: seq<Identity>, features: seq<string>, forms: seq<Form>,
                         ids2: seq<Identity>, sorted2: seq<Identity>, features2: seq<string>, forms2: seq<Form>)
    requires multiset(ids) == multiset(ids2) && Determined(IdentityKey, sorted)
    requires Sorted(IdentityKey, sorted) && multiset(sorted) == multiset(ids)
    requires Sorted(IdentityKey, sorted2) && multiset(sorted2) == multiset(ids2)
    requires multiset(features) == multiset(features2)
    requires |forms| == |forms2| && forall k | 0 <= k < |forms| :: SameForm(forms[k], forms2[k])
    ensures Text(sorted, features, forms) == Text(sorted2, features2, forms2)
  {
    SortedOnce(IdentityKey, sorted, sorted2);
    SortingForgetsOrder(features, features2);
    SameFormsText(forms, forms2);
  }

  // ----- Where the order shows -----

  lemma {:induction false} RenderIdentitiesAppend(s: seq<Identity>, t: seq<Identity>)
    ensures RenderIdentities(s + t) == RenderIdentities(s) + RenderIdentities(t)
    decreases |t|
  {
    hide RenderIdentity;
    if t == [] {
      assert s + t == s;
    } else {
      var last := |t| - 1;
      RenderIdentitiesAppend(s, t[..last]);
      assert (s + t)[..|s| + last] == s + t[..last];
      Regroup(RenderIdentities(s), RenderIdentities(t[..last]), RenderIdentity(t[last]));
    }
  }

  lemma {:induction false} RenderFormsAppend(s: seq<Form>, t: seq<Form>)
    ensures RenderForms(s + t) == RenderForms(s) + RenderForms(t)
    decreases |t|
  {
    hide RenderForm;
    if t == [] {
      assert s + t == s;
    } else {
      var last := |t| - 1;
      RenderFormsAppend(s, t[..last]);
      assert (s + t)[..|s| + last] == s + t[..last];
      Regroup(RenderForms(s), RenderForms(t[..last]), RenderForm(t[last]));
    }
  }

  lemma CutPrefix(p: string, x: string, y: string)
    requires p + x == p + y
    ensures x == y
  {
    assert (p + x)[|p|..] == x && (p + y)[|p|..] == y;
  }

  // Text up to the first such character can be read back.
  function UpTo(s: string, c: char): string { if s == "" || s[0] == c then "" else [s[0]] + UpTo(s[1..], c) }

  lemma {:induction false} UpToIs(a: string, x: string, c: char)
    requires c !in a
    ensures UpTo(a + ([c] + x), c) == a
  {
    if a != "" {
      assert (a + ([c] + x))[1..] == a[1..] + ([c] + x);
      UpToIs(a[1..], x, c);
    }
  }

  lemma UpToSame(a: string, b: string, x: string, y: string, c: char)
    requires c !in a && c !in b && a + ([c] + x) == b + ([c] + y)
    ensures a == b && x == y
  {
    UpToIs(a, x, c);
    UpToIs(b, y, c);
    CutPrefix(a + [c], x, y) by {
      Regroup(a, [c], x);
      Regroup(b, [c], y);
    }
  }

  // What two identities with one key print, and what follows, tells them apart.
  lemma NamePrints(a: Identity, b: Identity, x: string, y: string)
    requires IdentityKey(a) == IdentityKey(b) && '<' !in a.name && '<' !in b.name
    requires RenderIdentity(a) + x == RenderIdentity(b) + y
    ensures a == b
  {
    assert IdentityKey(a)[0] == IdentityKey(b)[0] && IdentityKey(a)[1] == IdentityKey(b)[1]
      && IdentityKey(a)[2] == IdentityKey(b)[2];
    var p := a.category + "/" + a.typ + "/" + a.lang + "/";
    assert RenderIdentity(a) + x == p + (a.name + ("<" + x));
    assert RenderIdentity(b) + y == p + (b.name + ("<" + y));
    CutPrefix(p, a.name + ("<" + x), b.name + ("<" + y));
    UpToSame(a.name, b.name, x, y, '<');
  }

  lemma RenderHalves(s: seq<Identity>, i: nat)
    requires i <= |s|
    ensures RenderIdentities(s) == RenderIdentities(s[..i]) + RenderIdentities(s[i..])
  {
    hide RenderIdentities;
    RenderIdentitiesAppend(s[..i], s[i..]);
    assert s == s[..i] + s[i..];
  }

  lemma RenderOne(a: Identity)
    ensures RenderIdentities([a]) == RenderIdentity(a)
  {
    hide RenderIdentity;
    assert [a][..0] == [];
  }

  lemma {:induction false} RenderFrom(s: seq<Identity>, i: nat)
    requires i < |s|
    ensures RenderIdentities(s) == RenderIdentities(s[..i]) + (RenderIdentity(s[i]) + RenderIdentities(s[i + 1..]))
  {
    hide RenderIdentity, RenderIdentities;
    var tail := s[i..];
    assert tail == [s[i]] + s[i + 1..];
    RenderIdentitiesAppend([s[i]], s[i + 1..]);
    RenderOne(s[i]);
    RenderHalves(s, i);
  }

  lemma SwapShows(s: seq<Identity>, i: nat, j: nat)
    requires i < j < |s| && IdentityKey(s[i]) == IdentityKey(s[j]) && s[i] != s[j]
    requires '<' !in s[i].name && '<' !in s[j].name
    ensures RenderIdentities(s[i := s[j]][j := s[i]]) != RenderIdentities(s)
  {
    hide RenderIdentity, RenderIdentities;
    var t := s[i := s[j]][j := s[i]];
    var pre := RenderIdentities(s[..i]);
    RenderFrom(s, i);
    RenderFrom(t, i);
    assert t[..i] == s[..i];
    if RenderIdentities(t) == RenderIdentities(s) {
      CutPrefix(pre, RenderIdentity(t[i]) + RenderIdentities(t[i + 1..]),
        RenderIdentity(s[i]) + RenderIdentities(s[i + 1..]));
      NamePrints(s[j], s[i], RenderIdentities(t[i + 1..]), RenderIdentities(s[i + 1..]));
    }
  }

  // All orders that sorting may give these identities print one text.
  ghost predicate OneText(s: seq<Identity>, features: seq<string>, forms: seq<Form>) {
    forall t | Sorted(IdentityKey, t) && multiset(t) == multiset(s) ::
        Text(t, features, forms) == Text(s, features, forms)
  }

  lemma CutSuffix(x: string, y: string, u: string, v: string)
    requires x + u + v == y + u + v
    ensures x == y
  {
    assert |x| == |y|;
    assert (x + u + v)[..|x|] == x && (y + u + v)[..|x|] == y;
  }

  lemma SwapKeepsSorted(s: seq<Identity>, i: nat, j: nat)
    requires i < j < |s| && IdentityKey(s[i]) == IdentityKey(s[j]) && Sorted(IdentityKey, s)
    ensures var t := s[i := s[j]][j := s[i]]; Sorted(IdentityKey, t) && multiset(t) == multiset(s)
  {
    hide KeyLess, IdentityKey;
    var t := s[i := s[j]][j := s[i]];
    assert forall k | 0 <= k < |s| :: IdentityKey(t[k]) == IdentityKey(s[k]);
  }

  // Sorting promises nothing about the order of identities that differ in name
  // alone, and the text shows it: with names free of '<', which ends a name in
  // the text, it is determined exactly if no two identities differ in name alone.
  lemma NamesDoNotOrderIdentities(s: seq<Identity>, features: seq<string>, forms: seq<Form>)
    requires Sorted(IdentityKey, s) && forall i | 0 <= i < |s| :: '<' !in s[i].name
    ensures OneText(s, features, forms) <==> Determined(IdentityKey, s)
  {
    hide KeyLess, RenderIdentities, RenderStrings, RenderForms;
    if Determined(IdentityKey, s) {
      forall t | Sorted(IdentityKey, t) && multiset(t) == multiset(s) ensures t == s { SortedOnce(IdentityKey, s, t); }
    } else {
      var i, j :| 0 <= i < |s| && 0 <= j < |s| && IdentityKey(s[i]) == IdentityKey(s[j]) && s[i] != s[j];
      var a, b := if i < j then i else j, if i < j then j else i;
      var t := s[a := s[b]][b := s[a]];
      SwapShows(s, a, b);
      SwapKeepsSorted(s, a, b);
      if Text(t, features, forms) == Text(s, features, forms) {
        CutSuffix(RenderIdentities(t), RenderIdentities(s), RenderStrings(SortedStrings(features)), RenderForms(forms));
      }
    }
  }

  lemma FormPrints(common: seq<Form>, f: Form, rest: seq<Form>)
    ensures RenderForms(common + [f] + rest) == RenderForms(common) + (RenderForm(f) + RenderForms(rest))
  {
    hide RenderForm;
    Regroup(common, [f], rest);
    RenderFormsAppend(common, [f] + rest);
    RenderFormsAppend([f], rest);
    assert [f][..0] == [];
    assert RenderForms([f]) == RenderForm(f);
  }

  lemma TypeFirst(t: string, fields: string, x: string)
    ensures t + "<" + fields + x == t + ("<" + (fields + x))
  {
  }

  lemma TypePrints(f: Form, g: Form, x: string, y: string)
    requires '<' !in FormType(f) && '<' !in FormType(g) && RenderForm(f) + x == RenderForm(g) + y
    ensures FormType(f) == FormType(g)
  {
    hide FormType, RenderFields;
    var u, v := RenderFields(f, SortedStrings(Names(f))) + x, RenderFields(g, SortedStrings(Names(g))) + y;
    TypeFirst(FormType(f), RenderFields(f, SortedStrings(Names(f))), x);
    TypeFirst(FormType(g), RenderFields(g, SortedStrings(Names(g))), y);
    UpToSame(FormType(f), FormType(g), u, v, '<');
  }

  // The forms are printed as they come: lists of forms that differ first in the
  // types of two forms, free of '<', have different texts.
  lemma FormsAreInOrder(ids: seq<Identity>, features: seq<string>, common: seq<Form>, f: Form, rest: seq<Form>, g: Form,
                        rest2: seq<Form>)
    requires FormType(f) != FormType(g) && '<' !in FormType(f) && '<' !in FormType(g)
    ensures Text(ids, features, common + [f] + rest) != Text(ids, features, common + [g] + rest2)
  {
    hide RenderIdentities, RenderStrings, RenderForms, FormType;
    if Text(ids, features, common + [f] + rest) == Text(ids, features, common + [g] + rest2) {
      var p := RenderIdentities(ids) + RenderStrings(SortedStrings(features));
      CutPrefix(p, RenderForms(common + [f] + rest), RenderForms(common + [g] + rest2));
      FormPrints(common, f, rest);
      FormPrints(common, g, rest2);
      var c := RenderForms(common);
      CutPrefix(c, RenderForm(f) + RenderForms(rest), RenderForm(g) + RenderForms(rest2));
      TypePrints(f, g, RenderForms(rest), RenderForms(rest2));
    }
  }

  predicate Reordered(s: seq<Form>, t: seq<Form>) { multiset(t) == multiset(s) }

  ghost predicate OneTextForForms(ids: seq<Identity>, features: seq<string>, s: seq<Form>) {
    forall t | Reordered(s, t) :: Text(ids, features, t) == Text(ids, features, s)
  }

  lemma FewHaveOneOrder(s: seq<Form>, t: seq<Form>)
    requires |s| <= 1 && Reordered(s, t)
    ensures t == s
  {
    assert |multiset(t)| == |t| && |multiset(s)| == |s|;
    if |s| == 1 { assert t[0] in multiset(s); }
  }

  lemma FirstTwoSwapped(f: Form, g: Form, rest: seq<Form>)
    ensures Reordered([f] + ([g] + rest), [g] + ([f] + rest))
  {
  }

  // So forms of pairwise different types have one text in all orders only if there
  // is at most one.
  lemma FormsHaveManyTexts(ids: seq<Identity>, features: seq<string>, s: seq<Form>)
    requires forall i | 0 <= i < |s| :: '<' !in FormType(s[i])
    requires forall i, j | 0 <= i < j < |s| :: FormType(s[i]) != FormType(s[j])
    ensures OneTextForForms(ids, features, s) <==> |s| <= 1
  {
    hide Text, FormType, Reordered;
    if |s| <= 1 {
      forall t | Reordered(s, t) ensures t == s { FewHaveOneOrder(s, t); }
    } else {
      var f, g, rest := s[0], s[1], s[2..];
      var t := [g] + ([f] + rest);
      assert s == [f] + ([g] + rest);
      FirstTwoSwapped(f, g, rest);
      FormsAreInOrder(ids, features, [], g, [f] + rest, f, [g] + rest);
      assert [] + [g] + ([f] + rest) == t && [] + [f] + ([g] + rest) == s;
    }
  }

  // ----- What the text tells apart -----

  // The words of the text: each is followed by '<'.
  function IdentityWord(i: Identity): string { i.category + "/" + i.typ + "/" + i.lang + "/" + i.name }

  function IdentityWords(s: seq<Identity>): seq<string> {
    if s == [] then [] else IdentityWords(s[..|s| - 1]) + [IdentityWord(s[|s| - 1])]
  }

  function FieldWords(f: Form, names: seq<string>): seq<string> {
    if names == [] then []
    else
      var last := |names| - 1;
      FieldWords(f, names[..last]) + ([names[last]] + SortedStrings(Raw(f, names[last])))
  }

  function FormWords(f: Form): seq<string> { [FormType(f)] + FieldWords(f, SortedStrings(Names(f))) }

  function FormsWords(fs: seq<Form>): seq<string> {
    if fs == [] then [] else FormsWords(fs[..|fs| - 1]) + FormWords(fs[|fs| - 1])
  }

  function Words(ids: seq<Identity>, features: seq<string>, forms: seq<Form>): seq<string> {
    IdentityWords(ids) + SortedStrings(features) + FormsWords(forms)
  }

  lemma {:induction false} RenderStringsAppend(s: seq<string>, t: seq<string>)
    ensures RenderStrings(s + t) == RenderStrings(s) + RenderStrings(t)
    decreases |t|
  {
    if t == [] {
      assert s + t == s;
    } else {
      var last := |t| - 1;
      RenderStringsAppend(s, t[..last]);
      assert (s + t)[..|s| + last] == s + t[..last];
      Regroup(RenderStrings(s), RenderStrings(t[..last]), t[last] + "<");
      Regroup(RenderStrings(s) + RenderStrings(t[..last]), t[last], "<");
      Regroup(RenderStrings(t[..last]), t[last], "<");
    }
  }

  lemma RenderWord(w: string)
    ensures RenderStrings([w]) == w + "<"
  {
    assert [w][..0] == [];
  }

  lemma {:induction false} IdentityWordsPrint(s: seq<Identity>)
    ensures RenderIdentities(s) == RenderStrings(IdentityWords(s))
  {
    if s != [] {
      var front, w := s[..|s| - 1], IdentityWord(s[|s| - 1]);
      IdentityWordsPrint(front);
      RenderStringsAppend(IdentityWords(front), [w]);
      RenderWord(w);
    }
  }

  lemma NoWords()
    ensures RenderStrings([]) == ""
  {
  }

  lemma {:induction false} FieldWordsPrint(f: Form, names: seq<string>)
    ensures RenderFields(f, names) == RenderStrings(FieldWords(f, names))
  {
    hide SortedStrings, Raw, RenderStrings;
    if names != [] {
      var last := |names| - 1;
      FieldWordsPrint(f, names[..last]);
      var front, w, values := FieldWords(f, names[..last]), names[last], SortedStrings(Raw(f, names[last]));
      RenderStringsAppend(front, [w] + values);
      RenderStringsAppend([w], values);
      RenderWord(w);
      Regroup(RenderStrings(front), w + "<", RenderStrings(values));
      Regroup(RenderStrings(front), w, "<");
    } else {
      NoWords();
    }
  }

  lemma FormWordsPrint(f: Form)
    ensures RenderForm(f) == RenderStrings(FormWords(f))
  {
    hide SortedStrings, FormType, RenderFields, RenderStrings, FieldWords;
    FieldWordsPrint(f, SortedStrings(Names(f)));
    RenderStringsAppend([FormType(f)], FieldWords(f, SortedStrings(Names(f))));
    RenderWord(FormType(f));
  }

  lemma {:induction false} FormsWordsPrint(fs: seq<Form>)
    ensures RenderForms(fs) == RenderStrings(FormsWords(fs))
  {
    hide RenderForm, FormWords, RenderStrings;
    if fs == [] {
      NoWords();
    } else {
      FormsWordsPrint(fs[..|fs| - 1]);
      FormWordsPrint(fs[|fs| - 1]);
      RenderStringsAppend(FormsWords(fs[..|fs| - 1]), FormWords(fs[|fs| - 1]));
    }
  }

  lemma WordsPrint(ids: seq<Identity>, features: seq<string>, forms: seq<Form>)
    ensures Text(ids, features, forms) == RenderStrings(Words(ids, features, forms))
  {
    hide RenderIdentities, RenderStrings, RenderForms, SortedStrings, IdentityWords, FormsWords;
    IdentityWordsPrint(ids);
    FormsWordsPrint(forms);
    RenderStringsAppend(IdentityWords(ids) + SortedStrings(features), FormsWords(forms));
    RenderStringsAppend(IdentityWords(ids), SortedStrings(features));
  }

  // No word holds the character that ends words.
  predicate Plain(words: seq<string>) { forall i | 0 <= i < |words| :: '<' !in words[i] }

  lemma FirstWord(a: seq<string>)
    requires a != []
    ensures RenderStrings(a) == a[0] + ("<" + RenderStrings(a[1..])) == a[0] + "<" + RenderStrings(a[1..])
  {
    hide RenderStrings;
    assert a == [a[0]] + a[1..];
    RenderStringsAppend([a[0]], a[1..]);
    RenderWord(a[0]);
  }

  // Then the words can be read back from the text.
  lemma {:induction false} WordsAreTold(a: seq<string>, b: seq<string>)
    requires Plain(a) && Plain(b) && RenderStrings(a) == RenderStrings(b)
    ensures a == b
    decreases |a|
  {
    hide RenderStrings;
    NoWords();
    if a != [] { FirstWord(a); }
    if b != [] { FirstWord(b); }
    if a != [] && b != [] {
      UpToSame(a[0], b[0], RenderStrings(a[1..]), RenderStrings(b[1..]), '<');
      CutPrefix(a[0] + "<", RenderStrings(a[1..]), RenderStrings(b[1..]));
      WordsAreTold(a[1..], b[1..]);
      assert a == [a[0]] + a[1..] && b == [b[0]] + b[1..];
    }
  }

  // Two texts are the same exactly if they have the same words: the identities in
  // order, the features sorted, and for each form in order its type and its fields
  // sorted, each with its values sorted.
  lemma TextTellsWords(ids: seq<Identity>, features: seq<string>, forms: seq<Form>,
                       ids2: seq<Identity>, features2: seq<string>, forms2: seq<Form>)
    requires Plain(Words(ids, features, forms)) && Plain(Words(ids2, features2, forms2))
    ensures Text(ids, features, forms) == Text(ids2, features2, forms2)
            <==> Words(ids, features, forms) == Words(ids2, features2, forms2)
  {
    hide Text, Words, Plain;
    WordsPrint(ids, features, forms);
    WordsPrint(ids2, features2, forms2);
    if Text(ids, features, forms) == Text(ids2, features2, forms2) {
      WordsAreTold(Words(ids, features, forms), Words(ids2, features2, forms2));
    }
  }

  lemma PlainSorted(s: seq<string>)
    requires Plain(s)
    ensures Plain(SortedStrings(s))
  {
    hide SortedStrings;
    var t := SortedStrings(s);
    forall i | 0 <= i < |t| ensures '<' !in t[i] {
      assert t[i] in multiset(t) && t[i] in multiset(s);
    }
  }

  lemma Between(p: string, x: string, y: string, q: string)
    requires p + x + q == p + y + q
    ensures x == y
  {
    assert |x| == |y|;
    assert (p + x + q)[|p|..|p| + |x|] == x && (p + y + q)[|p|..|p| + |y|] == y;
  }

  // So the text tells the features, if nothing else differs.
  lemma TextTellsFeatures(ids: seq<Identity>, features: seq<string>, features2: seq<string>, forms: seq<Form>)
    requires Plain(features) && Plain(features2)
    ensures Text(ids, features, forms) == Text(ids, features2, forms) <==> multiset(features) == multiset(features2)
  {
    hide RenderIdentities, RenderStrings, RenderForms, SortedStrings, Plain;
    if multiset(features) == multiset(features2) {
      SortingForgetsOrder(features, features2);
    } else {
      PlainSorted(features);
      PlainSorted(features2);
      if Text(ids, features, forms) == Text(ids, features2, forms) {
        Between(RenderIdentities(ids), RenderStrings(SortedStrings(features)), RenderStrings(SortedStrings(features2)),
                RenderForms(forms));
        WordsAreTold(SortedStrings(features), SortedStrings(features2));
      }
    }
  }

  // Category, type and language hold no '/'.
  predicate Slashless(s: seq<Identity>) {
    forall i | 0 <= i < |s| :: '/' !in s[i].category && '/' !in s[i].typ && '/' !in s[i].lang
  }

  lemma IdentityWordTells(a: Identity, b: Identity)
    requires Slashless([a]) && Slashless([b]) && IdentityWord(a) == IdentityWord(b)
    ensures a == b
  {
    assert [a][0] == a && [b][0] == b;
    assert IdentityWord(a) == a.category + (['/'] + (a.typ + (['/'] + (a.lang + (['/'] + a.name)))));
    assert IdentityWord(b) == b.category + (['/'] + (b.typ + (['/'] + (b.lang + (['/'] + b.name)))));
    UpToSame(a.category, b.category, a.typ + (['/'] + (a.lang + (['/'] + a.name))),
             b.typ + (['/'] + (b.lang + (['/'] + b.name))), '/');
    UpToSame(a.typ, b.typ, a.lang + (['/'] + a.name), b.lang + (['/'] + b.name), '/');
    UpToSame(a.lang, b.lang, a.name, b.name, '/');
  }

  lemma {:induction false} IdentityWordsTell(s: seq<Identity>, t: seq<Identity>)
    requires Slashless(s) && Slashless(t) && IdentityWords(s) == IdentityWords(t)
    ensures s == t
    decreases |s|
  {
    hide IdentityWord;
    if s != [] && t != [] {
      var a, b := s[|s| - 1], t[|t| - 1];
      var u, v := IdentityWords(s), IdentityWords(t);
      assert u[|u| - 1] == IdentityWord(a) && v[|v| - 1] == IdentityWord(b);
      assert u[..|u| - 1] == IdentityWords(s[..|s| - 1]) && v[..|v| - 1] == IdentityWords(t[..|t| - 1]);
      IdentityWordTells(a, b);
      IdentityWordsTell(s[..|s| - 1], t[..|t| - 1]);
      assert s == s[..|s| - 1] + [a] && t == t[..|t| - 1] + [b];
    }
  }

  // The text tells the identities, if nothing else differs.
  lemma TextTellsIdentities(ids: seq<Identity>, ids2: seq<Identity>, features: seq<string>, forms: seq<Form>)
    requires Slashless(ids) && Slashless(ids2) && Plain(IdentityWords(ids)) && Plain(IdentityWords(ids2))
    ensures Text(ids, features, forms) == Text(ids2, features, forms) <==> ids == ids2
  {
    hide RenderIdentities, RenderStrings, RenderForms, SortedStrings, Plain, Slashless, IdentityWords;
    if Text(ids, features, forms) == Text(ids2, features, forms) {
      CutSuffix(RenderIdentities(ids), RenderIdentities(ids2), RenderStrings(SortedStrings(features)),
        RenderForms(forms));
      IdentityWordsPrint(ids);
      IdentityWordsPrint(ids2);
      WordsAreTold(IdentityWords(ids), IdentityWords(ids2));
      IdentityWordsTell(ids, ids2);
    }
  }

  // The fields sorted by name have the same numbers of values.
  predicate SameCounts(f: Form, ns: seq<string>, g: Form, ms: seq<string>) {
    |ns| == |ms| && forall i | 0 <= i < |ns| :: |Raw(f, ns[i])| == |Raw(g, ms[i])|
  }

  lemma FieldWordsStep(f: Form, ns: seq<string>)
    requires ns != []
    ensures var last := |ns| - 1;
            FieldWords(f, ns) == FieldWords(f, ns[..last]) + ([ns[last]] + SortedStrings(Raw(f, ns[last])))
  {
  }

  lemma HeadAndRest(x: string, a: seq<string>, y: string, b: seq<string>)
    requires [x] + a == [y] + b
    ensures x == y && a == b
  {
    assert ([x] + a)[0] == x && ([y] + b)[0] == y && ([x] + a)[1..] == a && ([y] + b)[1..] == b;
  }

  lemma SameLength(s: seq<string>, t: seq<string>)
    requires |s| == |t|
    ensures |SortedStrings(s)| == |SortedStrings(t)|
  {
    hide SortedStrings;
    assert |multiset(SortedStrings(s))| == |SortedStrings(s)| && |multiset(s)| == |s|;
    assert |multiset(SortedStrings(t))| == |SortedStrings(t)| && |multiset(t)| == |t|;
  }

  lemma LastWords(p: seq<string>, q: seq<string>, a: seq<string>, b: seq<string>)
    requires p + a == q + b && |a| == |b|
    ensures p == q && a == b
  {
    assert |p| == |q|;
    assert (p + a)[..|p|] == p && (q + b)[..|q|] == q && (p + a)[|p|..] == a && (q + b)[|q|..] == b;
  }

  lemma {:induction false} FieldWordsTell(f: Form, ns: seq<string>, g: Form, ms: seq<string>)
    requires SameCounts(f, ns, g, ms) && FieldWords(f, ns) == FieldWords(g, ms)
    ensures ns == ms
    ensures forall i | 0 <= i < |ns| :: SortedStrings(Raw(f, ns[i])) == SortedStrings(Raw(g, ns[i]))
    decreases |ns|
  {
    hide SortedStrings, FieldWords, Raw;
    if ns != [] {
      var last := |ns| - 1;
      var a, b := SortedStrings(Raw(f, ns[last])), SortedStrings(Raw(g, ms[last]));
      SameLength(Raw(f, ns[last]), Raw(g, ms[last]));
      FieldWordsStep(f, ns);
      FieldWordsStep(g, ms);
      LastWords(FieldWords(f, ns[..last]), FieldWords(g, ms[..last]), [ns[last]] + a, [ms[last]] + b);
      HeadAndRest(ns[last], a, ms[last], b);
      FieldWordsTell(f, ns[..last], g, ms[..last]);
      assert ns == ns[..last] + [ns[last]] && ms == ms[..last] + [ms[last]];
      forall i | 0 <= i < |ns| ensures SortedStrings(Raw(f, ns[i])) == SortedStrings(Raw(g, ns[i])) {
        if i < last { assert ns[..last][i] == ns[i]; }
      }
    }
  }

  lemma {:induction false} SameValues(f: Form, g: Form, names: seq<string>)
    requires forall i | 0 <= i < |names| :: names[i] in Names(f)
    requires forall name | name in Names(f) :: multiset(Raw(f, name)) == multiset(Raw(g, name))
    ensures RenderFields(f, names) == RenderFields(g, names)
  {
    hide SortedStrings, RenderStrings, Names, Raw;
    if names != [] {
      var last := |names| - 1;
      assert forall i | 0 <= i < last :: names[..last][i] == names[i];
      SameValues(f, g, names[..last]);
      assert names[last] in Names(f);
      SortingForgetsOrder(Raw(f, names[last]), Raw(g, names[last]));
    }
  }

  // The same type, the same field names, and the same values of each.
  ghost predicate SameParts(f: Form, g: Form) {
    && FormType(f) == FormType(g) && multiset(Names(f)) == multiset(Names(g))
    && forall name | name in Names(f) :: multiset(Raw(f, name)) == multiset(Raw(g, name))
  }

  lemma SamePartsPrint(f: Form, g: Form)
    requires SameParts(f, g)
    ensures RenderForm(f) == RenderForm(g)
  {
    hide SortedStrings, RenderStrings, FormType, Raw, RenderFields;
    var ns := SortedStrings(Names(f));
    SortingForgetsOrder(Names(f), Names(g));
    forall i | 0 <= i < |ns| ensures ns[i] in Names(f) {
      assert ns[i] in multiset(ns) && ns[i] in multiset(Names(f));
    }
    SameValues(f, g, ns);
  }

  lemma SamePrintParts(f: Form, g: Form)
    requires Plain(FormWords(f)) && Plain(FormWords(g)) && RenderForm(f) == RenderForm(g)
    requires SameCounts(f, SortedStrings(Names(f)), g, SortedStrings(Names(g)))
    ensures SameParts(f, g)
  {
    hide SortedStrings, RenderStrings, FormType, Plain, Raw, Names, RenderForm, FieldWords, SameCounts;
    var ns, ms := SortedStrings(Names(f)), SortedStrings(Names(g));
    FormWordsPrint(f);
    FormWordsPrint(g);
    WordsAreTold(FormWords(f), FormWords(g));
    HeadAndRest(FormType(f), FieldWords(f, ns), FormType(g), FieldWords(g, ms));
    FieldWordsTell(f, ns, g, ms);
    forall name | name in Names(f) ensures multiset(Raw(f, name)) == multiset(Raw(g, name)) {
      assert name in multiset(Names(f)) && name in multiset(ns);
      var i :| 0 <= i < |ns| && ns[i] == name;
    }
  }

  lemma SamePartsCounts(f: Form, g: Form)
    requires SameParts(f, g)
    ensures SameCounts(f, SortedStrings(Names(f)), g, SortedStrings(Names(g)))
  {
    hide SortedStrings, FormType, Raw;
    var ns := SortedStrings(Names(f));
    SortingForgetsOrder(Names(f), Names(g));
    forall i | 0 <= i < |ns| ensures |Raw(f, ns[i])| == |Raw(g, ns[i])| {
      assert ns[i] in multiset(ns) && ns[i] in multiset(Names(f));
      assert |multiset(Raw(f, ns[i]))| == |Raw(f, ns[i])| && |multiset(Raw(g, ns[i]))| == |Raw(g, ns[i])|;
    }
  }

  // Two forms have the same type, the same field names and the same values of each
  // exactly if their texts are the same and the fields, sorted by name, have the
  // same numbers of values.
  lemma TextTellsFields(f: Form, g: Form)
    requires Plain(FormWords(f)) && Plain(FormWords(g))
    ensures (&& FormType(f) == FormType(g) && multiset(Names(f)) == multiset(Names(g))
             && forall name | name in Names(f) :: multiset(Raw(f, name)) == multiset(Raw(g, name)))
            <==> RenderForm(f) == RenderForm(g) && SameCounts(f, SortedStrings(Names(f)), g, SortedStrings(Names(g)))
  {
    hide SortedStrings, RenderForm, FormType, Plain, Raw, Names, SameCounts, FormWords;
    if RenderForm(f) == RenderForm(g) && SameCounts(f, SortedStrings(Names(f)), g, SortedStrings(Names(g))) {
      SamePrintParts(f, g);
    }
    if SameParts(f, g) {
      SamePartsPrint(f, g);
      SamePartsCounts(f, g);
    }
  }

  lemma SortTwo()
    ensures SortedStrings([]) == [] && SortedStrings(["a"]) == ["a"] && SortedStrings(["b"]) == ["b"]
    ensures SortedStrings(["a"] + ["b"]) == ["a", "b"]
  {
    assert ["a"][..0] == [] && ["b"][..0] == [] && (["a"] + ["b"])[..1] == ["a"];
    assert !StrLess("b", "a") && "b" != "a";
    assert !KeyLess(["b"], ["a"]);
    assert InsertString([], "b") == ["b"];
    assert InsertString(["a"], "b") == ["a"] + InsertString(["a"][1..], "b");
  }

  lemma OneFieldPrints(x: Field)
    requires x.name == "a" && x.values == ["b"]
    ensures RenderForm([x]) == "<a<b<" && Names([x]) == ["a"]
  {
    hide SortedStrings;
    SortTwo();
    assert [x][..0] == [] && [x][1..] == [];
    assert Names([]) == [] && Names([x]) == ["a"];
    assert |"a"| != |FORM_TYPE|;
    RawAbsent([x], FORM_TYPE);
    RawOf([x], 0);
    RenderWord("b");
    assert ["a"][..0] == [];
    assert RenderFields([x], []) == "";
    assert RenderFields([x], ["a"]) == "a<b<";
  }

  lemma TwoFieldsPrint(x: Field, y: Field)
    requires x.name == "a" && y.name == "b" && x.values == [] && y.values == []
    ensures RenderForm([x, y]) == "<a<b<" && Names([x, y]) == ["a"] + ["b"]
  {
    hide SortedStrings;
    SortTwo();
    var g := [x, y];
    assert g[..1] == [x] && [x][..0] == [] && g[1..] == [y] && [y][1..] == [];
    assert Names([]) == [] && Names([x]) == ["a"] && Names(g) == ["a"] + ["b"];
    assert |"a"| != |FORM_TYPE| && |"b"| != |FORM_TYPE| && "a"[0] != "b"[0];
    RawAbsent(g, FORM_TYPE);
    RawOf(g, 0);
    RawOf(g, 1);
    NoWords();
    assert ["a", "b"][..1] == ["a"] && ["a"][..0] == [];
    assert RenderFields(g, []) == "";
    assert RenderFields(g, ["a"]) == "a<";
    assert RenderFields(g, ["a", "b"]) == "a<b<";
  }

  // The numbers matter: a field "a" with the value "b" prints like two fields "a"
  // and "b" without values.
  lemma NamesPrintLikeValues()
    ensures var f, g := [Field("a", Single, ["b"])], [Field("a", Single, []), Field("b", Single, [])];
            RenderForm(f) == RenderForm(g) && multiset(Names(f)) != multiset(Names(g))
  {
    hide RenderForm, Names;
    OneFieldPrints(Field("a", Single, ["b"]));
    TwoFieldsPrint(Field("a", Single, []), Field("b", Single, []));
    assert |multiset(["a"])| == 1 && |multiset(["a"] + ["b"])| == 2;
  }

  // ----- Types and values -----

  lemma {:induction false} FirstString(f: Form, i: nat, name: string)
    requires i < |f| && f[i].name == name && forall j | 0 <= j < i :: f[j].name != name
    ensures GetString(f, name) == GetString([f[i]], name) && Raw(f, name) == f[i].values
  {
    if i > 0 { FirstString(f[1..], i - 1, name); }
  }

  // The type of a form is its type field read as a string: the first value of a
  // field of a single kind, the lines of one of several lines, and nothing for any
  // other kind or none.
  lemma FormTypeMeans(f: Form, i: nat)
    requires i < |f| && f[i].name == "FORM_TYPE" && forall j | 0 <= j < i :: f[j].name != "FORM_TYPE"
    ensures f[i].kind == Single && f[i].values != [] ==> FormType(f) == f[i].values[0]
    ensures f[i].kind == Lines && |f[i].values| == 1 ==> FormType(f) == f[i].values[0]
    ensures f[i].kind == Lines && |f[i].values| == 2 ==> FormType(f) == f[i].values[0] + "\n" + f[i].values[1]
    ensures f[i].kind == NoString || f[i].values == [] ==> FormType(f) == ""
  {
    FirstString(f, i, "FORM_TYPE");
    if |f[i].values| == 2 {
      assert f[i].values[1..] == [f[i].values[1]];
      assert Join(f[i].values[1..]) == f[i].values[1];
      assert Join(f[i].values) == f[i].values[0] + "\n" + f[i].values[1];
    }
  }

  // ----- Sorting field values in place -----

  // The form with the values of the first field of this name sorted.
  function SortField(f: Form, name: string): Form {
    if f == [] then []
    else if f[0].name == name then [Norm(f[0])] + f[1..]
    else [f[0]] + SortField(f[1..], name)
  }

  function SortFields(f: Form, names: seq<string>): Form {
    if names == [] then f else SortField(SortFields(f, names[..|names| - 1]), names[|names| - 1])
  }

  // What hashing leaves of a form.
  function SortForm(f: Form): Form { SortFields(f, SortedStrings(Names(f))) }

  lemma {:induction false} NamesFront(f: Form)
    requires f != []
    ensures Names(f) == (if f[0].name == FORM_TYPE then [] else [f[0].name]) + Names(f[1..])
    decreases |f|
  {
    if |f| > 1 {
      NamesFront(f[..|f| - 1]);
      assert f[..|f| - 1][1..] == f[1..][..|f[1..]| - 1];
    }
  }

  lemma {:induction false} SortFieldRaw(f: Form, name: string, other: string)
    ensures SortedStrings(Raw(SortField(f, name), other)) == SortedStrings(Raw(f, other))
    decreases |f|
  {
    if f != [] {
      SortFieldRaw(f[1..], name, other);
      SortingForgetsOrder(f[0].values, SortedStrings(f[0].values));
    }
  }

  lemma {:induction false} SortFieldNames(f: Form, name: string)
    ensures name != FORM_TYPE ==> FormType(SortField(f, name)) == FormType(f)
    ensures Names(SortField(f, name)) == Names(f)
    decreases |f|
  {
    if f != [] {
      SortFieldNames(f[1..], name);
      NamesFront(f);
      NamesFront(SortField(f, name));
    }
  }

  // The field at i is the first of its name.
  predicate FirstOfName(f: Form, i: nat)
    requires i < |f|
  {
    forall j | 0 <= j < i :: f[j].name != f[i].name
  }

  lemma FirstOfRest(f: Form, i: nat)
    requires 0 < i < |f|
    ensures FirstOfName(f, i) <==> FirstOfName(f[1..], i - 1) && f[0].name != f[i].name
  {
    assert forall j | 0 < j < i :: f[1..][j - 1] == f[j];
    assert forall j | 0 <= j < i - 1 :: f[1..][j] == f[j + 1];
  }

  lemma NothingBefore(f: Form)
    requires f != []
    ensures FirstOfName(f, 0)
  {
  }

  lemma {:induction false} SortFieldAt(f: Form, name: string, i: nat)
    requires i < |f|
    ensures |SortField(f, name)| == |f|
    ensures SortField(f, name)[i] == if f[i].name == name && FirstOfName(f, i) then Norm(f[i]) else f[i]
    decreases |f|
  {
    hide Norm, FirstOfName;
    if i > 0 {
      FirstOfRest(f, i);
      SortFieldAt(f[1..], name, i - 1);
    } else {
      NothingBefore(f);
      if |f| > 1 { SortFieldAt(f[1..], name, 0); }
    }
  }

  lemma {:induction false} SortFieldsAt(f: Form, names: seq<string>, i: nat)
    requires i < |f|
    ensures |SortFields(f, names)| == |f|
    ensures SortFields(f, names)[i] == if f[i].name in names && FirstOfName(f, i) then Norm(f[i]) else f[i]
    decreases |names|, i
  {
    hide SortedStrings, SortField;
    if names != [] {
      var last := |names| - 1;
      var g := SortFields(f, names[..last]);
      forall j | 0 <= j <= i ensures |g| == |f| && g[j].name == f[j].name {
        SortFieldsAt(f, names[..last], j);
      }
      SortFieldsAt(f, names[..last], i);
      SortFieldAt(g, names[last], i);
      SortingForgetsOrder(f[i].values, SortedStrings(f[i].values));
      assert names == names[..last] + [names[last]];
    }
  }

  // What hashing leaves of a form: of every name but the type's, the first field
  // has its values sorted; everything else is as it was.
  lemma SortFormMeans(f: Form, i: nat)
    requires i < |f|
    ensures |SortForm(f)| == |f|
    ensures var x := SortForm(f)[i];
            && x.name == f[i].name && x.kind == f[i].kind && multiset(x.values) == multiset(f[i].values)
            && (if f[i].name != "FORM_TYPE" && FirstOfName(f, i) then Sorted(StringKey, x.values) else x == f[i])
  {
    hide SortedStrings, SortFields, KeyLess;
    var names := SortedStrings(Names(f));
    SortFieldsAt(f, names, i);
    NamesMembers(f, f[i].name);
    assert f[i].name in names <==> f[i].name in multiset(names);
    assert f[i].name in Names(f) <==> f[i].name in multiset(Names(f));
    SortedStringsSorted(f[i].values);
  }

  // Two forms that print alike.
  ghost predicate PrintAlike(f: Form, g: Form) {
    && Names(f) == Names(g) && FormType(f) == FormType(g)
    && forall name :: SortedStrings(Raw(f, name)) == SortedStrings(Raw(g, name))
  }

  lemma {:induction false} SortFieldsAlike(f: Form, names: seq<string>)
    requires FORM_TYPE !in names
    ensures PrintAlike(SortFields(f, names), f)
  {
    if names != [] {
      var last := |names| - 1;
      SortFieldsAlike(f, names[..last]);
      var g := SortFields(f, names[..last]);
      SortFieldNames(g, names[last]);
      forall other ensures SortedStrings(Raw(SortField(g, names[last]), other)) == SortedStrings(Raw(f, other)) {
        SortFieldRaw(g, names[last], other);
      }
    }
  }

  lemma AlikeAfter(f: Form, names: seq<string>, n: nat)
    requires FORM_TYPE !in names && n < |names|
    ensures SortedStrings(Raw(SortFields(f, names[..n]), names[n])) == SortedStrings(Raw(f, names[n]))
  {
    SortFieldsAlike(f, names[..n]);
  }

  lemma {:induction false} AlikeFields(f: Form, g: Form, names: seq<string>)
    requires PrintAlike(f, g)
    ensures RenderFields(f, names) == RenderFields(g, names)
  {
    if names != [] { AlikeFields(f, g, names[..|names| - 1]); }
  }

  lemma NoTypeAmong(f: Form)
    ensures FORM_TYPE !in SortedStrings(Names(f))
  {
    NamesMembers(f, FORM_TYPE);
    assert FORM_TYPE !in multiset(Names(f));
  }

  // Hashing sorts the values of the caller's fields in place; what is hashed the
  // next time is not changed by that.
  lemma HashingAgainGivesTheSame(f: Form)
    ensures RenderForm(SortForm(f)) == RenderForm(f)
  {
    NoTypeAmong(f);
    SortFieldsAlike(f, SortedStrings(Names(f)));
    AlikeFields(SortForm(f), f, SortedStrings(Names(f)));
  }

  // ----- Hashing -----

  // One of the forms up to the k-th has no fields.
  predicate StopsBy(forms: seq<Form>, k: int)
    requires 0 <= k < |forms|
  {
    [] in forms[..k + 1]
  }

  class Info {
    var identity: seq<Identity>
    var features: seq<string>
    var forms: seq<Form>

    constructor (identity: seq<Identity>, features: seq<string>, forms: seq<Form>)
      ensures this.identity == identity && this.features == features && this.forms == forms
    {
      this.identity, this.features, this.forms := identity, features, forms;
    }

    // The text handed to the hash; None when the call panics, which it does as
    // soon as it meets a form without fields. Sorts the caller's lists.
    method AppendHash() returns (text: Option<string>)
      modifies this
      ensures Sorted(IdentityKey, identity) && multiset(identity) == multiset(old(identity))
      ensures features == SortedStrings(old(features))
      ensures text.None? <==> [] in old(forms)
      ensures text.Some? ==> text.value == Text(identity, old(features), old(forms))
      ensures |forms| == |old(forms)|
      ensures forall k | 0 <= k < |forms| ::
                forms[k] == if StopsBy(old(forms), k) then old(forms)[k] else SortForm(old(forms)[k])
    {
      hide KeyLess, SortForm, RenderForms, RenderIdentities, RenderStrings, SortedStrings, StringKey, IdentityKey;
      identity := Sort(IdentityKey, identity);
      var a := FeedIdentities();
      features := Sort(StringKey, features);
      SortsTo(old(features), features);
      var b := FeedFeatures();
      var c := FeedForms();
      text := if c.None? then None else Some(a + b + c.value);
    }

    method FeedForms() returns (text: Option<string>)
      modifies this`forms
      ensures text.None? <==> [] in old(forms)
      ensures text.Some? ==> text.value == RenderForms(old(forms))
      ensures |forms| == |old(forms)|
      ensures forall k | 0 <= k < |forms| ::
                forms[k] == if StopsBy(old(forms), k) then old(forms)[k] else SortForm(old(forms)[k])
    {
      hide SortForm, RenderForm;
      ghost var was := forms;
      var n, done := 0, "";
      while n < |forms|
        invariant 0 <= n <= |forms| == |was| && [] !in was[..n]
        invariant done == RenderForms(was[..n])
        invariant forall k | 0 <= k < |was| :: forms[k] == if k < n then SortForm(was[k]) else was[k]
      {
        if forms[n] == [] {
          forall k | 0 <= k < |was| ensures StopsBy(was, k) <==> n <= k {
            if n <= k { assert was[..k + 1][n] == []; } else { assert was[..k + 1] == was[..n][..k + 1]; }
          }
          assert was[n] in was;
          return None;
        }
        assert was[..n + 1][..n] == was[..n];
        var part := FeedForm(n);
        done := done + part;
        n := n + 1;
      }
      assert was[..n] == was;
      forall k | 0 <= k < |was| ensures !StopsBy(was, k) {
        assert forall x | x in was[..k + 1] :: x in was;
      }
      text := Some(done);
    }

    method FeedIdentities() returns (text: string)
      ensures text == RenderIdentities(identity)
    {
      var n := 0;
      text := "";
      while n < |identity|
        invariant 0 <= n <= |identity| && text == RenderIdentities(identity[..n])
      {
        assert identity[..n + 1][..n] == identity[..n];
        text := text + RenderIdentity(identity[n]);
        n := n + 1;
      }
      assert identity[..n] == identity;
    }

    method FeedFeatures() returns (text: string)
      ensures text == RenderStrings(features)
    {
      text := FeedStrings(features);
    }

    method FeedStrings(s: seq<string>) returns (text: string)
      ensures text == RenderStrings(s)
    {
      var n := 0;
      text := "";
      while n < |s|
        invariant 0 <= n <= |s| && text == RenderStrings(s[..n])
      {
        assert s[..n + 1][..n] == s[..n];
        text := text + s[n] + "<";
        n := n + 1;
      }
      assert s[..n] == s;
    }

    // Names of the fields of a form other than the type field, and its type.
    method FieldNames(f: Form) returns (names: seq<string>, formType: string)
      ensures names == Names(f) && formType == FormType(f)
    {
      names, formType := [], "";
      var n := 0;
      while n < |f|
        invariant 0 <= n <= |f| && names == Names(f[..n])
        invariant formType == if exists k | 0 <= k < n :: f[k].name == FORM_TYPE then FormType(f) else ""
      {
        assert f[..n + 1][..n] == f[..n];
        if f[n].name == FORM_TYPE {
          formType := GetString(f, FORM_TYPE);
        } else {
          names := names + [f[n].name];
        }
        n := n + 1;
      }
      assert f[..n] == f;
      if forall k | 0 <= k < n :: f[k].name != FORM_TYPE { RawAbsent(f, FORM_TYPE); }
    }

    // One form's part; sorts the values of its fields in place.
    method FeedForm(k: nat) returns (text: string)
      requires k < |forms|
      modifies this`forms
      ensures text == RenderForm(old(forms)[k]) && forms == old(forms)[k := SortForm(old(forms)[k])]
    {
      hide KeyLess, SortedStrings, Raw, SortField, Names, StringKey, PrintAlike, RenderStrings;
      ghost var all, was := forms, forms[k];
      var names, formType := FieldNames(forms[k]);
      NoTypeAmong(was);
      names := Sort(StringKey, names);
      SortsTo(Names(was), names);
      text := "";
      var n := 0;
      while n < |names|
        invariant 0 <= n <= |names| && text == RenderFields(was, names[..n])
        invariant forms == all[k := SortFields(was, names[..n])]
      {
        assert names[..n + 1][..n] == names[..n];
        AlikeAfter(was, names, n);
        var vals := Sort(StringKey, Raw(forms[k], names[n]));
        SortsTo(Raw(forms[k], names[n]), vals);
        forms := forms[k := SortField(forms[k], names[n])];
        var part := FeedStrings(vals);
        text := text + names[n] + "<" + part;
        n := n + 1;
      }
      assert names[..n] == names;
      text := formType + "<" + text;
    }
  }
}
