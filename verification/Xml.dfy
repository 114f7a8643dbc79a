// XML tokens and the shape of token sequences.
module Xml {

  datatype Name = Name(space: string, local: string)

  datatype Attr = Attr(name: Name, value: string)

  datatype Token = Start(name: Name, attrs: seq<Attr>) | End(name: Name) | Text(data: string)

  // Position behind the end token that closes the d-th open element, reading
  // from position i; the length of s if s ends before.
  function Behind(s: seq<Token>, i: nat, d: nat): (j: nat)
    requires i <= |s| && d >= 1
    ensures i <= j <= |s|
    ensures i < |s| ==> i < j
    decreases |s| - i
  {
    if i == |s| then i
    else match s[i]
      case Start(_, _) => Behind(s, i + 1, d + 1)
      case End(_) => if d == 1 then i + 1 else Behind(s, i + 1, d - 1)
      case Text(_) => Behind(s, i + 1, d)
  }

  // Whether those d elements are all closed within s.
  predicate Closes(s: seq<Token>, i: nat, d: nat)
    requires i <= |s| && d >= 1
    decreases |s| - i
  {
    i < |s| &&
    match s[i]
    case Start(_, _) => Closes(s, i + 1, d + 1)
    case End(_) => d == 1 || Closes(s, i + 1, d - 1)
    case Text(_) => Closes(s, i + 1, d)
  }

  // One element, from its start to its end token.
  predicate IsElement(s: seq<Token>) {
    |s| >= 2 && s[0].Start? && Closes(s, 1, 1) && Behind(s, 1, 1) == |s|
  }

  // Any number of whole elements and text.
  predicate Balanced(s: seq<Token>)
    decreases |s|
  {
    s == [] || (s[0].Text? && Balanced(s[1..]))
    || (s[0].Start? && Closes(s, 1, 1) && Balanced(s[Behind(s, 1, 1)..]))
  }
}
