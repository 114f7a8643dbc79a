// Byte-wise lexicographic order on strings and on lists of strings, and what
// sorting by it determines.
module Ordering {
  // a < b for strings.
  predicate StrLess(a: string, b: string) {
    b != "" && (a == "" || a[0] < b[0] || (a[0] == b[0] && StrLess(a[1..], b[1..])))
  }

  lemma {:induction false} StrIrreflexive(a: string)
    ensures !StrLess(a, a)
  {
    if a != "" { StrIrreflexive(a[1..]); }
  }

  lemma {:induction false} StrTotal(a: string, b: string)
    ensures StrLess(a, b) || StrLess(b, a) || a == b
    ensures !(StrLess(a, b) && StrLess(b, a)) && !StrLess(a, a)
    decreases |a|
  {
    if a != "" {
      if b != "" && a[0] == b[0] {
        StrTotal(a[1..], b[1..]);
        assert a == [a[0]] + a[1..] && b == [b[0]] + b[1..];
      }
      StrIrreflexive(a);
    }
  }

  lemma {:induction false} StrTransitive(a: string, b: string, c: string)
    requires StrLess(a, b) && StrLess(b, c)
    ensures StrLess(a, c)
  {
    if a != "" && a[0] == b[0] && b[0] == c[0] { StrTransitive(a[1..], b[1..], c[1..]); }
  }

  // a < b for lists of strings, the first difference deciding.
  predicate KeyLess(a: seq<string>, b: seq<string>) {
    b != [] && (a == [] || StrLess(a[0], b[0]) || (a[0] == b[0] && KeyLess(a[1..], b[1..])))
  }

  lemma {:induction false} KeyTotal(a: seq<string>, b: seq<string>)
    ensures KeyLess(a, b) || KeyLess(b, a) || a == b
    ensures !(KeyLess(a, b) && KeyLess(b, a))
    decreases |a|
  {
    if a != [] && b != [] {
      StrTotal(a[0], b[0]);
      if a[0] == b[0] {
        KeyTotal(a[1..], b[1..]);
        assert a == [a[0]] + a[1..] && b == [b[0]] + b[1..];
      }
    }
  }

  lemma {:induction false} KeyTransitive(a: seq<string>, b: seq<string>, c: seq<string>)
    requires KeyLess(a, b) && KeyLess(b, c)
    ensures KeyLess(a, c)
  {
    if a != [] {
      if StrLess(a[0], b[0]) && StrLess(b[0], c[0]) {
        StrTransitive(a[0], b[0], c[0]);
      } else if a[0] == b[0] == c[0] {
        KeyTransitive(a[1..], b[1..], c[1..]);
      }
    }
  }

  // No element's key is less than that of an earlier one.
  predicate Sorted<T>(key: T -> seq<string>, s: seq<T>) {
    forall i, j | 0 <= i < j < |s| :: !KeyLess(key(s[j]), key(s[i]))
  }

  // Elements with equal keys are equal.
  predicate Determined<T(==)>(key: T -> seq<string>, s: seq<T>) {
    forall i, j | 0 <= i < |s| && 0 <= j < |s| && key(s[i]) == key(s[j]) :: s[i] == s[j]
  }

  lemma SameFirst<T>(key: T -> seq<string>, s: seq<T>, t: seq<T>)
    requires Sorted(key, s) && Sorted(key, t) && multiset(s) == multiset(t) && Determined(key, s) && s != [] && t != []
    ensures s[0] == t[0]
  {
    hide KeyLess;
    assert s[0] in multiset(t) && t[0] in multiset(s);
    var i :| 0 <= i < |t| && t[i] == s[0];
    var j :| 0 <= j < |s| && s[j] == t[0];
    KeyTotal(key(s[0]), key(t[0]));
    assert i > 0 ==> !KeyLess(key(t[i]), key(t[0]));
    assert j > 0 ==> !KeyLess(key(s[j]), key(s[0]));
  }

  lemma WithoutFirst<T>(s: seq<T>)
    requires s != []
    ensures multiset(s[1..]) == multiset(s) - multiset{s[0]}
  {
    assert s == [s[0]] + s[1..];
  }

  // A sequence whose elements are told apart by their keys can be sorted in one
  // way only.
  lemma {:induction false} SortedOnce<T>(key: T -> seq<string>, s: seq<T>, t: seq<T>)
    requires Sorted(key, s) && Sorted(key, t) && multiset(s) == multiset(t) && Determined(key, s)
    ensures s == t
    decreases |s|
  {
    hide KeyLess;
    assert |s| == |multiset(s)| && |t| == |multiset(t)|;
    if s != [] {
      SameFirst(key, s, t);
      WithoutFirst(s);
      WithoutFirst(t);
      SortedOnce(key, s[1..], t[1..]);
      assert s == [s[0]] + s[1..] && t == [t[0]] + t[1..];
    }
  }

  lemma NotLessBefore<T>(key: T -> seq<string>, s: seq<T>, i: nat, x: T, a: nat)
    requires Sorted(key, s) && a < i <= |s| && !KeyLess(key(x), key(s[i - 1]))
    ensures !KeyLess(key(x), key(s[a]))
  {
    if KeyLess(key(x), key(s[a])) && a < i - 1 {
      assert !KeyLess(key(s[i - 1]), key(s[a]));
      KeyTotal(key(s[a]), key(s[i - 1]));
      if KeyLess(key(s[a]), key(s[i - 1])) { KeyTransitive(key(x), key(s[a]), key(s[i - 1])); }
    }
  }

  lemma InsertedSorted<T>(key: T -> seq<string>, s: seq<T>, i: nat, x: T)
    requires Sorted(key, s) && i <= |s| && (i > 0 ==> !KeyLess(key(x), key(s[i - 1])))
    requires forall j | i <= j < |s| :: KeyLess(key(x), key(s[j]))
    ensures Sorted(key, s[..i] + [x] + s[i..])
  {
    hide KeyLess;
    var r := s[..i] + [x] + s[i..];
    assert forall a | 0 <= a < i :: r[a] == s[a];
    assert forall a | i < a < |r| :: r[a] == s[a - 1];
    forall a, b | 0 <= a < b < |r| ensures !KeyLess(key(r[b]), key(r[a])) {
      if b == i {
        NotLessBefore(key, s, i, x, a);
      } else if a == i {
        KeyTotal(key(x), key(s[b - 1]));
      }
    }
  }

  method Insert<T>(key: T -> seq<string>, s: seq<T>, x: T) returns (r: seq<T>)
    requires Sorted(key, s)
    ensures Sorted(key, r) && multiset(r) == multiset(s) + multiset{x}
  {
    var i := |s|;
    while i > 0 && KeyLess(key(x), key(s[i - 1]))
      invariant 0 <= i <= |s| && forall j | i <= j < |s| :: KeyLess(key(x), key(s[j]))
    {
      i := i - 1;
    }
    r := s[..i] + [x] + s[i..];
    assert s == s[..i] + s[i..];
    InsertedSorted(key, s, i, x);
  }

  // Sorting in place, with no promise on the order of equal keys.
  method Sort<T>(key: T -> seq<string>, s: seq<T>) returns (r: seq<T>)
    ensures Sorted(key, r) && multiset(r) == multiset(s)
  {
    r := [];
    var n := 0;
    while n < |s|
      invariant 0 <= n <= |s| && Sorted(key, r) && multiset(r) == multiset(s[..n])
    {
      assert s[..n + 1] == s[..n] + [s[n]];
      r := Insert(key, r, s[n]);
      n := n + 1;
    }
    assert s[..n] == s;
  }
}
