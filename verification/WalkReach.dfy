// Exactly which items the walk over discovery items visits, whatever the answers
// repeat.
module WalkReach {
  import opened Walk
  import opened WalkComplete

  // The list that a branch carries once the items of p have been expanded.
  function Carried(g: Graph, root: Item, p: seq<Key>): seq<Item> {
    if p == [] then [root] else Carried(g, root, p[..|p| - 1]) + g(p[|p| - 1])
  }

  // The item occurs in the list exactly once.
  predicate Once(items: seq<Item>, k: Key) {
    exists i | 0 <= i < |items| :: KeyOf(items[i]) == k && forall j | 0 <= j < |items| && j != i :: KeyOf(items[j]) != k
  }

  // A path from the root on which every item but the last occurs once in the list
  // that its branch carries at that point.
  predicate Chain(g: Graph, root: Item, q: seq<Key>) {
    && Path(g, q) && q[0] == KeyOf(root)
    && forall i | 0 <= i < |q| - 1 :: Once(Carried(g, root, q[..i]), q[i])
  }

  // Such a path through p and k leads to x.
  ghost predicate Leads(g: Graph, root: Item, p: seq<Key>, k: Key, x: Key) {
    exists q :: Chain(g, root, q) && p + [k] <= q && q[|q| - 1] == x
  }

  lemma OnceIsNoDuplicate(items: seq<Item>, idx: nat)
    requires idx < |items|
    ensures Once(items, KeyOf(items[idx])) <==> !Duplicate(items, idx)
  {
    if !Duplicate(items, idx) {
      assert forall j | 0 <= j < |items| && j != idx :: KeyOf(items[j]) != KeyOf(items[idx]);
    }
  }

  // Behind an item that occurs elsewhere nothing is reached.
  lemma LeadsNowhere(g: Graph, root: Item, p: seq<Key>, k: Key, x: Key)
    requires Chain(g, root, p + [k]) && !Once(Carried(g, root, p), k)
    ensures Leads(g, root, p, k, x) <==> x == k
  {
    hide Once, Carried, Path;
    if Leads(g, root, p, k, x) {
      var q :| Chain(g, root, q) && p + [k] <= q && q[|q| - 1] == x;
      assert q[|p|] == (p + [k])[|p|] && q[..|p|] == (p + [k])[..|p|] == p;
      assert |q| == |p| + 1;
    }
    if x == k { assert (p + [k])[|p + [k]| - 1] == x; }
  }

  lemma NextOn(g: Graph, root: Item, p: seq<Key>, k: Key, q: seq<Key>) returns (c: Key)
    requires Chain(g, root, q) && p + [k] <= q && q[|q| - 1] != k
    ensures c in KeysOf(g(k)) && p + [k] + [c] <= q
  {
    hide Once, Carried, KeysOf;
    var n := |p| + 1;
    assert q[|p|] == (p + [k])[|p|] == k;
    assert |q| > n;
    c := q[n];
    assert q[|p| + 1] in KeysOf(g(q[|p|]));
  }

  // Behind one that does not, it is what its children lead to.
  lemma LeadsOn(g: Graph, root: Item, p: seq<Key>, k: Key, x: Key)
    requires Chain(g, root, p + [k])
    ensures Leads(g, root, p, k, x) ==> x == k || exists c :: c in KeysOf(g(k)) && Leads(g, root, p + [k], c, x)
    ensures x == k ==> Leads(g, root, p, k, x)
    ensures forall c :: Leads(g, root, p + [k], c, x) ==> Leads(g, root, p, k, x)
  {
    hide Chain, KeysOf;
    if Leads(g, root, p, k, x) && x != k {
      var q :| Chain(g, root, q) && p + [k] <= q && q[|q| - 1] == x;
      var c := NextOn(g, root, p, k, q);
      assert Leads(g, root, p + [k], c, x);
    }
    if x == k { assert (p + [k])[|p + [k]| - 1] == x; }
    forall c | Leads(g, root, p + [k], c, x) ensures Leads(g, root, p, k, x) {
      var q :| Chain(g, root, q) && p + [k] + [c] <= q && q[|q| - 1] == x;
      assert p + [k] <= q;
    }
  }

  lemma ChildChain(g: Graph, root: Item, p: seq<Key>, k: Key, c: Key)
    requires Chain(g, root, p + [k]) && Once(Carried(g, root, p), k) && c in KeysOf(g(k))
    ensures Chain(g, root, p + [k] + [c])
  {
    hide Once, Carried;
    var q := p + [k];
    PathExtend(g, q, c);
    forall i | 0 <= i < |q| ensures Once(Carried(g, root, (q + [c])[..i]), (q + [c])[i]) {
      assert (q + [c])[..i] == q[..i];
      if i == |p| { assert q[..i] == p; }
    }
  }

  lemma IndexOf(items: seq<Item>, k: Key) returns (i: nat)
    requires k in KeysOf(items)
    ensures i < |items| && KeyOf(items[i]) == k
  {
    i :| 0 <= i < |items| && KeyOf(items[i]) == k;
  }

  lemma {:induction false} WalkFromReaches(w: World, g: Graph, root: Item, universe: set<Key>, expanded: set<Key>,
                                           level: nat, n: nat, items: seq<Item>, h: Trace, p: seq<Key>, x: Key)
    requires Smooth(w, g) && Branch(w, universe, expanded, n, items) && items == Carried(g, root, p)
    requires forall m | n <= m < |items| :: Chain(g, root, p + [KeyOf(items[m])])
    ensures var r := WalkFrom(w, universe, expanded, level, n, items, h);
            && r.verdict == Ok
            && (x in Visited(r.trace)
                <==> x in Visited(h) || exists m | n <= m < |items| :: Leads(g, root, p, KeyOf(items[m]), x))
    decreases universe - expanded, 1 + |items| - n
  {
    hide Finite, Visited, KeysOf, Chain, Once, Leads, Carried;
    if n < |items| {
      WalkAtReaches(w, g, root, universe, expanded, level, n, items, h, p, x);
      var r := WalkAt(w, universe, expanded, level, n, items, h);
      NextBranch(w, universe, expanded, n, items);
      WalkFromReaches(w, g, root, universe, expanded, level, n + 1, items, r.trace, p, x);
    }
  }

  lemma {:induction false} WalkAtReaches(w: World, g: Graph, root: Item, universe: set<Key>, expanded: set<Key>,
                                         level: nat, idx: nat, items: seq<Item>, h: Trace, p: seq<Key>, x: Key)
    requires Smooth(w, g) && Branch(w, universe, expanded, idx, items) && idx < |items|
    requires items == Carried(g, root, p) && Chain(g, root, p + [KeyOf(items[idx])])
    ensures var r := WalkAt(w, universe, expanded, level, idx, items, h);
            && r.verdict == Ok
            && (x in Visited(r.trace) <==> x in Visited(h) || Leads(g, root, p, KeyOf(items[idx]), x))
    decreases universe - expanded, 0
  {
    hide Finite, Visited, Queried, KeysOf, Duplicate, Chain, Once, Leads;
    var item, k := items[idx], KeyOf(items[idx]);
    var e1 := Visit(level, item, Fetched);
    SeenAppend(h, e1);
    var h1 := h + [e1];
    OnceIsNoDuplicate(items, idx);
    if Duplicate(items, idx) {
      LeadsNowhere(g, root, p, k, x);
    } else {
      var children, answer := g(k), w.server(h1, item);
      var e2 := Query(item, answer);
      SeenAppend(h1, e2);
      var h2 := Told(h1 + [e2], level, item, answer.status);
      SeenTold(h1 + [e2], level, item, answer.status);
      Expand(w, universe, expanded, idx, items, h1);
      var more := items + children;
      assert (p + [k])[..|p|] == p;
      assert more == Carried(g, root, p + [k]);
      forall m | |items| <= m < |more|
        ensures KeyOf(more[m]) in KeysOf(children) && Chain(g, root, p + [k] + [KeyOf(more[m])])
      {
        KeyListed(children, m - |items|);
        ChildChain(g, root, p, k, KeyOf(more[m]));
      }
      WalkFromReaches(w, g, root, universe, expanded + {k}, level + 1, |items|, more, h2, p + [k], x);
      LeadsOn(g, root, p, k, x);
      if Leads(g, root, p, k, x) && x != k {
        var c :| c in KeysOf(children) && Leads(g, root, p + [k], c, x);
        var i := IndexOf(children, c);
        assert more[|items| + i] == children[i];
      }
    }
  }

  lemma NothingSeen()
    ensures Visited([]) == {}
  {
  }

  // With a walk function that never objects, on every finite graph: an item is
  // visited if and only if some path leads to it from the root on which each item
  // before it occurs just once in the list that the walk searches for duplicates:
  // the root and all answers on the path so far.
  lemma WalkVisitsExactly(w: World, g: Graph, universe: set<Key>, root: Item, x: Key)
    requires Finite(w, universe) && KeyOf(root) in universe && Smooth(w, g)
    ensures WalkRoot(w, universe, root).verdict == Ok
    ensures x in Visited(WalkRoot(w, universe, root).trace) <==> exists q :: Chain(g, root, q) && q[|q| - 1] == x
  {
    hide Finite, Visited, KeysOf, Once;
    KeysOfOne(root);
    assert Chain(g, root, [] + [KeyOf(root)]);
    WalkAtReaches(w, g, root, universe, {}, 0, 0, [root], [], [], x);
    assert Visited([]) == {} by { NothingSeen(); }
    if q :| Chain(g, root, q) && q[|q| - 1] == x {
      assert [] + [KeyOf(root)] <= q;
    }
  }
}
