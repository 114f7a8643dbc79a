// The walk over service discovery items (XEP-0030, section 4): recursion over
// an item graph that may have cycles, with a list that grows down each branch.
module Walk {
  datatype Item = Item(jid: string, node: string, name: string)

  // Two items are the same if address and node agree; the name is a label.
  type Key = (string, string)

  function KeyOf(i: Item): Key { (i.jid, i.node) }

  // So an item differs from another exactly in one of these two.
  lemma SameItem(a: Item, b: Item)
    ensures KeyOf(a) == KeyOf(b) <==> a.jid == b.jid && a.node == b.node
  {
  }

  // How a query for the items of an item ended. Errors that say the feature is
  // not implemented or unavailable are ignored, others are reported.
  datatype Status = Fetched | Ignored | Broken(reason: int)

  datatype Answer = Answer(items: seq<Item>, status: Status)

  // What the walk function returns: nil, ErrSkipItem, or another error.
  datatype Verdict = Ok | SkipItem | Stop(reason: int)

  datatype Event = Visit(level: nat, item: Item, status: Status) | Query(of: Item, answer: Answer)

  type Trace = seq<Event>

  // The walk function and the servers asked may both depend on everything that
  // happened so far.
  datatype World = World(fn: (Trace, nat, Item, Status) -> Verdict, server: (Trace, Item) -> Answer)

  // Every item any server ever lists is in the finite universe.
  ghost predicate Finite(w: World, universe: set<Key>) {
    forall h: Trace, it: Item, i: nat | i < |w.server(h, it).items| :: KeyOf(w.server(h, it).items[i]) in universe
  }

  function KeysOf(items: seq<Item>): set<Key> { set i | 0 <= i < |items| :: KeyOf(items[i]) }

  // Whether the item at idx occurs elsewhere on the branch.
  predicate Duplicate(items: seq<Item>, idx: nat)
    requires idx < |items|
  {
    exists n | 0 <= n < |items| :: n != idx && KeyOf(items[n]) == KeyOf(items[idx])
  }

  // A branch: the item at idx is about to be visited, expanded holds the items
  // above it, all of them earlier in the list.
  ghost predicate Branch(w: World, universe: set<Key>, expanded: set<Key>, idx: nat, items: seq<Item>) {
    && Finite(w, universe) && idx <= |items| && KeysOf(items) <= universe
    && expanded <= universe && expanded <= KeysOf(items[..idx])
  }

  datatype Walked = Walked(verdict: Verdict, trace: Trace)

  lemma KeysAppend(xs: seq<Item>, ys: seq<Item>)
    ensures KeysOf(xs + ys) == KeysOf(xs) + KeysOf(ys)
  {
    var zs := xs + ys;
    forall k | k in KeysOf(xs) + KeysOf(ys) ensures k in KeysOf(zs) {
      if k in KeysOf(xs) {
        var i :| 0 <= i < |xs| && KeyOf(xs[i]) == k;
        assert zs[i] == xs[i];
      } else {
        var i :| 0 <= i < |ys| && KeyOf(ys[i]) == k;
        assert zs[|xs| + i] == ys[i];
      }
    }
  }

  lemma KeysOfOne(item: Item)
    ensures KeysOf([item]) == {KeyOf(item)}
  {
    assert KeyOf([item][0]) in KeysOf([item]);
  }

  // Expanding the item at idx is a step down a longer branch.
  lemma Expand(w: World, universe: set<Key>, expanded: set<Key>, idx: nat, items: seq<Item>, h: Trace)
    requires Branch(w, universe, expanded, idx, items) && idx < |items| && !Duplicate(items, idx)
    ensures var more := items + w.server(h, items[idx]).items;
            var deeper := expanded + {KeyOf(items[idx])};
            && Branch(w, universe, deeper, |items|, more)
            && KeyOf(items[idx]) !in expanded && universe - deeper < universe - expanded
  {
    var k := KeyOf(items[idx]);
    var children := w.server(h, items[idx]).items;
    KeysAppend(items, children);
    assert (items + children)[..|items|] == items;
    assert k in KeysOf(items);
    KeysAppend(items[..idx], items[idx..]);
    assert items == items[..idx] + items[idx..];
    forall n | 0 <= n < idx ensures KeyOf(items[..idx][n]) != k {
      assert items[..idx][n] == items[n];
    }
    assert k in universe - expanded;
  }

  lemma NextBranch(w: World, universe: set<Key>, expanded: set<Key>, n: nat, items: seq<Item>)
    requires Branch(w, universe, expanded, n, items) && n < |items|
    ensures Branch(w, universe, expanded, n + 1, items)
  {
    assert items[..n + 1] == items[..n] + [items[n]];
    KeysAppend(items[..n], [items[n]]);
  }

  // The walk of the items from n to the end of the list.
  ghost function WalkFrom(w: World, universe: set<Key>, expanded: set<Key>, level: nat, n: nat, items: seq<Item>,
                          h: Trace): Walked
    requires Branch(w, universe, expanded, n, items)
    decreases universe - expanded, 1 + |items| - n
  {
    if n == |items| then Walked(Ok, h)
    else
      var r := WalkAt(w, universe, expanded, level, n, items, h);
      if r.verdict.Stop? then r
      else
        NextBranch(w, universe, expanded, n, items);
        WalkFrom(w, universe, expanded, level, n + 1, items, r.trace)
  }

  // The walk of the item at idx; the two sets are what termination rests on.
  ghost function WalkAt(w: World, universe: set<Key>, expanded: set<Key>, level: nat, idx: nat, items: seq<Item>,
                        h: Trace): Walked
    requires Branch(w, universe, expanded, idx, items) && idx < |items|
    decreases universe - expanded, 0
  {
    var item := items[idx];
    var h1 := h + [Visit(level, item, Fetched)];
    match w.fn(h, level, item, Fetched)
    case Stop(reason) => Walked(Stop(reason), h1)
    case SkipItem => Walked(Ok, h1)
    case Ok =>
      if Duplicate(items, idx) then Walked(Ok, h1)
      else
        var answer := w.server(h1, item);
        var h2 := h1 + [Query(item, answer)];
        Expand(w, universe, expanded, idx, items, h1);
        var more := items + answer.items;
        var deeper := expanded + {KeyOf(item)};
        if answer.status.Broken? then
          var verdict := w.fn(h2, level, item, answer.status);
          var h3 := h2 + [Visit(level, item, answer.status)];
          if verdict != Ok then Walked(verdict, h3)
          else WalkFrom(w, universe, deeper, level + 1, |items|, more, h3)
        else WalkFrom(w, universe, deeper, level + 1, |items|, more, h2)
  }

  // The walk as the source runs it: a search for duplicates, a query, and a
  // loop over the items the query added.
  method WalkItem(w: World, ghost universe: set<Key>, ghost expanded: set<Key>, level: nat, itemIdx: nat,
                  items: seq<Item>, h: Trace)
    returns (verdict: Verdict, trace: Trace)
    requires Branch(w, universe, expanded, itemIdx, items) && itemIdx < |items|
    ensures Walked(verdict, trace) == WalkAt(w, universe, expanded, level, itemIdx, items, h)
    decreases universe - expanded
  {
    var item := items[itemIdx];
    verdict := w.fn(h, level, item, Fetched);
    trace := h + [Visit(level, item, Fetched)];
    if verdict != Ok {
      if verdict == SkipItem { verdict := Ok; }
      return;
    }
    var n := 0;
    while n < |items|
      invariant 0 <= n <= |items|
      invariant forall m | 0 <= m < n :: m != itemIdx ==> KeyOf(items[m]) != KeyOf(item)
    {
      if n != itemIdx && items[n].node == item.node && items[n].jid == item.jid {
        return Ok, trace;
      }
      n := n + 1;
    }
    var answer := w.server(trace, item);
    Expand(w, universe, expanded, itemIdx, items, trace);
    var more := items + answer.items;
    trace := trace + [Query(item, answer)];
    if answer.status.Broken? {
      verdict := w.fn(trace, level, item, answer.status);
      trace := trace + [Visit(level, item, answer.status)];
      if verdict != Ok { return; }
    }
    ghost var deeper := expanded + {KeyOf(item)};
    ghost var start := trace;
    n := |items|;
    while n < |more|
      invariant |items| <= n <= |more|
      invariant Branch(w, universe, deeper, n, more)
      invariant WalkFrom(w, universe, deeper, level + 1, n, more, trace)
                == WalkFrom(w, universe, deeper, level + 1, |items|, more, start)
      decreases |more| - n
    {
      verdict, trace := WalkItem(w, universe, deeper, level + 1, n, more, trace);
      if verdict.Stop? { return; }
      NextBranch(w, universe, deeper, n, more);
      n := n + 1;
    }
    verdict := Ok;
  }

  // ----- What is visited, and how deep -----

  // The walk of a whole tree.
  ghost function WalkRoot(w: World, universe: set<Key>, root: Item): Walked
    requires Finite(w, universe) && KeyOf(root) in universe
  {
    KeysOfOne(root);
    WalkAt(w, universe, {}, 0, 0, [root], [])
  }

  // Where a visited item comes from: it is the root, or it was listed in the
  // answer to the query that followed the visit of its parent one level up.
  predicate Origin(root: Item, h: Trace, level: nat, item: Item) {
    || (level == 0 && item == root)
    || exists j | 1 <= j < |h| :: h[j].Query? && item in h[j].answer.items && level >= 1
                                 && h[j - 1] == Visit(level - 1, h[j].of, Fetched)
  }

  // What may follow the trace h: visits of listed items come from their parents;
  // a query follows a visit that the walk function approved; a second visit
  // reports the error of the query before it.
  ghost predicate Justified(w: World, root: Item, h: Trace, e: Event) {
    match e
    case Visit(level, item, status) =>
      if status == Fetched then Origin(root, h, level, item)
      else |h| >= 2 && status.Broken? && h[|h| - 2] == Visit(level, item, Fetched)
           && h[|h| - 1].Query? && h[|h| - 1].of == item && h[|h| - 1].answer.status == status
    case Query(item, answer) =>
      && h != [] && answer == w.server(h, item)
      && var last := h[|h| - 1];
         last.Visit? && last.item == item && last.status == Fetched
         && w.fn(h[..|h| - 1], last.level, item, Fetched) == Ok
  }

  ghost predicate AllJustified(w: World, root: Item, h: Trace, bound: nat) {
    forall k | 0 <= k < |h| :: Justified(w, root, h[..k], h[k]) && (h[k].Visit? ==> h[k].level <= bound)
  }

  lemma JustifiedAppend(w: World, root: Item, h: Trace, bound: nat, e: Event)
    requires AllJustified(w, root, h, bound)
    requires Justified(w, root, h, e) && (e.Visit? ==> e.level <= bound)
    ensures AllJustified(w, root, h + [e], bound)
  {
    hide Justified;
    var g := h + [e];
    forall k | 0 <= k < |g| ensures Justified(w, root, g[..k], g[k]) && (g[k].Visit? ==> g[k].level <= bound) {
      if k < |h| { assert g[..k] == h[..k]; } else { assert g[..k] == h; }
    }
  }

  lemma OriginGrows(root: Item, h: Trace, g: Trace, level: nat, item: Item)
    requires h <= g && Origin(root, h, level, item)
    ensures Origin(root, g, level, item)
  {
    if !(level == 0 && item == root) {
      var j :| 1 <= j < |h| && h[j].Query? && item in h[j].answer.items && level >= 1
               && h[j - 1] == Visit(level - 1, h[j].of, Fetched);
      assert g[j] == h[j] && g[j - 1] == h[j - 1];
    }
  }

  // A visit, the query it leads to, and the report of an error: each may follow.
  lemma ExpansionJustified(w: World, root: Item, h: Trace, bound: nat, level: nat, item: Item)
    requires AllJustified(w, root, h, bound) && Origin(root, h, level, item) && level <= bound
    ensures AllJustified(w, root, h + [Visit(level, item, Fetched)], bound)
    ensures w.fn(h, level, item, Fetched) == Ok ==>
              var h1 := h + [Visit(level, item, Fetched)];
              var answer := w.server(h1, item);
              var h2 := h1 + [Query(item, answer)];
              var h3 := h2 + [Visit(level, item, answer.status)];
              && AllJustified(w, root, h2, bound)
              && (forall c | c in answer.items :: Origin(root, h2, level + 1, c))
              && (answer.status.Broken? ==>
                    AllJustified(w, root, h3, bound) && forall c | c in answer.items :: Origin(root, h3, level + 1, c))
  {
    hide AllJustified;
    var e1 := Visit(level, item, Fetched);
    var h1 := h + [e1];
    JustifiedAppend(w, root, h, bound, e1);
    assert h1[..|h1| - 1] == h;
    if w.fn(h, level, item, Fetched) == Ok {
      var answer := w.server(h1, item);
      var e2, e3 := Query(item, answer), Visit(level, item, answer.status);
      JustifiedAppend(w, root, h1, bound, e2);
      var h2 := h1 + [e2];
      forall c | c in answer.items ensures Origin(root, h2, level + 1, c) {
        assert h2[|h1|] == e2 && h2[|h1| - 1] == e1;
      }
      if answer.status.Broken? {
        assert h2[|h2| - 2] == e1;
        JustifiedAppend(w, root, h2, bound, e3);
        forall c | c in answer.items ensures Origin(root, h2 + [e3], level + 1, c) {
          OriginGrows(root, h2, h2 + [e3], level + 1, c);
        }
      }
    }
  }

  lemma {:induction false} WalkFromJustified(w: World, universe: set<Key>, expanded: set<Key>, level: nat, n: nat,
                                             items: seq<Item>, h: Trace, root: Item)
    requires Branch(w, universe, expanded, n, items) && level == |expanded|
    requires AllJustified(w, root, h, |universe|)
    requires forall m | n <= m < |items| :: Origin(root, h, level, items[m])
    ensures var r := WalkFrom(w, universe, expanded, level, n, items, h);
            h <= r.trace && AllJustified(w, root, r.trace, |universe|)
    decreases universe - expanded, 1 + |items| - n
  {
    hide Finite, KeysOf, Justified, Origin, AllJustified;
    if n < |items| {
      WalkAtJustified(w, universe, expanded, level, n, items, h, root);
      var r := WalkAt(w, universe, expanded, level, n, items, h);
      if !r.verdict.Stop? {
        NextBranch(w, universe, expanded, n, items);
        forall m | n + 1 <= m < |items| ensures Origin(root, r.trace, level, items[m]) {
          OriginGrows(root, h, r.trace, level, items[m]);
        }
        WalkFromJustified(w, universe, expanded, level, n + 1, items, r.trace, root);
      }
    }
  }

  lemma {:induction false} SubsetSize(s: set<Key>, t: set<Key>)
    requires s <= t
    ensures |s| <= |t|
  {
    assert t == s + (t - s);
  }

  lemma {:induction false} WalkAtJustified(w: World, universe: set<Key>, expanded: set<Key>, level: nat, idx: nat,
                                           items: seq<Item>, h: Trace, root: Item)
    requires Branch(w, universe, expanded, idx, items) && idx < |items| && level == |expanded|
    requires AllJustified(w, root, h, |universe|) && Origin(root, h, level, items[idx])
    ensures var r := WalkAt(w, universe, expanded, level, idx, items, h);
            h <= r.trace && AllJustified(w, root, r.trace, |universe|)
    decreases universe - expanded, 0
  {
    hide Finite, KeysOf, Duplicate, Justified, Origin, AllJustified;
    var item := items[idx];
    SubsetSize(expanded, universe);
    ExpansionJustified(w, root, h, |universe|, level, item);
    var h1 := h + [Visit(level, item, Fetched)];
    if w.fn(h, level, item, Fetched) == Ok && !Duplicate(items, idx) {
      var answer := w.server(h1, item);
      var h2 := h1 + [Query(item, answer)];
      Expand(w, universe, expanded, idx, items, h1);
      var more, deeper := items + answer.items, expanded + {KeyOf(item)};
      assert forall m | |items| <= m < |more| :: more[m] in answer.items;
      if !answer.status.Broken? {
        WalkFromJustified(w, universe, deeper, level + 1, |items|, more, h2, root);
      } else if w.fn(h2, level, item, answer.status) == Ok {
        WalkFromJustified(w, universe, deeper, level + 1, |items|, more, h2 + [Visit(level, item, answer.status)],
          root);
      }
    }
  }

  // Whatever the servers answer, the walk ends (WalkRoot is total on a finite
  // universe), visits only items that come from the root level by level, never
  // goes deeper than there are items, and asks only where it was told to.
  lemma WalkIsJustified(w: World, universe: set<Key>, root: Item)
    requires Finite(w, universe) && KeyOf(root) in universe
    ensures AllJustified(w, root, WalkRoot(w, universe, root).trace, |universe|)
  {
    KeysOfOne(root);
    WalkAtJustified(w, universe, {}, 0, 0, [root], [], root);
  }
}
