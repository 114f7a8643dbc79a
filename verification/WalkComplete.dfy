// When the walk over discovery items misses nothing, and when it stops.
module WalkComplete {
  import opened Walk

  // ----- Stopping -----

  // The walk function's answer to the k-th event, if that is a visit.
  ghost predicate Stopped(w: World, h: Trace, e: Event) {
    e.Visit? && w.fn(h, e.level, e.item, e.status).Stop?
  }

  ghost predicate NeverStopped(w: World, h: Trace) { forall k | 0 <= k < |h| :: !Stopped(w, h[..k], h[k]) }

  // Either nothing stopped the walk, or its last visit did and its reason is
  // the walk's.
  ghost predicate StopsAtOnce(w: World, r: Walked) {
    if r.verdict.Stop? then
      && r.trace != []
      && var last := |r.trace| - 1;
         var e := r.trace[last];
         NeverStopped(w, r.trace[..last]) && e.Visit? && w.fn(r.trace[..last], e.level, e.item, e.status) == r.verdict
    else NeverStopped(w, r.trace)
  }

  lemma NeverStoppedAppend(w: World, h: Trace, e: Event)
    requires NeverStopped(w, h)
    ensures h == (h + [e])[..|h|]
    ensures !Stopped(w, h, e) ==> NeverStopped(w, h + [e])
  {
    var g := h + [e];
    assert g[..|h|] == h;
    forall k | 0 <= k < |h| ensures !Stopped(w, g[..k], g[k]) { assert g[..k] == h[..k]; }
  }

  lemma {:induction false} WalkFromStops(w: World, universe: set<Key>, expanded: set<Key>, level: nat, n: nat,
                                         items: seq<Item>, h: Trace)
    requires Branch(w, universe, expanded, n, items) && NeverStopped(w, h)
    ensures StopsAtOnce(w, WalkFrom(w, universe, expanded, level, n, items, h))
    decreases universe - expanded, 1 + |items| - n
  {
    if n < |items| {
      WalkAtStops(w, universe, expanded, level, n, items, h);
      var r := WalkAt(w, universe, expanded, level, n, items, h);
      if !r.verdict.Stop? {
        NextBranch(w, universe, expanded, n, items);
        WalkFromStops(w, universe, expanded, level, n + 1, items, r.trace);
      }
    }
  }

  lemma {:induction false} WalkAtStops(w: World, universe: set<Key>, expanded: set<Key>, level: nat, idx: nat,
                                       items: seq<Item>, h: Trace)
    requires Branch(w, universe, expanded, idx, items) && idx < |items| && NeverStopped(w, h)
    ensures StopsAtOnce(w, WalkAt(w, universe, expanded, level, idx, items, h))
    decreases universe - expanded, 0
  {
    hide Finite, KeysOf, Duplicate, NeverStopped;
    var item := items[idx];
    var e1 := Visit(level, item, Fetched);
    NeverStoppedAppend(w, h, e1);
    var h1 := h + [e1];
    if w.fn(h, level, item, Fetched) == Ok && !Duplicate(items, idx) {
      var answer := w.server(h1, item);
      NeverStoppedAppend(w, h1, Query(item, answer));
      var h2 := h1 + [Query(item, answer)];
      Expand(w, universe, expanded, idx, items, h1);
      var more, deeper := items + answer.items, expanded + {KeyOf(item)};
      if !answer.status.Broken? {
        WalkFromStops(w, universe, deeper, level + 1, |items|, more, h2);
      } else {
        var e3 := Visit(level, item, answer.status);
        NeverStoppedAppend(w, h2, e3);
        if w.fn(h2, level, item, answer.status) == Ok {
          WalkFromStops(w, universe, deeper, level + 1, |items|, more, h2 + [e3]);
        }
      }
    }
  }

  // ----- Going on -----

  // The item is visited at this level at or after position n.
  predicate VisitedFrom(g: Trace, n: nat, level: nat, c: Item) {
    exists m | n <= m < |g| :: g[m] == Visit(level, c, Fetched)
  }

  // The query at k failed and the walk function, told so, did not say to go on.
  ghost predicate Declined(w: World, g: Trace, k: nat)
    requires k < |g|
  {
    && g[k].Query? && k + 1 < |g| && g[k + 1].Visit? && g[k + 1].status.Broken?
    && w.fn(g[..k + 1], g[k + 1].level, g[k + 1].item, g[k + 1].status) != Ok
  }

  predicate ListedVisited(g: Trace, k: nat, c: Item)
    requires k < |g|
  {
    k >= 1 && g[k - 1].Visit? && VisitedFrom(g, k + 1, g[k - 1].level + 1, c)
  }

  // From h to g, everything that an answer lists is visited after the query, one
  // level below the visit that led to it, unless that was declined.
  ghost predicate RunsOut(w: World, h: Trace, g: Trace) {
    forall k, c | |h| <= k < |g| && g[k].Query? && !Declined(w, g, k) && c in g[k].answer.items ::
      ListedVisited(g, k, c)
  }

  lemma VisitedLonger(g: Trace, more: Trace, n: nat, m: nat, level: nat, c: Item)
    requires g <= more && n <= m && VisitedFrom(g, m, level, c)
    ensures VisitedFrom(more, n, level, c)
  {
    var k :| m <= k < |g| && g[k] == Visit(level, c, Fetched);
    assert more[k] == g[k];
  }

  lemma DeclinedLonger(w: World, g: Trace, more: Trace, k: nat)
    requires g <= more && k < |g|
    ensures more[k] == g[k] && (Declined(w, g, k) ==> Declined(w, more, k))
  {
    assert more[..k + 1] == g[..k + 1];
  }

  lemma RunsOutOn(w: World, h: Trace, g: Trace, more: Trace)
    requires h <= g <= more && RunsOut(w, h, g) && RunsOut(w, g, more)
    ensures RunsOut(w, h, more)
  {
    forall k, c | |h| <= k < |more| && more[k].Query? && !Declined(w, more, k) && c in more[k].answer.items
      ensures ListedVisited(more, k, c)
    {
      if k < |g| {
        DeclinedLonger(w, g, more, k);
        assert ListedVisited(g, k, c);
        assert more[k - 1] == g[k - 1];
        VisitedLonger(g, more, k + 1, k + 1, g[k - 1].level + 1, c);
      }
    }
  }

  lemma NoQueries(w: World, h: Trace, g: Trace)
    requires h <= g && forall k | |h| <= k < |g| :: g[k].Visit?
    ensures RunsOut(w, h, g)
  {
  }

  lemma DeclinedRunsOut(w: World, h1: Trace, h2: Trace, h3: Trace)
    requires |h2| == |h1| + 1 && h1 <= h2 && |h3| == |h2| + 1 && h2 <= h3 && h2[|h1|].Query?
    requires var e := h3[|h2|]; e.Visit? && e.status.Broken? && w.fn(h2, e.level, e.item, e.status) != Ok
    ensures RunsOut(w, h1, h3)
  {
    assert h3[..|h1| + 1] == h2;
    assert Declined(w, h3, |h1|);
  }

  // A query from h1 on, then a walk of all that it listed from h3 on to g.
  lemma AnswerRunsOut(w: World, h1: Trace, h2: Trace, h3: Trace, g: Trace, level: nat, items: seq<Item>, answer: Answer)
    requires h1 != [] && h1[|h1| - 1].Visit? && h1[|h1| - 1].level == level
    requires |h2| == |h1| + 1 && h1 <= h2 <= h3 <= g && h2[|h1|].Query? && h2[|h1|].answer == answer
    requires forall k | |h2| <= k < |h3| :: h3[k].Visit?
    requires RunsOut(w, h3, g)
    requires forall m | |items| <= m < |items| + |answer.items| ::
               VisitedFrom(g, |h3|, level + 1, (items + answer.items)[m])
    ensures RunsOut(w, h1, g)
  {
    hide VisitedFrom, Declined;
    forall k, c | |h1| <= k < |g| && g[k].Query? && !Declined(w, g, k) && c in g[k].answer.items
      ensures ListedVisited(g, k, c)
    {
      if k < |h3| {
        assert g[k] == h3[k];
        assert k == |h1| && g[k] == h2[k];
        var i :| 0 <= i < |answer.items| && answer.items[i] == c;
        assert (items + answer.items)[|items| + i] == c;
        assert g[k - 1] == h1[|h1| - 1];
        VisitedLonger(g, g, k + 1, |h3|, level + 1, c);
      }
    }
  }

  lemma {:induction false} WalkFromRunsOut(w: World, universe: set<Key>, expanded: set<Key>, level: nat, n: nat,
                                           items: seq<Item>, h: Trace)
    requires Branch(w, universe, expanded, n, items)
    ensures var r := WalkFrom(w, universe, expanded, level, n, items, h);
            !r.verdict.Stop? ==> h <= r.trace && RunsOut(w, h, r.trace)
                                 && forall m | n <= m < |items| :: VisitedFrom(r.trace, |h|, level, items[m])
    decreases universe - expanded, 1 + |items| - n
  {
    hide Finite, KeysOf, Declined, RunsOut;
    if n == |items| {
      NoQueries(w, h, h);
    } else {
      WalkAtRunsOut(w, universe, expanded, level, n, items, h);
      var r := WalkAt(w, universe, expanded, level, n, items, h);
      if !r.verdict.Stop? {
        NextBranch(w, universe, expanded, n, items);
        WalkFromRunsOut(w, universe, expanded, level, n + 1, items, r.trace);
        var z := WalkFrom(w, universe, expanded, level, n, items, h);
        if !z.verdict.Stop? {
          RunsOutOn(w, h, r.trace, z.trace);
          assert VisitedFrom(r.trace, |h|, level, items[n]);
          forall m | n <= m < |items| ensures VisitedFrom(z.trace, |h|, level, items[m]) {
            if m == n { VisitedLonger(r.trace, z.trace, |h|, |h|, level, items[n]); }
            else { VisitedLonger(z.trace, z.trace, |h|, |r.trace|, level, items[m]); }
          }
        }
      }
    }
  }

  lemma {:induction false} WalkAtRunsOut(w: World, universe: set<Key>, expanded: set<Key>, level: nat, idx: nat,
                                         items: seq<Item>, h: Trace)
    requires Branch(w, universe, expanded, idx, items) && idx < |items|
    ensures var r := WalkAt(w, universe, expanded, level, idx, items, h);
            !r.verdict.Stop? ==>
              h < r.trace && r.trace[|h|] == Visit(level, items[idx], Fetched) && RunsOut(w, h, r.trace)
    decreases universe - expanded, 0
  {
    hide Finite, KeysOf, Duplicate, Declined, VisitedFrom, RunsOut, ListedVisited;
    var item := items[idx];
    var h1 := h + [Visit(level, item, Fetched)];
    var r := WalkAt(w, universe, expanded, level, idx, items, h);
    assert RunsOut(w, h, h1) by { NoQueries(w, h, h1); }
    if w.fn(h, level, item, Fetched) == Ok && !Duplicate(items, idx) && !r.verdict.Stop? {
      var answer := w.server(h1, item);
      var h2 := h1 + [Query(item, answer)];
      Expand(w, universe, expanded, idx, items, h1);
      var more, deeper := items + answer.items, expanded + {KeyOf(item)};
      if !answer.status.Broken? {
        WalkFromRunsOut(w, universe, deeper, level + 1, |items|, more, h2);
        AnswerRunsOut(w, h1, h2, h2, r.trace, level, items, answer);
      } else {
        var h3 := h2 + [Visit(level, item, answer.status)];
        if w.fn(h2, level, item, answer.status) == Ok {
          WalkFromRunsOut(w, universe, deeper, level + 1, |items|, more, h3);
          AnswerRunsOut(w, h1, h2, h3, r.trace, level, items, answer);
        } else {
          DeclinedRunsOut(w, h1, h2, h3);
        }
      }
      RunsOutOn(w, h, h1, r.trace);
    }
  }

  // The first error other than ErrSkipItem that the walk function returns ends
  // the walk, and WalkItem returns it; without one the walk visits everything that
  // is listed in an answer it was not told to leave.
  lemma WalkStopsAtFirstError(w: World, universe: set<Key>, root: Item)
    requires Finite(w, universe) && KeyOf(root) in universe
    ensures StopsAtOnce(w, WalkRoot(w, universe, root))
    ensures !WalkRoot(w, universe, root).verdict.Stop? ==> RunsOut(w, [], WalkRoot(w, universe, root).trace)
  {
    KeysOfOne(root);
    WalkAtStops(w, universe, {}, 0, 0, [root], []);
    WalkAtRunsOut(w, universe, {}, 0, 0, [root], []);
  }

  lemma {:induction false} FromNeverSkips(w: World, universe: set<Key>, expanded: set<Key>, level: nat, n: nat,
                                          items: seq<Item>, h: Trace)
    requires Branch(w, universe, expanded, n, items)
    ensures WalkFrom(w, universe, expanded, level, n, items, h).verdict != SkipItem
    decreases |items| - n
  {
    hide WalkAt;
    if n < |items| {
      var r := WalkAt(w, universe, expanded, level, n, items, h);
      NextBranch(w, universe, expanded, n, items);
      FromNeverSkips(w, universe, expanded, level, n + 1, items, r.trace);
    }
  }

  // ErrSkipItem is said to be returned by no function. It is, if the query for
  // the root fails and that is the walk function's answer to being told so; and
  // in no other case.
  lemma SkipItemIsReturned(w: World, universe: set<Key>, root: Item)
    requires Finite(w, universe) && KeyOf(root) in universe
    ensures WalkRoot(w, universe, root).verdict == SkipItem
            <==> var h1 := [Visit(0, root, Fetched)];
                 var answer := w.server(h1, root);
                 && w.fn([], 0, root, Fetched) == Ok && answer.status.Broken?
                 && w.fn(h1 + [Query(root, answer)], 0, root, answer.status) == SkipItem
  {
    hide Finite, KeysOf;
    KeysOfOne(root);
    var h1 := [] + [Visit(0, root, Fetched)];
    assert h1 == [Visit(0, root, Fetched)];
    if w.fn([], 0, root, Fetched) == Ok {
      var answer := w.server(h1, root);
      Expand(w, universe, {}, 0, [root], h1);
      var more, deeper := [root] + answer.items, {} + {KeyOf(root)};
      var h2 := h1 + [Query(root, answer)];
      if !answer.status.Broken? {
        FromNeverSkips(w, universe, deeper, 1, 1, more, h2);
      } else if w.fn(h2, 0, root, answer.status) == Ok {
        FromNeverSkips(w, universe, deeper, 1, 1, more, h2 + [Visit(0, root, answer.status)]);
      }
    }
  }

  // ----- Completeness -----

  // The items listed below each item.
  type Graph = Key -> seq<Item>

  // Every query lists the items of the graph, with or without an error, and the
  // walk function never objects.
  ghost predicate Smooth(w: World, g: Graph) {
    && (forall h: Trace, it: Item :: w.server(h, it).items == g(KeyOf(it)))
    && (forall h: Trace, l: nat, it: Item, s: Status :: w.fn(h, l, it, s) == Ok)
  }

  predicate DistinctFrom(items: seq<Item>, n: nat) {
    forall i, j | n <= i < j < |items| :: KeyOf(items[i]) != KeyOf(items[j])
  }

  // No answer lists an item twice.
  ghost predicate NoRepeats(g: Graph) { forall k: Key :: DistinctFrom(g(k), 0) }

  function Visited(h: Trace): set<Key> { set k | 0 <= k < |h| && h[k].Visit? :: KeyOf(h[k].item) }

  function Queried(h: Trace): set<Key> { set k | 0 <= k < |h| && h[k].Query? :: KeyOf(h[k].of) }

  lemma SeenAppend(h: Trace, e: Event)
    ensures Visited(h + [e]) == Visited(h) + if e.Visit? then {KeyOf(e.item)} else {}
    ensures Queried(h + [e]) == Queried(h) + if e.Query? then {KeyOf(e.of)} else {}
  {
    var g := h + [e];
    assert g[|h|] == e;
    assert forall k | 0 <= k < |h| :: g[k] == h[k];
  }

  // The trace after a query, with the report of its error if there is one to make.
  function Told(h: Trace, level: nat, item: Item, status: Status): Trace {
    if status.Broken? then h + [Visit(level, item, status)] else h
  }

  lemma SeenTold(h: Trace, level: nat, item: Item, status: Status)
    requires KeyOf(item) in Visited(h)
    ensures Visited(Told(h, level, item, status)) == Visited(h)
    ensures Queried(Told(h, level, item, status)) == Queried(h)
  {
    hide Visited, Queried;
    if status.Broken? { SeenAppend(h, Visit(level, item, status)); }
  }

  // Everything queried in g but not yet in h has had what is below it visited.
  predicate Covered(gr: Graph, h: Trace, g: Trace) {
    forall k | k in Queried(g) - Queried(h) :: KeysOf(gr(k)) <= Visited(g)
  }

  // What walking one item from h to g achieves; before is the part of the list
  // above the item's siblings.
  predicate Progress(gr: Graph, h: Trace, g: Trace, items: seq<Item>) {
    && Visited(h) <= Visited(g) && Queried(h) <= Queried(g)
    && Visited(g) <= Visited(h) + Queried(g) + KeysOf(items)
    && Covered(gr, h, g)
  }

  // A copy of an item elsewhere on the branch stands above its siblings.
  lemma CopyIsAbove(items: seq<Item>, first: nat, idx: nat)
    requires first <= idx < |items| && DistinctFrom(items, first) && Duplicate(items, idx)
    ensures KeyOf(items[idx]) in KeysOf(items[..first])
  {
    var n :| 0 <= n < |items| && n != idx && KeyOf(items[n]) == KeyOf(items[idx]);
    assert n < first;
    assert items[..first][n] == items[n];
  }

  lemma ExpandDistinct(items: seq<Item>, children: seq<Item>)
    requires DistinctFrom(children, 0)
    ensures DistinctFrom(items + children, |items|)
  {
    var more := items + children;
    forall i, j | |items| <= i < j < |more| ensures KeyOf(more[i]) != KeyOf(more[j]) {
      assert more[i] == children[i - |items|] && more[j] == children[j - |items|];
    }
  }

  lemma KeyListed(items: seq<Item>, idx: nat)
    requires idx < |items|
    ensures KeyOf(items[idx]) in KeysOf(items)
  {
  }

  lemma NoKeys(items: seq<Item>)
    requires items == []
    ensures KeysOf(items) == {}
  {
  }

  lemma {:induction false} WalkFromComplete(w: World, gr: Graph, universe: set<Key>, expanded: set<Key>, level: nat,
                                            first: nat, n: nat, items: seq<Item>, h: Trace)
    requires Smooth(w, gr) && NoRepeats(gr)
    requires Branch(w, universe, expanded, n, items) && first <= n <= |items| && DistinctFrom(items, first)
    ensures var r := WalkFrom(w, universe, expanded, level, n, items, h);
            && r.verdict == Ok && Visited(h) <= Visited(r.trace) && Queried(h) <= Queried(r.trace)
            && Covered(gr, h, r.trace)
            && Visited(r.trace) <= Visited(h) + Queried(r.trace) + KeysOf(items)
            && KeysOf(items[n..]) <= Visited(r.trace)
            && KeysOf(items[n..]) <= Queried(r.trace) + KeysOf(items[..first])
            && (n == first ==> Visited(r.trace) <= Visited(h) + Queried(r.trace) + KeysOf(items[..first]))
    decreases universe - expanded, 1 + |items| - n
  {
    hide Finite, Visited, Queried, DistinctFrom, Smooth, NoRepeats, KeysOf, Branch;
    if n < |items| {
      WalkAtComplete(w, gr, universe, expanded, level, first, n, items, h);
      var r := WalkAt(w, universe, expanded, level, n, items, h);
      NextBranch(w, universe, expanded, n, items);
      WalkFromComplete(w, gr, universe, expanded, level, first, n + 1, items, r.trace);
      assert items[n..] == [items[n]] + items[n + 1..];
      KeysAppend([items[n]], items[n + 1..]);
      KeysOfOne(items[n]);
    } else {
      assert KeysOf(items[n..]) == {} by { NoKeys(items[n..]); }
    }
    assert items == items[..n] + items[n..];
    KeysAppend(items[..n], items[n..]);
  }

  lemma {:induction false} WalkAtComplete(w: World, gr: Graph, universe: set<Key>, expanded: set<Key>, level: nat,
                                          first: nat, idx: nat, items: seq<Item>, h: Trace)
    requires Smooth(w, gr) && NoRepeats(gr)
    requires Branch(w, universe, expanded, idx, items) && first <= idx < |items| && DistinctFrom(items, first)
    ensures var r := WalkAt(w, universe, expanded, level, idx, items, h);
            && r.verdict == Ok && Progress(gr, h, r.trace, items)
            && KeyOf(items[idx]) in Visited(r.trace)
            && KeyOf(items[idx]) in Queried(r.trace) + KeysOf(items[..first])
    decreases universe - expanded, 0
  {
    hide Finite, Visited, Queried, KeysOf, Duplicate, DistinctFrom;
    var item := items[idx];
    var e1 := Visit(level, item, Fetched);
    SeenAppend(h, e1);
    var h1 := h + [e1];
    assert KeyOf(item) in KeysOf(items) by { KeyListed(items, idx); }
    if Duplicate(items, idx) {
      CopyIsAbove(items, first, idx);
    } else {
      var children, answer := gr(KeyOf(item)), w.server(h1, item);
      var e2 := Query(item, answer);
      SeenAppend(h1, e2);
      var h2 := Told(h1 + [e2], level, item, answer.status);
      SeenTold(h1 + [e2], level, item, answer.status);
      Expand(w, universe, expanded, idx, items, h1);
      ExpandDistinct(items, children);
      var more := items + children;
      WalkFromComplete(w, gr, universe, expanded + {KeyOf(item)}, level + 1, |items|, |items|, more, h2);
      assert more[..|items|] == items && more[|items|..] == children;
    }
  }

  // A path of the graph from one item to another.
  predicate Path(g: Graph, p: seq<Key>) {
    p != [] && forall i | 0 <= i < |p| - 1 :: p[i + 1] in KeysOf(g(p[i]))
  }

  lemma {:induction false} PathVisited(g: Graph, h: Trace, p: seq<Key>)
    requires Path(g, p) && p[0] in Visited(h) && Visited(h) <= Queried(h)
    requires forall k | k in Queried(h) :: KeysOf(g(k)) <= Visited(h)
    ensures p[|p| - 1] in Visited(h)
    decreases |p|
  {
    if |p| > 1 {
      var q := p[1..];
      assert p[1] in KeysOf(g(p[0]));
      forall i | 0 <= i < |q| - 1 ensures q[i + 1] in KeysOf(g(q[i])) {
        assert q[i] == p[i + 1] && p[i + 1 + 1] in KeysOf(g(p[i + 1]));
      }
      PathVisited(g, h, q);
    }
  }

  lemma PathExtend(g: Graph, p: seq<Key>, k: Key)
    requires Path(g, p) && k in KeysOf(g(p[|p| - 1]))
    ensures Path(g, p + [k])
  {
    var q := p + [k];
    forall i | 0 <= i < |q| - 1 ensures q[i + 1] in KeysOf(g(q[i])) {
      assert q[i] == p[i];
      if i < |p| - 1 { assert q[i + 1] == p[i + 1]; }
    }
  }

  // A listed item is one of the graph's.
  lemma ListedBelow(w: World, g: Graph, root: Item, h: Trace, j: nat, c: Item)
    requires Smooth(w, g) && j < |h| && h[j].Query? && c in h[j].answer.items
    requires Justified(w, root, h[..j], h[j])
    ensures KeyOf(c) in KeysOf(g(KeyOf(h[j].of)))
  {
    var i :| 0 <= i < |h[j].answer.items| && h[j].answer.items[i] == c;
    KeyListed(h[j].answer.items, i);
  }

  lemma JustifiedAt(w: World, root: Item, h: Trace, bound: nat, j: nat)
    requires AllJustified(w, root, h, bound) && j < |h|
    ensures Justified(w, root, h[..j], h[j])
  {
  }

  lemma EndsExtend(g: Graph, q: seq<Key>, k: Key)
    requires Path(g, q) && k in KeysOf(g(q[|q| - 1]))
    ensures var p := q + [k]; Path(g, p) && p[0] == q[0] && p[|p| - 1] == k
  {
    PathExtend(g, q, k);
  }

  lemma ParentQuery(root: Item, h: Trace, k: nat) returns (j: nat)
    requires k < |h| && h[k].Visit? && Origin(root, h[..k], h[k].level, h[k].item)
             && !(h[k].level == 0 && h[k].item == root)
    ensures 1 <= j < k && h[j].Query? && h[k].item in h[j].answer.items && h[k].level >= 1
    ensures h[j - 1] == Visit(h[k].level - 1, h[j].of, Fetched)
  {
    var g := h[..k];
    j :| 1 <= j < |g| && g[j].Query? && h[k].item in g[j].answer.items && h[k].level >= 1
         && g[j - 1] == Visit(h[k].level - 1, g[j].of, Fetched);
    assert g[j] == h[j] && g[j - 1] == h[j - 1];
  }

  // A visit at some level is the end of a path of that length from the root.
  lemma {:induction false} VisitHasPath(w: World, g: Graph, universe: set<Key>, root: Item, h: Trace, k: nat)
    returns (p: seq<Key>)
    requires Smooth(w, g) && AllJustified(w, root, h, |universe|) && k < |h| && h[k].Visit?
    ensures Path(g, p) && p[0] == KeyOf(root) && p[|p| - 1] == KeyOf(h[k].item) && |p| == h[k].level + 1
    decreases k
  {
    hide Smooth, KeysOf, AllJustified, Origin;
    var e := h[k];
    JustifiedAt(w, root, h, |universe|, k);
    if e.status != Fetched {
      p := VisitHasPath(w, g, universe, root, h, k - 2);
    } else if e.level == 0 && e.item == root {
      p := [KeyOf(root)];
    } else {
      hide Path;
      var j := ParentQuery(root, h, k);
      JustifiedAt(w, root, h, |universe|, j);
      var q := VisitHasPath(w, g, universe, root, h, j - 1);
      ListedBelow(w, g, root, h, j, e.item);
      EndsExtend(g, q, KeyOf(e.item));
      p := q + [KeyOf(e.item)];
    }
  }

  // On a graph whose answers repeat no item, with a walk function that never
  // objects: the walk visits an item if and only if it can be reached from the
  // root; and each visit is at the depth of some path to the item.
  lemma WalkVisitsExactlyTheReachable(w: World, g: Graph, universe: set<Key>, root: Item, k: Key)
    requires Finite(w, universe) && KeyOf(root) in universe && Smooth(w, g) && NoRepeats(g)
    ensures k in Visited(WalkRoot(w, universe, root).trace)
            <==> exists p :: Path(g, p) && p[0] == KeyOf(root) && p[|p| - 1] == k
    ensures WalkRoot(w, universe, root).verdict == Ok
  {
    var h := WalkRoot(w, universe, root).trace;
    KeysOfOne(root);
    WalkAtComplete(w, g, universe, {}, 0, 0, 0, [root], []);
    assert [root][..0] == [];
    if p :| Path(g, p) && p[0] == KeyOf(root) && p[|p| - 1] == k {
      PathVisited(g, h, p);
    }
    if k in Visited(h) {
      WalkIsJustified(w, universe, root);
      var i :| 0 <= i < |h| && h[i].Visit? && KeyOf(h[i].item) == k;
      var p := VisitHasPath(w, g, universe, root, h, i);
    }
  }

  // The condition on repeats is needed: when the root's answer lists one item
  // twice, each copy is taken for a loop, and nothing below it is ever asked for.
  lemma RepeatedItemIsNeverExpanded(w: World, g: Graph, universe: set<Key>, root: Item, a: Item, b: Item)
    requires Finite(w, universe) && KeyOf(root) in universe && Smooth(w, g)
    requires g(KeyOf(root)) == [a, b] && KeyOf(a) == KeyOf(b) != KeyOf(root)
    ensures Visited(WalkRoot(w, universe, root).trace) == {KeyOf(root), KeyOf(a)}
    ensures Queried(WalkRoot(w, universe, root).trace) == {KeyOf(root)}
  {
    KeysOfOne(root);
    var e1 := Visit(0, root, Fetched);
    var h1 := [] + [e1];
    var answer := w.server(h1, root);
    var e2 := Query(root, answer);
    var h2 := Told(h1 + [e2], 0, root, answer.status);
    Expand(w, universe, {}, 0, [root], h1);
    var items := [root] + [a, b];
    var deeper := {} + {KeyOf(root)};
    assert items[1] == a && items[2] == b;
    assert Duplicate(items, 1) && Duplicate(items, 2);
    NextBranch(w, universe, deeper, 1, items);
    var h3 := h2 + [Visit(1, a, Fetched)];
    assert WalkAt(w, universe, deeper, 1, 1, items, h2) == Walked(Ok, h3);
    NextBranch(w, universe, deeper, 2, items);
    var h4 := h3 + [Visit(1, b, Fetched)];
    assert WalkAt(w, universe, deeper, 1, 2, items, h3) == Walked(Ok, h4);
    assert WalkFrom(w, universe, deeper, 1, 3, items, h4) == Walked(Ok, h4);
    assert WalkFrom(w, universe, deeper, 1, 2, items, h3) == Walked(Ok, h4);
    assert WalkFrom(w, universe, deeper, 1, 1, items, h2) == Walked(Ok, h4);
    assert WalkRoot(w, universe, root).trace == h4;
    SeenAppend([], e1);
    SeenAppend(h1, e2);
    SeenTold(h1 + [e2], 0, root, answer.status);
    SeenAppend(h2, Visit(1, a, Fetched));
    SeenAppend(h3, Visit(1, b, Fetched));
    assert Visited([]) == {} && Queried([]) == {};
  }
}
