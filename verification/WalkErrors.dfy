// When the walk over discovery items goes into an item whose query failed.
module WalkErrors {
  import opened Walk

  // The query at k was answered with an error that is not ignored.
  predicate FailedAt(g: Trace, k: nat)
    requires k < |g|
  {
    g[k].Query? && g[k].answer.status.Broken?
  }

  // After the query at k and the report of its error the walk goes one level
  // down, to the first item that was listed before the error.
  predicate Entered(g: Trace, k: nat)
    requires k + 1 < |g| && g[k].Query? && g[k + 1].Visit?
  {
    && k + 2 < |g| && g[k + 2].Visit? && g[k + 2].level == g[k + 1].level + 1
    && g[k].answer.items != [] && g[k + 2].item == g[k].answer.items[0]
  }

  // The walk does not leave the level it is at after the report.
  predicate Stays(g: Trace, k: nat)
    requires k + 1 < |g| && g[k + 1].Visit?
  {
    k + 2 < |g| ==> g[k + 2].Visit? && g[k + 2].level <= g[k + 1].level
  }

  // Something was listed, and the walk function returned nil to the report.
  ghost predicate MayEnter(w: World, g: Trace, k: nat)
    requires k + 1 < |g| && g[k].Query? && g[k + 1].Visit?
  {
    g[k].answer.items != [] && w.fn(g[..k + 1], g[k + 1].level, g[k + 1].item, g[k + 1].status) == Ok
  }

  // A failed query is reported at once, to the item it was for; and the walk goes
  // into that item if and only if it may.
  ghost predicate Handled(w: World, g: Trace, k: nat)
    requires k < |g| && g[k].Query?
  {
    && k + 1 < |g| && g[k + 1].Visit? && g[k + 1].item == g[k].of && g[k + 1].status == g[k].answer.status
    && (if MayEnter(w, g, k) then Entered(g, k) else Stays(g, k))
  }

  // The part of g behind h belongs to walks at this level: it starts with a visit
  // at it, no visit is above it, and every failed query in it was handled.
  ghost predicate Within(w: World, level: nat, h: Trace, g: Trace) {
    && h <= g && (|h| < |g| ==> g[|h|].Visit? && g[|h|].level == level)
    && (forall k | |h| <= k < |g| && g[k].Visit? :: g[k].level >= level)
    && (forall k | |h| <= k < |g| && FailedAt(g, k) :: Handled(w, g, k))
  }

  lemma HandledLonger(w: World, g: Trace, more: Trace, k: nat)
    requires g <= more && k < |g| && g[k].Query? && Handled(w, g, k)
    requires |g| < |more| ==> more[|g|].Visit? && more[|g|].level <= g[k + 1].level
    ensures Handled(w, more, k)
  {
    assert more[..k + 1] == g[..k + 1];
    assert more[k] == g[k] && more[k + 1] == g[k + 1];
    if k + 2 < |g| { assert more[k + 2] == g[k + 2]; }
  }

  lemma NextIsReport(w: World, g: Trace, k: nat)
    requires k < |g| && g[k].Query? && Handled(w, g, k)
    ensures k + 1 < |g| && g[k + 1].Visit?
  {
  }

  // One walk after the other at the same level.
  lemma WithinOn(w: World, level: nat, h: Trace, g: Trace, more: Trace)
    requires Within(w, level, h, g) && Within(w, level, g, more) && |h| < |g|
    ensures Within(w, level, h, more)
  {
    hide Handled;
    forall k | |h| <= k < |more| && FailedAt(more, k) ensures Handled(w, more, k) {
      if k < |g| {
        assert more[k] == g[k];
        NextIsReport(w, g, k);
        HandledLonger(w, g, more, k);
      }
    }
    forall k | |h| <= k < |more| && more[k].Visit? ensures more[k].level >= level {
      if k < |g| { assert more[k] == g[k]; }
    }
  }

  // A query for the item just visited, the report of its error if it failed, and
  // the walks below it, if there are any.
  lemma WithinBelow(w: World, level: nat, h: Trace, item: Item, answer: Answer, h3: Trace, g: Trace)
    requires var h2 := h + [Visit(level, item, Fetched), Query(item, answer)];
             h3 == if answer.status.Broken? then h2 + [Visit(level, item, answer.status)] else h2
    requires Within(w, level + 1, h3, g)
    requires |h3| < |g| ==> answer.items != [] && g[|h3|].item == answer.items[0]
    requires answer.status.Broken? ==>
               (|h3| < |g| <==> answer.items != [] && w.fn(h3[..|h3| - 1], level, item, answer.status) == Ok)
    ensures Within(w, level, h, g)
  {
    var k := |h| + 1;
    assert g[|h|] == h3[|h|] && g[k] == h3[k];
    assert answer.status.Broken? ==> g[k + 1] == h3[k + 1] && g[..k + 1] == h3[..|h3| - 1];
    forall m | |h| <= m < |g| && g[m].Visit? ensures g[m].level >= level {
      if m < |h3| { assert g[m] == h3[m]; }
    }
    forall m | |h| <= m < |g| && FailedAt(g, m) ensures Handled(w, g, m) {
      if m < |h3| { assert g[m] == h3[m] && m == k; }
    }
  }

  lemma OneVisit(w: World, level: nat, h: Trace, item: Item)
    ensures Within(w, level, h, h + [Visit(level, item, Fetched)])
  {
  }

  lemma StartsWith(w: World, level: nat, h: Trace, g: Trace)
    requires Within(w, level, h, g)
    ensures h <= g
  {
  }

  lemma NothingWithin(w: World, level: nat, h: Trace)
    ensures Within(w, level, h, h)
  {
  }

  lemma FirstOf(w: World, level: nat, h: Trace, g: Trace)
    requires Within(w, level, h, g) && |h| < |g|
    ensures g[|h|].Visit?
  {
  }

  lemma {:induction false} WalkFromWithin(w: World, universe: set<Key>, expanded: set<Key>, level: nat, n: nat,
                                          items: seq<Item>, h: Trace)
    requires Branch(w, universe, expanded, n, items)
    ensures var g := WalkFrom(w, universe, expanded, level, n, items, h).trace;
            && Within(w, level, h, g) && (|h| < |g| <==> n < |items|) && |h| <= |g|
            && (n < |items| ==> g[|h|] == Visit(level, items[n], Fetched))
    decreases universe - expanded, 1 + |items| - n
  {
    hide Finite, KeysOf, Within;
    if n == |items| {
      NothingWithin(w, level, h);
    } else {
      WalkAtWithin(w, universe, expanded, level, n, items, h);
      var r := WalkAt(w, universe, expanded, level, n, items, h);
      FirstOf(w, level, h, r.trace);
      if !r.verdict.Stop? {
        NextBranch(w, universe, expanded, n, items);
        WalkFromWithin(w, universe, expanded, level, n + 1, items, r.trace);
        var g := WalkFrom(w, universe, expanded, level, n, items, h).trace;
        StartsWith(w, level, r.trace, g);
        WithinOn(w, level, h, r.trace, g);
        assert g[|h|] == r.trace[|h|];
      }
    }
  }

  lemma {:induction false} WalkAtWithin(w: World, universe: set<Key>, expanded: set<Key>, level: nat, idx: nat,
                                        items: seq<Item>, h: Trace)
    requires Branch(w, universe, expanded, idx, items) && idx < |items|
    ensures var g := WalkAt(w, universe, expanded, level, idx, items, h).trace;
            Within(w, level, h, g) && |h| < |g| && g[|h|] == Visit(level, items[idx], Fetched)
    decreases universe - expanded, 0
  {
    hide Finite, KeysOf, Duplicate, Within;
    var item := items[idx];
    var e1 := Visit(level, item, Fetched);
    var h1 := h + [e1];
    OneVisit(w, level, h, item);
    if w.fn(h, level, item, Fetched) == Ok && !Duplicate(items, idx) {
      var answer := w.server(h1, item);
      var h2 := h1 + [Query(item, answer)];
      assert h2 == h + [e1, Query(item, answer)];
      Expand(w, universe, expanded, idx, items, h1);
      var more, deeper := items + answer.items, expanded + {KeyOf(item)};
      var h3 := if answer.status.Broken? then h2 + [Visit(level, item, answer.status)] else h2;
      assert answer.status.Broken? ==> h3[..|h3| - 1] == h2;
      var g := WalkAt(w, universe, expanded, level, idx, items, h).trace;
      if answer.status.Broken? && w.fn(h2, level, item, answer.status) != Ok {
        NothingWithin(w, level + 1, h3);
      } else {
        WalkFromWithin(w, universe, deeper, level + 1, |items|, more, h3);
      }
      WithinBelow(w, level, h, item, answer, h3, g);
      StartsWith(w, level + 1, h3, g);
      assert g[|h|] == h3[|h|];
    }
  }

  // The walk function's error is said to signal that the walk will not go into the
  // item. Whatever the servers answer and the function returns: every failed query
  // is reported at once, and the walk then goes into the item, to what was listed
  // before the error, if and only if something was and the function returned nil.
  lemma FailedQueriesAreHandled(w: World, universe: set<Key>, root: Item, k: nat)
    requires Finite(w, universe) && KeyOf(root) in universe
    requires var g := WalkRoot(w, universe, root).trace; k < |g| && FailedAt(g, k)
    ensures Handled(w, WalkRoot(w, universe, root).trace, k)
  {
    hide Handled, Finite, KeysOf;
    KeysOfOne(root);
    WalkAtWithin(w, universe, {}, 0, 0, [root], []);
  }

  // A root whose query fails after one item, and a function that returns nil.
  function HalfAnswered(root: Item, child: Item): World {
    World((h, level, item, status) => Ok,
          (h, item) => if item == root then Answer([child], Broken(0)) else Answer([], Fetched))
  }

  // The child is visited although the query for its parent failed.
  lemma FailedItemIsEntered(root: Item, child: Item)
    requires KeyOf(root) != KeyOf(child)
    ensures var w, universe := HalfAnswered(root, child), {KeyOf(root), KeyOf(child)};
            && Finite(w, universe)
            && var g := WalkRoot(w, universe, root).trace;
               |g| > 3 && FailedAt(g, 1) && g[3] == Visit(1, child, Fetched)
  {
    var w, universe := HalfAnswered(root, child), {KeyOf(root), KeyOf(child)};
    KeysOfOne(root);
    var h1 := [] + [Visit(0, root, Fetched)];
    var h2 := h1 + [Query(root, w.server(h1, root))];
    var h3 := h2 + [Visit(0, root, Broken(0))];
    Expand(w, universe, {}, 0, [root], h1);
    var more, deeper := [root] + [child], {} + {KeyOf(root)};
    WalkFromWithin(w, universe, deeper, 1, 1, more, h3);
    var g := WalkRoot(w, universe, root).trace;
    assert g == WalkFrom(w, universe, deeper, 1, 1, more, h3).trace;
    StartsWith(w, 1, h3, g);
    assert |h3| == 3 && g[1] == h3[1] && more[1] == child;
  }
}
