// The multiplexer's loop over the children of a message or presence: every
// handler is given the stanza from its start, from a replay buffer.
module Mux {
  import opened Wrappers
  import opened Xml
  import M = MuxModel

  // The tokens of one stanza as they come from the stream; the start token has
  // been popped already.
  class Source {
    const all: seq<Token>
    var pos: nat

    constructor (all: seq<Token>)
      requires |all| >= 1
      ensures this.all == all && pos == 1
    {
      this.all, pos := all, 1;
    }

    method Token() returns (tok: Option<Token>)
      requires pos <= |all|
      modifies this
      ensures if old(pos) < |all| then tok == Some(all[old(pos)]) && pos == old(pos) + 1
              else tok == None && pos == old(pos)
    {
      if pos == |all| { return None; }
      tok := Some(all[pos]);
      pos := pos + 1;
    }
  }

  // Reads from a buffer first and records what it reads beyond it.
  class BufReader {
    const r: Source
    var buf: seq<Token>
    var offset: nat

    constructor (r: Source, buf: seq<Token>, offset: nat)
      ensures this.r == r && this.buf == buf && this.offset == offset
    {
      this.r, this.buf, this.offset := r, buf, offset;
    }

    // The buffer holds all that was read from the source.
    predicate Valid()
      reads this, r
    {
      r.pos <= |r.all| && buf == r.all[..r.pos] && offset <= |buf|
    }

    method Token() returns (tok: Option<Token>)
      requires Valid()
      modifies this, r
      ensures Valid() && r.pos >= old(r.pos)
      ensures if old(offset) < |r.all| then tok == Some(r.all[old(offset)]) && offset == old(offset) + 1
              else tok == None && offset == old(offset)
      ensures r.pos == if offset > old(r.pos) then offset else old(r.pos)
    {
      if offset < |buf| {
        var o := offset;
        offset := offset + 1;
        return Some(buf[o]);
      }
      tok := r.Token();
      if tok.Some? {
        buf := buf + [tok.value];
        offset := offset + 1;
      }
    }
  }

  // Iterates over the children of the element whose start was popped.
  class Iter {
    const r: BufReader
    var inside: bool

    constructor (r: BufReader)
      ensures this.r == r && !inside
      ensures r.offset <= |r.r.all| ==> Position() == r.offset
    {
      this.r, inside := r, false;
    }

    // Where the next child, or the parent's end, will be looked for.
    function Position(): nat
      requires r.offset <= |r.r.all|
      reads this, r
    {
      if inside then Behind(r.r.all, r.offset, 1) else r.offset
    }

    // Consume the rest of the current child.
    method Finish()
      requires r.Valid()
      modifies this, r, r.r
      ensures r.Valid() && !inside && r.offset == old(Position())
    {
      if inside {
        var d := 1;
        while true
          invariant r.Valid() && d >= 1
          invariant Behind(r.r.all, r.offset, d) == old(Position())
          decreases |r.r.all| - r.offset
        {
          var tok := r.Token();
          if tok == None { break; }
          if tok.value.Start? {
            d := d + 1;
          } else if tok.value.End? {
            if d == 1 { break; }
            d := d - 1;
          }
        }
      }
      inside := false;
    }

    // Move to the next child; cur is its start token, or None for text.
    method Next() returns (more: bool, cur: Option<Token>)
      requires r.Valid()
      modifies this, r, r.r
      ensures r.Valid()
      ensures var all, i := r.r.all, old(Position());
              && r.offset == (if i < |all| then i + 1 else i)
              && more == (i < |all| && !all[i].End?)
              && inside == (more && all[i].Start?)
              && cur == (if inside then Some(all[i]) else None)
              && (more ==> Position() == if inside then Behind(all, i + 1, 1) else i + 1)
    {
      Finish();
      var tok := r.Token();
      cur := None;
      if tok == None || tok.value.End? {
        return false, None;
      }
      if tok.value.Start? {
        cur := tok;
        inside := true;
      }
      more := true;
    }
  }

  // A handler call: the child it was chosen for, or None for the wildcard of an
  // empty stanza, and the tokens its reads returned.
  datatype Dispatch = Dispatch(payload: Option<Name>, offered: seq<Token>)

  // The stanza's tokens from its start element on.
  function Offered(s: seq<Token>, n: nat): seq<Token> { s[..if n < |s| then n else |s|] }

  // A handler that reads up to n tokens.
  method Handle(t: BufReader, n: nat) returns (got: seq<Token>)
    requires t.Valid() && t.offset == 0
    modifies t, t.r
    ensures t.Valid() && t.r.pos >= old(t.r.pos)
    ensures got == Offered(t.r.all, n)
  {
    got := [];
    while |got| < n
      invariant t.Valid() && t.r.pos >= old(t.r.pos)
      invariant |got| <= n && |got| == t.offset <= |t.r.all| && got == t.r.all[..|got|]
    {
      var tok := t.Token();
      if tok == None { break; }
      got := got + [tok.value];
    }
  }

  // Call a handler through a replay buffer of its own; what it read beyond the
  // buffer is kept.
  method Replay(r: BufReader, n: nat) returns (got: seq<Token>)
    requires r.Valid()
    modifies r, r.r
    ensures r.Valid() && r.offset == old(r.offset)
    ensures got == Offered(r.r.all, n)
  {
    var br := new BufReader(r.r, r.buf, 0);
    got := Handle(br, n);
    r.buf := br.buf;
  }

  // The handler calls for the named children.
  function Calls(s: seq<Token>, names: seq<Name>, appetite: nat -> nat): (ds: seq<Dispatch>)
    ensures |ds| == |names|
  {
    if names == [] then []
    else
      var last := |names| - 1;
      Calls(s, names[..last], appetite) + [Dispatch(Some(names[last]), Offered(s, appetite(last)))]
  }

  // The calls a stanza leads to: one for each child, or a single one without a
  // payload if the stanza is empty. The n-th handler reads appetite(n) tokens.
  function Expected(s: seq<Token>, appetite: nat -> nat): seq<Dispatch>
    requires |s| >= 1
  {
    if |s| == 2 then [Dispatch(None, Offered(s, appetite(0)))] else Calls(s, M.Children(s), appetite)
  }

  lemma CallsOfNone(s: seq<Token>, appetite: nat -> nat)
    ensures Calls(s, [], appetite) == []
  {
  }

  lemma CallsAppend(s: seq<Token>, names: seq<Name>, name: Name, appetite: nat -> nat)
    ensures Calls(s, names + [name], appetite)
            == Calls(s, names, appetite) + [Dispatch(Some(name), Offered(s, appetite(|names|)))]
  {
    assert (names + [name])[..|names|] == names;
  }

  // The k-th handler called is the one for the k-th child, and it is offered
  // the stanza from its start element on.
  lemma {:induction false} CallsAt(s: seq<Token>, names: seq<Name>, appetite: nat -> nat, k: nat)
    requires k < |names|
    ensures Calls(s, names, appetite)[k] == Dispatch(Some(names[k]), Offered(s, appetite(k)))
    decreases |names|
  {
    var last := |names| - 1;
    if k < last { CallsAt(s, names[..last], appetite, k); }
  }

  // What a stanza leads to: with nothing in it, one call of the wildcard handler;
  // otherwise one call for each start token at depth one, in order, and none if it
  // holds text alone. Each is offered the stanza's tokens from the first on, as
  // many as it reads.
  lemma StanzaCalls(s: seq<Token>, appetite: nat -> nat)
    requires IsElement(s)
    ensures var ds := Expected(s, appetite); var names := M.AtDepthOne(s, 1, 1);
            && (|s| == 2 ==> |ds| == 1 && ds[0].payload == None)
            && (|s| > 2 ==> |ds| == |names| && forall k | 0 <= k < |ds| :: ds[k].payload == Some(names[k]))
            && forall k | 0 <= k < |ds| ::
                 && |ds[k].offered| == (if appetite(k) < |s| then appetite(k) else |s|)
                 && forall j | 0 <= j < |ds[k].offered| :: ds[k].offered[j] == s[j]
  {
    hide Behind, Closes, M.AtDepthOne, Calls;
    M.ChildrenAtDepthOne(s, 1);
    var names := M.Children(s);
    if |s| > 2 {
      forall k | 0 <= k < |names|
        ensures Calls(s, names, appetite)[k] == Dispatch(Some(names[k]), Offered(s, appetite(k)))
      {
        CallsAt(s, names, appetite, k);
      }
    }
  }

  predicate AnyFails(fails: nat -> bool, n: nat) { exists i: nat | i < n :: fails(i) }

  lemma AnyFailsStep(fails: nat -> bool, n: nat)
    ensures !AnyFails(fails, 0)
    ensures AnyFails(fails, n + 1) <==> AnyFails(fails, n) || fails(n)
  {
  }

  // One child's handler call, added to the calls made so far.
  method DispatchChild(r: BufReader, before: seq<Dispatch>, ghost names: seq<Name>, name: Name,
                       appetite: nat -> nat, fails: nat -> bool) returns (ds: seq<Dispatch>, err: bool)
    requires r.Valid() && before == Calls(r.r.all, names, appetite)
    modifies r, r.r
    ensures r.Valid() && r.offset == old(r.offset)
    ensures ds == Calls(r.r.all, names + [name], appetite) && |ds| == |before| + 1
    ensures AnyFails(fails, |ds|) <==> AnyFails(fails, |before|) || err
  {
    var got := Replay(r, appetite(|before|));
    err := fails(|before|);
    ds := before + [Dispatch(Some(name), got)];
    CallsAppend(r.r.all, names, name, appetite);
    AnyFailsStep(fails, |before|);
  }

  // However far each handler reads and whichever fail: each is offered the
  // stanza from its start, in order, nothing lost or repeated; the children
  // dispatched are those of the stanza; an empty stanza triggers the wildcard
  // handler once; and an error is reported if and only if a handler failed.
  method ForChildren(t: Source, appetite: nat -> nat, fails: nat -> bool) returns (ds: seq<Dispatch>, failed: bool)
    requires IsElement(t.all) && t.pos == 1
    modifies t
    ensures ds == Expected(t.all, appetite)
    ensures failed == AnyFails(fails, |ds|)
    ensures t.pos == |t.all|
  {
    hide Behind, Closes, M.ChildrenFrom, Calls, AnyFails, Offered;
    AnyFailsStep(fails, 0);
    var r := new BufReader(t, [t.all[0]], 1);
    var iter := new Iter(r);
    ghost var names: seq<Name> := [];
    ds, failed := [], false;
    CallsOfNone(t.all, appetite);
    while true
      invariant fresh(r) && fresh(iter) && r.r == t && iter.r == r && r.Valid() && r.offset >= 1
      invariant Closes(t.all, iter.Position(), 1) && Behind(t.all, iter.Position(), 1) == |t.all|
      invariant names + M.ChildrenFrom(t.all, iter.Position()) == M.Children(t.all)
      invariant ds == Calls(t.all, names, appetite)
      invariant |t.all| == 2 ==> names == [] && r.offset == 1 && !iter.inside
      invariant failed == AnyFails(fails, |ds|)
      decreases |t.all| - r.offset
    {
      M.ChildStep(t.all, iter.Position());
      var more, start := iter.Next();
      if !more {
        assert names + [] == names;
        break;
      }
      if start == None {
        continue;
      }
      var err;
      ds, err := DispatchChild(r, ds, names, start.value.name, appetite, fails);
      failed := failed || err;
      names := names + [start.value.name];
    }
    assert names == M.Children(t.all) && |r.buf| == |t.all|;
    if !failed && |r.buf| == 2 {
      r.offset := 0;
      var got := Handle(r, appetite(0));
      ds := [Dispatch(None, got)];
      failed := fails(0);
    }
  }
}
