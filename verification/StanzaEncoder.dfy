// The session's stanza encoder with its depth counter.
module StanzaEncoder {
  import opened Xml
  import M = StanzaModel

  class Encoder {
    const c: M.Config
    var depth: int
    var out: seq<Token>

    constructor (c: M.Config)
      ensures this.c == c && depth == 0 && out == []
    {
      this.c, depth, out := c, 0, [];
    }

    // id is a fresh random id, used if the stanza has none.
    method EncodeToken(t: Token, id: string)
      modifies this
      ensures depth == M.DepthAfter(old(depth), t)
      ensures out == old(out) + [M.Fix(c, old(depth), t, id)]
    {
      var tok := t;
      match t {
        case Start(name, attrs) =>
          depth := depth + 1;
          if depth == 1 && M.IsStanzaEmptySpace(name) {
            if tok.name.space == "" {
              tok := tok.(name := tok.name.(space := c.ns));
            }
            var kept := Complete(attrs, id);
            tok := tok.(attrs := kept);
          }
          var unique := WithoutXmlns(tok);
          tok := tok.(attrs := unique);
        case End(name) =>
          if depth == 1 && name.space == "" && M.IsStanzaEmptySpace(name) {
            tok := End(name.(space := c.ns));
          }
          depth := depth - 1;
        case Text(_) =>
      }
      out := out + [tok];
    }

    // Drop empty ids and addresses, then add what is missing.
    method Complete(attrs: seq<Attr>, id: string) returns (kept: seq<Attr>)
      ensures kept == M.FillIn(M.DropEmpty(attrs), c.from, id)
    {
      kept := [];
      var foundID, foundFrom := false, false;
      var i := 0;
      while i < |attrs|
        invariant 0 <= i <= |attrs|
        invariant kept == M.DropEmpty(attrs[..i])
        invariant foundID == M.Has(kept, M.Id) && foundFrom == M.Has(kept, M.From)
      {
        var attr := attrs[i];
        assert attrs[..i + 1] == attrs[..i] + [attr];
        M.FilterAppend(M.NotEmpty, attrs[..i], [attr]);
        M.FilterOne(M.NotEmpty, attr);
        HasAppend(kept, attr);
        if M.NotEmpty(attr) {
          if M.RoleOf(attr) == M.Id {
            foundID := true;
          } else if M.RoleOf(attr) == M.From {
            foundFrom := true;
          }
          kept := kept + [attr];
        }
        i := i + 1;
      }
      assert attrs[..i] == attrs;
      if c.from != "" && !foundFrom {
        kept := kept + [Attr(Name("", "from"), c.from)];
      }
      if !foundID {
        kept := kept + [Attr(Name("", "id"), id)];
      }
    }

    static lemma HasAppend(kept: seq<Attr>, a: Attr)
      ensures forall role :: M.Has(kept + [a], role) <==> M.Has(kept, role) || M.RoleOf(a) == role
    {
      forall role ensures M.Has(kept + [a], role) <==> M.Has(kept, role) || M.RoleOf(a) == role {
        var s := kept + [a];
        assert s[|kept|] == a && forall i | 0 <= i < |kept| :: s[i] == kept[i];
      }
    }

    // The name carries the namespace; an xmlns attribute would repeat it.
    static method WithoutXmlns(tok: Token) returns (kept: seq<Attr>)
      requires tok.Start?
      ensures kept == if tok.name.space != "" then M.DropXmlns(tok.attrs) else tok.attrs
    {
      kept := [];
      var i := 0;
      while i < |tok.attrs|
        invariant 0 <= i <= |tok.attrs|
        invariant kept == if tok.name.space != "" then M.DropXmlns(tok.attrs[..i]) else tok.attrs[..i]
      {
        var attr := tok.attrs[i];
        assert tok.attrs[..i + 1] == tok.attrs[..i] + [attr];
        M.FilterAppend(M.NotXmlns, tok.attrs[..i], [attr]);
        M.FilterOne(M.NotXmlns, attr);
        if !(M.RoleOf(attr) == M.Xmlns && tok.name.space != "") {
          kept := kept + [attr];
        }
        i := i + 1;
      }
      assert tok.attrs[..i] == tok.attrs;
    }
  }
}
