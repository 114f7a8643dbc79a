// Turning a URI into an IRI (uri/iri.go; RFC 3987, section 3.2): octets that are
// not UTF-8 and bidirectional formatting characters are percent-encoded.
module Iri {
  import opened Wrappers
  import opened Utf8

  type Text = seq<byte>

  const PERCENT: byte := 0x25

  predicate Disallowed(r: int, wid: nat) {
    if r == RUNE_ERROR then wid == 1
    else r == 0x200E || r == 0x200F || 0x202A <= r <= 0x202E
  }

  function Digit(v: int): byte
    requires 0 <= v < 16
  {
    if v < 10 then 0x30 + v else 0x41 + v - 10
  }

  function Encoded(w: Text): Text {
    if w == [] then [] else [PERCENT, Digit(w[0] / 16), Digit(w[0] % 16)] + Encoded(w[1..])
  }

  // The plain map: each rune in turn, encoded if it may not occur.
  function Escape(s: Text): Text {
    if s == [] then []
    else
      var d := Decode(s);
      (if Disallowed(d.rune, d.size) then Encoded(s[..d.size]) else s[..d.size]) + Escape(s[d.size..])
  }

  // Nothing in s needs encoding.
  predicate Clean(s: Text) {
    s == [] || (var d := Decode(s); !Disallowed(d.rune, d.size) && Clean(s[d.size..]))
  }

  function Prepend(w: Text, t: Option<Text>): Option<Text> {
    if t.None? then None else Some(w + t.value)
  }

  predicate IsHex(b: byte) { 0x30 <= b <= 0x39 || 0x41 <= b <= 0x46 || 0x61 <= b <= 0x66 }

  function HexValue(b: byte): (v: int)
    requires IsHex(b)
    ensures 0 <= v < 16
  {
    if b <= 0x39 then b - 0x30 else if b <= 0x46 then b - 0x41 + 10 else b - 0x61 + 10
  }

  // url.PathUnescape; None stands for its error.
  function Unescape(s: Text): Option<Text> {
    if s == [] then Some([])
    else if s[0] != PERCENT then Prepend([s[0]], Unescape(s[1..]))
    else if |s| < 3 || !IsHex(s[1]) || !IsHex(s[2]) then None
    else Prepend([HexValue(s[1]) * 16 + HexValue(s[2])], Unescape(s[3..]))
  }

  function ToIri(u: Text, needsUnescape: bool): Option<Text> {
    if !needsUnescape then Some(Escape(u))
    else
      var raw := Unescape(u);
      if raw.None? then None else Some(Escape(raw.value))
  }

  // ----- Decoding -----

  // A decoded rune does not depend on what follows it.
  lemma DecodeIsLocal(s: Text, t: Text)
    requires s != [] && Decode(s) != INVALID
    ensures Decode(s[..Decode(s).size] + t) == Decode(s)
  {
    var n := Announced(s[0]);
    var r := s[..n] + t;
    assert forall i | 0 <= i < n :: r[i] == s[i];
  }

  // The bytes of a rune are either one ASCII byte or free of ASCII.
  lemma RuneBytes(s: Text)
    requires s != []
    ensures s[0] < RUNE_SELF ==> Decode(s) == Decoded(s[0], 1)
    ensures s[0] >= RUNE_SELF ==> forall i | 0 <= i < Decode(s).size :: s[i] >= RUNE_SELF
  {
  }

  lemma EscapeNothing()
    ensures Escape([]) == []
  {
  }

  lemma EscapeHead(s: Text)
    requires s != []
    ensures s[0] < RUNE_SELF ==> Escape(s) == [s[0]] + Escape(s[1..])
    ensures s[0] >= RUNE_SELF ==> Escape(s) != [] && !IsHex(Escape(s)[0])
  {
    RuneBytes(s);
  }

  // ----- The method refines the map -----

  // The first loop tests a rune as if it had been one byte long; a rune that
  // passes that test is allowed at its own length.
  lemma SizeMatters(d: Decoded)
    ensures !Disallowed(d.rune, 1) ==> !Disallowed(d.rune, d.size)
  {
  }

  lemma EscapeUnfolds(s: Text)
    requires s != []
    ensures var d := Decode(s); var w := s[..d.size];
            Escape(s) == (if Disallowed(d.rune, d.size) then Encoded(w) else w) + Escape(s[d.size..])
  {
    hide Decode, Encoded, Disallowed;
  }

  lemma EscapeStep(s: Text, i: nat)
    requires i < |s|
    ensures var d := Decode(s[i..]); var w := s[i..i + d.size];
            Escape(s[i..]) == (if Disallowed(d.rune, d.size) then Encoded(w) else w) + Escape(s[i + d.size..])
  {
    hide Decode, Encoded, Disallowed, Escape;
    EscapeUnfolds(s[i..]);
    var d := Decode(s[i..]);
    assert s[i..][d.size..] == s[i + d.size..] && s[i..][..d.size] == s[i..i + d.size];
  }

  lemma Joined(text: Text, i: nat, n: nat, x: Text, y: Text)
    requires i <= n <= |text| && x == text[i..n] + y
    ensures text[..i] + x == text[..n] + y
  {
    assert text[..n] == text[..i] + text[i..n];
  }

  lemma StepAllowed(text: Text, i: nat, d: Decoded)
    requires i < |text| && d == Decode(text[i..]) && !Disallowed(d.rune, d.size)
    ensures text[..i] + Escape(text[i..]) == text[..i + d.size] + Escape(text[i + d.size..])
  {
    hide Decode, Encoded, Disallowed, Escape;
    EscapeStep(text, i);
    var n := i + d.size;
    Joined(text, i, n, Escape(text[i..]), Escape(text[n..]));
  }

  lemma EncodedStep(w: Text, j: nat)
    requires j < |w|
    ensures Encoded(w[j..]) == [PERCENT, Digit(w[j] / 16), Digit(w[j] % 16)] + Encoded(w[j + 1..])
  {
    assert w[j..][1..] == w[j + 1..];
  }

  lemma EncodedNothing()
    ensures Encoded([]) == []
  {
  }

  method HexOf(w: Text) returns (r: Text)
    ensures r == Encoded(w)
  {
    hide Encoded, Digit;
    r := [];
    var j := 0;
    assert w[0..] == w;
    while j < |w|
      invariant 0 <= j <= |w| && r + Encoded(w[j..]) == Encoded(w)
    {
      EncodedStep(w, j);
      var hex := [PERCENT, Digit(w[j] / 16), Digit(w[j] % 16)];
      Regroup(r, hex, Encoded(w[j + 1..]));
      r := r + hex;
      j := j + 1;
    }
    assert w[j..] == [];
    EncodedNothing();
  }

  // The rest, once there is something to escape.
  method EscapeRest(s: Text, before: Text) returns (b: Text)
    ensures b == before + Escape(s)
  {
    hide Decode, Encoded, Disallowed, Escape;
    b := before;
    var i := 0;
    assert s[0..] == s;
    while i < |s|
      invariant 0 <= i <= |s|
      invariant before + Escape(s) == b + Escape(s[i..])
      decreases |s| - i
    {
      var c := s[i];
      if c < RUNE_SELF {
        EscapeHead(s[i..]);
        assert s[i..][1..] == s[i + 1..];
        Regroup(b, [c], Escape(s[i + 1..]));
        i := i + 1;
        b := b + [c];
      } else {
        var d := Decode(s[i..]);
        EscapeStep(s, i);
        var w := s[i..i + d.size];
        if Disallowed(d.rune, d.size) { w := HexOf(w); }
        Regroup(b, w, Escape(s[i + d.size..]));
        b := b + w;
        i := i + d.size;
      }
    }
    assert s[i..] == [];
    EscapeNothing();
  }

  // A buffer that was never grown tells the fast path that nothing changed.
  method EscapeInvalidUTF8(text: Text) returns (r: Text)
    ensures r == Escape(text)
  {
    hide Decode, Encoded, Disallowed, Escape;
    var s, b: Text, grown := text, [], false;
    var i := 0;
    while i < |s|
      invariant 0 <= i <= |s| && s == text && b == [] && !grown
      invariant Escape(text) == text[..i] + Escape(text[i..])
    {
      var c := Decode(s[i..]);
      if Disallowed(c.rune, 1) {
        var d := Decode(s[i..]);
        if Disallowed(d.rune, d.size) {
          b, grown := s[..i], true;
          s := s[i..];
          break;
        }
      }
      SizeMatters(c);
      StepAllowed(text, i, c);
      i := i + c.size;
    }
    if !grown {
      EscapeNothing();
      assert text[..i] == text && text[i..] == [];
      return s;
    }
    r := EscapeRest(s, b);
  }

  // ----- The result -----

  lemma AsciiIsClean(b: byte, t: Text)
    requires b < RUNE_SELF && Clean(t)
    ensures Clean([b] + t)
  {
    RuneBytes([b] + t);
  }

  lemma TripletIsClean(hi: byte, lo: byte, t: Text)
    requires Clean(t) && hi < RUNE_SELF && lo < RUNE_SELF
    ensures Clean([PERCENT, hi, lo] + t)
  {
    hide Clean;
    AsciiIsClean(lo, t);
    AsciiIsClean(hi, [lo] + t);
    AsciiIsClean(PERCENT, [hi] + ([lo] + t));
    assert [PERCENT] + ([hi] + ([lo] + t)) == [PERCENT, hi, lo] + t;
  }

  lemma {:induction false} EncodedIsClean(w: Text, t: Text)
    requires Clean(t)
    ensures Clean(Encoded(w) + t)
  {
    if w == [] {
      assert Encoded(w) + t == t;
    } else {
      EncodedIsClean(w[1..], t);
      TripletIsClean(Digit(w[0] / 16), Digit(w[0] % 16), Encoded(w[1..]) + t);
      Regroup([PERCENT, Digit(w[0] / 16), Digit(w[0] % 16)], Encoded(w[1..]), t);
    }
  }

  lemma {:induction false} EscapeIsClean(s: Text)
    ensures Clean(Escape(s))
    decreases |s|
  {
    if s != [] {
      var d := Decode(s);
      EscapeIsClean(s[d.size..]);
      if Disallowed(d.rune, d.size) {
        EncodedIsClean(s[..d.size], Escape(s[d.size..]));
      } else {
        DecodeIsLocal(s, Escape(s[d.size..]));
        assert (s[..d.size] + Escape(s[d.size..]))[d.size..] == Escape(s[d.size..]);
      }
    }
  }

  lemma {:induction false} CleanIsValid(s: Text)
    requires Clean(s)
    ensures ValidUtf8(s)
    decreases |s|
  {
    if s != [] { CleanIsValid(s[Decode(s).size..]); }
  }

  lemma {:induction false} EncodedLength(w: Text)
    ensures |Encoded(w)| == 3 * |w|
  {
    if w != [] { EncodedLength(w[1..]); }
  }

  lemma {:induction false} EscapeLength(s: Text)
    ensures |Escape(s)| >= |s|
    ensures Clean(s) ==> Escape(s) == s
    ensures Escape(s) == s ==> Clean(s)
    decreases |s|
  {
    if s != [] {
      var d := Decode(s);
      EscapeLength(s[d.size..]);
      EncodedLength(s[..d.size]);
      assert s == s[..d.size] + s[d.size..];
    }
  }

  // Escaping gives well-formed UTF-8 with nothing left to escape, changes a text
  // exactly if something in it has to be, and does nothing the second time.
  lemma EscapeIsCanonical(s: Text)
    ensures Clean(Escape(s)) && ValidUtf8(Escape(s))
    ensures Escape(s) == s <==> Clean(s)
    ensures Escape(Escape(s)) == Escape(s)
  {
    EscapeIsClean(s);
    CleanIsValid(Escape(s));
    EscapeLength(s);
    EscapeLength(Escape(s));
  }

  // ----- What is escaped, rune by rune -----

  // The bidirectional formatting characters of section 4.1 of RFC 3987.
  const BIDI: set<int> := {0x200E, 0x200F, 0x202A, 0x202B, 0x202C, 0x202D, 0x202E}

  const HEX := "0123456789ABCDEF"

  lemma DigitIsHex(v: int)
    requires 0 <= v < 16
    ensures Digit(v) == HEX[v] as int
  {
  }

  // A byte is encoded as a percent sign and two digits, in upper case.
  lemma {:induction false} EncodedAt(w: Text, i: nat)
    requires i < |w|
    ensures |Encoded(w)| == 3 * |w|
    ensures var e := Encoded(w);
            e[3 * i] == '%' as int && e[3 * i + 1] == HEX[w[i] / 16] as int && e[3 * i + 2] == HEX[w[i] % 16] as int
    decreases |w|
  {
    EncodedLength(w);
    DigitIsHex(w[i] / 16);
    DigitIsHex(w[i] % 16);
    if i > 0 {
      EncodedAt(w[1..], i - 1);
      EncodedLength(w[1..]);
      assert w[1..][i - 1] == w[i];
    }
  }

  lemma RuneWidth(r: int)
    requires Scalar(r)
    ensures Disallowed(r, |EncodeRune(r)|) <==> r in BIDI
  {
  }

  // A rune is kept if it is none of those, and its bytes are encoded if it is.
  lemma EscapeRune(r: int, t: Text)
    requires Scalar(r)
    ensures Escape(EncodeRune(r) + t) == (if r in BIDI then Encoded(EncodeRune(r)) else EncodeRune(r)) + Escape(t)
  {
    hide Decode, Encoded, EncodeRune;
    var s := EncodeRune(r) + t;
    DecodeEncoded(r, t);
    RuneWidth(r);
    EscapeStep(s, 0);
    assert s[0..] == s && s[0..|EncodeRune(r)|] == EncodeRune(r) && s[|EncodeRune(r)|..] == t;
  }

  // A byte that no encoded rune starts with is encoded by itself.
  lemma EscapeByte(s: Text)
    requires s != [] && forall r | Scalar(r) :: !(EncodeRune(r) <= s)
    ensures Escape(s) == Encoded(s[..1]) + Escape(s[1..])
  {
    hide Encoded, EncodeRune;
    if Decode(s) != INVALID { DecodedIsEncoded(s); }
    EscapeStep(s, 0);
    assert s[0..] == s && s[0..1] == s[..1];
  }

  // So a text is clean, that is, not changed, exactly if it encodes runes none of
  // which is one of those.
  lemma {:induction false} RunesAreClean(rs: seq<int>)
    requires forall i | 0 <= i < |rs| :: Scalar(rs[i]) && rs[i] !in BIDI
    ensures Clean(EncodeRunes(rs))
  {
    hide Decode, EncodeRune;
    if rs != [] {
      RunesAreClean(rs[1..]);
      DecodeEncoded(rs[0], EncodeRunes(rs[1..]));
      RuneWidth(rs[0]);
      assert EncodeRunes(rs)[|EncodeRune(rs[0])|..] == EncodeRunes(rs[1..]);
    }
  }

  lemma {:induction false} CleanIsRunes(s: Text) returns (rs: seq<int>)
    requires Clean(s)
    ensures forall i | 0 <= i < |rs| :: Scalar(rs[i]) && rs[i] !in BIDI
    ensures EncodeRunes(rs) == s
    decreases |s|
  {
    hide Decode, EncodeRune;
    if s == [] {
      rs := [];
    } else {
      var d := Decode(s);
      DecodedIsEncoded(s);
      RuneWidth(d.rune);
      var rest := CleanIsRunes(s[d.size..]);
      rs := [d.rune] + rest;
      assert rs[1..] == rest && s == s[..d.size] + s[d.size..];
    }
  }

  // ----- Escaping keeps the meaning -----

  lemma PrependTwice(a: Text, b: Text, t: Option<Text>)
    ensures Prepend(a, Prepend(b, t)) == Prepend(a + b, t)
  {
    if t.Some? { Regroup(a, b, t.value); }
  }

  lemma {:induction false} UnescapePassesOver(w: Text, t: Text)
    requires PERCENT !in w
    ensures Unescape(w + t) == Prepend(w, Unescape(t))
  {
    if w == [] {
      assert w + t == t;
      assert Unescape(t).Some? ==> w + Unescape(t).value == Unescape(t).value;
    } else {
      UnescapePassesOver(w[1..], t);
      assert (w + t)[1..] == w[1..] + t;
      PrependTwice([w[0]], w[1..], Unescape(t));
      assert [w[0]] + w[1..] == w;
    }
  }

  lemma UnescapeTriplet(b: byte, t: Text)
    ensures Unescape([PERCENT, Digit(b / 16), Digit(b % 16)] + t) == Prepend([b], Unescape(t))
  {
    var r := [PERCENT, Digit(b / 16), Digit(b % 16)] + t;
    assert r[3..] == t;
  }

  lemma {:induction false} UnescapeEncoded(w: Text, t: Text)
    ensures Unescape(Encoded(w) + t) == Prepend(w, Unescape(t))
  {
    if w == [] {
      assert Encoded(w) + t == t;
      assert Unescape(t).Some? ==> w + Unescape(t).value == Unescape(t).value;
    } else {
      UnescapeEncoded(w[1..], t);
      UnescapeTriplet(w[0], Encoded(w[1..]) + t);
      Regroup([PERCENT, Digit(w[0] / 16), Digit(w[0] % 16)], Encoded(w[1..]), t);
      PrependTwice([w[0]], w[1..], Unescape(t));
      assert [w[0]] + w[1..] == w;
    }
  }

  lemma UnescapeIs(s: Text)
    requires s != [] && s[0] == PERCENT
    ensures |s| < 3 || !IsHex(s[1]) || !IsHex(s[2]) ==> Unescape(s) == None
    ensures |s| >= 3 && IsHex(s[1]) && IsHex(s[2])
            ==> Unescape(s) == Prepend([HexValue(s[1]) * 16 + HexValue(s[2])], Unescape(s[3..]))
  {
  }

  // Escaping changes neither a percent sign nor what follows it as digits.
  lemma {:induction false} PercentKeepsMeaning(s: Text)
    requires s != [] && s[0] == PERCENT
    requires |s| >= 3 ==> Unescape(Escape(s[3..])) == Unescape(s[3..])
    ensures Unescape(Escape(s)) == Unescape(s)
  {
    hide Escape, Unescape;
    EscapeNothing();
    EscapeHead(s);
    var e, one := Escape(s), s[1..];
    assert e[1..] == Escape(one);
    UnescapeIs(s);
    UnescapeIs(e);
    if one != [] {
      EscapeHead(one);
      assert e[1] == Escape(one)[0];
      if one[0] < RUNE_SELF {
        var two := s[2..];
        assert one[1..] == two;
        assert e[1] == s[1] && e[2..] == Escape(one)[1..] == Escape(two);
        if two != [] {
          EscapeHead(two);
          assert e[2] == Escape(two)[0];
          if two[0] < RUNE_SELF { assert two[1..] == s[3..] && e[3..] == Escape(two)[1..] == Escape(s[3..]); }
        }
      }
    }
  }

  // Percent-decoding cannot tell a text from its escaped form, malformed
  // encodings included.
  lemma {:induction false} EscapeKeepsMeaning(s: Text)
    ensures Unescape(Escape(s)) == Unescape(s)
    decreases |s|
  {
    hide Decode, Encoded, Disallowed, Escape, Unescape;
    if s == [] {
      EscapeNothing();
    } else if s[0] == PERCENT {
      if |s| >= 3 { EscapeKeepsMeaning(s[3..]); }
      PercentKeepsMeaning(s);
    } else {
      var n := Decode(s).size;
      RuneBytes(s);
      EscapeKeepsMeaning(s[n..]);
      EscapeStep(s, 0);
      assert s[0..] == s && s[0..n] == s[..n] && s == s[..n] + s[n..];
      UnescapePassesOver(s[..n], s[n..]);
      UnescapePassesOver(s[..n], Escape(s[n..]));
      UnescapeEncoded(s[..n], Escape(s[n..]));
    }
  }

  // Text without percent signs comes back from its escaped form.
  lemma EscapeRoundTrip(s: Text)
    requires PERCENT !in s
    ensures Unescape(Escape(s)) == Some(s)
  {
    EscapeKeepsMeaning(s);
    UnescapePassesOver(s, []);
    assert s + [] == s;
  }

  // ----- From URI to IRI -----

  // An encoded percent sign starts at u[i].
  predicate PercentAt(u: Text, i: int) { 0 <= i < |u| - 2 && u[i] == PERCENT && u[i + 1] == 0x32 && u[i + 2] == 0x35 }

  predicate EncodesPercent(u: Text) { exists i | 0 <= i < |u| :: PercentAt(u, i) }

  lemma EncodesPercentLater(u: Text, n: nat)
    requires n <= |u| && forall i | 0 <= i < n :: !PercentAt(u, i)
    ensures EncodesPercent(u) <==> EncodesPercent(u[n..])
  {
    if EncodesPercent(u) {
      var i :| 0 <= i < |u| && PercentAt(u, i);
      assert PercentAt(u[n..], i - n);
    }
    if EncodesPercent(u[n..]) {
      var i :| 0 <= i < |u[n..]| && PercentAt(u[n..], i);
      assert PercentAt(u, i + n);
    }
  }

  lemma {:induction false} DecodedPercent(u: Text)
    requires Unescape(u).Some?
    ensures PERCENT in Unescape(u).value <==> EncodesPercent(u)
    decreases |u|
  {
    if u == [] {
    } else if u[0] != PERCENT {
      DecodedPercent(u[1..]);
      EncodesPercentLater(u, 1);
    } else if PercentAt(u, 0) {
      assert Unescape(u).value[0] == PERCENT;
    } else {
      DecodedPercent(u[3..]);
      EncodesPercentLater(u, 3);
      assert Unescape(u).value[0] != PERCENT;
    }
  }

  lemma {:induction false} DecodingShrinks(t: Text)
    requires Unescape(t).Some?
    ensures |Unescape(t).value| <= |t|
    ensures PERCENT in t <==> |Unescape(t).value| < |t|
    decreases |t|
  {
    if t == [] {
    } else if t[0] != PERCENT {
      DecodingShrinks(t[1..]);
    } else {
      DecodingShrinks(t[3..]);
    }
  }

  // Conversion fails exactly on malformed encodings. What it gives is a
  // canonical text that decodes to what the URI decodes to, unless a percent sign
  // was itself encoded: section 3.2 of RFC 3987 would keep that one, the code
  // decodes it like any other.
  lemma IriKeepsMeaning(u: Text)
    ensures ToIri(u, true).None? <==> Unescape(u).None?
    ensures ToIri(u, true).Some? ==>
              var iri := ToIri(u, true).value;
              && ValidUtf8(iri) && Clean(iri)
              && (Unescape(iri) == Unescape(u) <==> !EncodesPercent(u))
              && (!EncodesPercent(u) ==> ToIri(iri, true) == Some(iri))
    ensures ToIri(u, false).Some? && Unescape(ToIri(u, false).value) == Unescape(u)
  {
    EscapeKeepsMeaning(u);
    if Unescape(u).Some? {
      var raw := Unescape(u).value;
      EscapeIsCanonical(raw);
      EscapeKeepsMeaning(raw);
      DecodedPercent(u);
      if PERCENT in raw {
        if Unescape(raw).Some? { DecodingShrinks(raw); }
      } else {
        EscapeRoundTrip(raw);
      }
    }
  }

  // ----- The step as section 3.2 of RFC 3987 has it -----

  // Octets whose encodings stay: "%", the reserved characters, and those of
  // US-ASCII that are not allowed in URIs. That is all of US-ASCII but the
  // unreserved characters.
  predicate Reserved(b: byte) {
    b in {0x3A, 0x2F, 0x3F, 0x23, 0x5B, 0x5D, 0x40,
          0x21, 0x24, 0x26, 0x27, 0x28, 0x29, 0x2A, 0x2B, 0x2C, 0x3B, 0x3D}
  }

  predicate Unreserved(b: byte) {
    0x41 <= b <= 0x5A || 0x61 <= b <= 0x7A || 0x30 <= b <= 0x39 || b == 0x2D || b == 0x2E || b == 0x5F || b == 0x7E
  }

  predicate Kept(b: byte) { b == PERCENT || Reserved(b) || (b < RUNE_SELF && !Unreserved(b)) }

  lemma KeptMeans(b: byte)
    ensures Kept(b)
            <==> && b < 0x80 && !('a' as int <= b <= 'z' as int) && !('A' as int <= b <= 'Z' as int)
                 && !('0' as int <= b <= '9' as int)
                 && b != '-' as int && b != '.' as int && b != '_' as int && b != '~' as int
  {
  }

  // Conversion of percent-encodings except those of kept octets.
  function UnescapeOthers(s: Text): Option<Text> {
    if s == [] then Some([])
    else if s[0] != PERCENT then Prepend([s[0]], UnescapeOthers(s[1..]))
    else if |s| < 3 || !IsHex(s[1]) || !IsHex(s[2]) then None
    else
      var v := HexValue(s[1]) * 16 + HexValue(s[2]);
      Prepend(if Kept(v) then s[..3] else [v], UnescapeOthers(s[3..]))
  }

  // The conversion that the comment in the code quotes.
  function DocumentedIri(u: Text): Option<Text> {
    var raw := UnescapeOthers(u);
    if raw.None? then None else Some(Escape(raw.value))
  }

  // An encoded octet of those starts at u[i].
  predicate KeptAt(u: Text, i: int) {
    0 <= i < |u| - 2 && u[i] == PERCENT && IsHex(u[i + 1]) && IsHex(u[i + 2])
    && Kept(HexValue(u[i + 1]) * 16 + HexValue(u[i + 2]))
  }

  predicate EncodesKept(u: Text) { exists i | 0 <= i < |u| :: KeptAt(u, i) }

  lemma EncodesKeptLater(u: Text, n: nat)
    requires n <= |u| && forall i | 0 <= i < n :: !KeptAt(u, i)
    ensures EncodesKept(u) <==> EncodesKept(u[n..])
  {
    hide Kept;
    if EncodesKept(u) {
      var i :| 0 <= i < |u| && KeptAt(u, i);
      assert KeptAt(u[n..], i - n);
    }
    if EncodesKept(u[n..]) {
      var i :| 0 <= i < |u[n..]| && KeptAt(u[n..], i);
      assert KeptAt(u, i + n);
    }
  }

  // A decoded octet and, if it is to be kept, the two digits it was encoded by.
  datatype Octet = Plain(value: byte) | Encoding(value: byte, hi: byte, lo: byte)

  predicate Sane(o: seq<Octet>) {
    forall i | 0 <= i < |o| && o[i].Encoding? :: o[i].value < RUNE_SELF && o[i].hi < RUNE_SELF && o[i].lo < RUNE_SELF
  }

  function Values(o: seq<Octet>): (t: Text)
    ensures |t| == |o| && forall i | 0 <= i < |o| :: t[i] == o[i].value
  {
    if o == [] then [] else [o[0].value] + Values(o[1..])
  }

  function Spelled(o: seq<Octet>): Text {
    if o == [] then []
    else (if o[0].Plain? then [o[0].value] else [PERCENT, o[0].hi, o[0].lo]) + Spelled(o[1..])
  }

  function Encodings(o: seq<Octet>): nat {
    if o == [] then 0 else (if o[0].Plain? then 0 else 1) + Encodings(o[1..])
  }

  lemma KeptIsAscii(v: byte)
    requires Kept(v)
    ensures v < RUNE_SELF
  {
  }

  // The octets of u, if it is well-formed.
  lemma {:induction false} Octets(u: Text) returns (o: seq<Octet>)
    requires Unescape(u).Some?
    ensures Sane(o) && Unescape(u) == Some(Values(o)) && UnescapeOthers(u) == Some(Spelled(o))
    ensures Encodings(o) == 0 <==> !EncodesKept(u)
    decreases |u|
  {
    hide Kept, Reserved, Unreserved;
    if u == [] {
      o := [];
    } else if u[0] != PERCENT {
      var rest := Octets(u[1..]);
      o := [Plain(u[0])] + rest;
      EncodesKeptLater(u, 1);
    } else {
      var rest := Octets(u[3..]);
      var v := HexValue(u[1]) * 16 + HexValue(u[2]);
      if Kept(v) {
        o := [Encoding(v, u[1], u[2])] + rest;
        KeptIsAscii(v);
        assert u[..3] == [PERCENT, u[1], u[2]];
        assert KeptAt(u, 0);
      } else {
        o := [Plain(v)] + rest;
        assert !KeptAt(u, 1) && !KeptAt(u, 2);
        EncodesKeptLater(u, 3);
      }
    }
  }

  // How a rune decodes does not depend on which ASCII byte follows its bytes.
  lemma DecodeUpToAscii(w: Text, y: Text, z: Text)
    requires w != [] && (y != [] ==> y[0] < RUNE_SELF) && (z != [] ==> z[0] < RUNE_SELF)
    ensures Decode(w + y) == Decode(w + z)
  {
    var n := Announced(w[0]);
    var s, t := w + y, w + z;
    assert s[0] == w[0] && t[0] == w[0];
    assert forall i | 0 <= i < |w| :: s[i] == w[i] && t[i] == w[i];
    assert y != [] ==> s[|w|] == y[0];
    assert z != [] ==> t[|w|] == z[0];
  }

  // Number of octets up to the first ASCII one.
  function High(o: seq<Octet>): (n: nat)
    ensures n <= |o| && forall i | 0 <= i < n :: o[i].value >= RUNE_SELF
    ensures n < |o| ==> o[n].value < RUNE_SELF
  {
    if o == [] || o[0].value < RUNE_SELF then 0 else 1 + High(o[1..])
  }

  lemma {:induction false} ValuesFrom(o: seq<Octet>, n: nat)
    requires n <= |o|
    ensures Values(o)[n..] == Values(o[n..])
    decreases n
  {
    if n > 0 {
      ValuesFrom(o[1..], n - 1);
      assert o[1..][n - 1..] == o[n..];
    } else {
      assert o[0..] == o;
    }
  }

  lemma SpelledStep(o: seq<Octet>, a: Text, b: Text)
    requires o != [] && o[0].Plain? && Spelled(o[1..]) == a + b
    ensures Spelled(o) == [o[0].value] + a + b
  {
    hide Values;
    Regroup([o[0].value], a, b);
  }

  lemma {:induction false} SpelledFrom(o: seq<Octet>, n: nat)
    requires n <= |o| && forall i | 0 <= i < n :: o[i].Plain?
    ensures Spelled(o) == Values(o)[..n] + Spelled(o[n..])
    ensures Encodings(o) == Encodings(o[n..])
    decreases n
  {
    if n > 0 {
      SpelledFrom(o[1..], n - 1);
      assert o[1..][n - 1..] == o[n..];
      SpelledStep(o, Values(o[1..])[..n - 1], Spelled(o[n..]));
      assert Values(o)[..n] == [o[0].value] + Values(o[1..])[..n - 1];
    } else {
      assert o[0..] == o;
      assert Values(o)[..0] + Spelled(o) == Spelled(o);
    }
  }

  lemma SpelledHead(o: seq<Octet>)
    requires o != []
    ensures Spelled(o) == (if o[0].Plain? then [o[0].value] else [PERCENT, o[0].hi, o[0].lo]) + Spelled(o[1..])
  {
  }

  lemma OneLonger(b: byte, t: Text)
    requires b < RUNE_SELF
    ensures |Escape([b] + t)| == 1 + |Escape(t)|
  {
    hide Escape;
    EscapeHead([b] + t);
    assert ([b] + t)[1..] == t;
  }

  lemma ThreeLonger(hi: byte, lo: byte, t: Text)
    requires hi < RUNE_SELF && lo < RUNE_SELF
    ensures |Escape([PERCENT, hi, lo] + t)| == 3 + |Escape(t)|
  {
    hide Escape;
    var t1 := [lo] + t;
    var t2 := [hi] + t1;
    OneLonger(lo, t);
    OneLonger(hi, t1);
    OneLonger(PERCENT, t2);
    assert [PERCENT, hi, lo] + t == [PERCENT] + t2;
  }

  lemma EscapeSpelled(o: seq<Octet>)
    requires o != [] && Sane(o) && o[0].value < RUNE_SELF
    ensures |Escape(Spelled(o))| == (if o[0].Plain? then 1 else 3) + |Escape(Spelled(o[1..]))|
  {
    hide Escape, Values, Encoded, Spelled;
    SpelledHead(o);
    if o[0].Plain? { OneLonger(o[0].value, Spelled(o[1..])); } else { ThreeLonger(o[0].hi, o[0].lo, Spelled(o[1..])); }
  }

  lemma SameRune(o: seq<Octet>)
    requires o != [] && Sane(o) && o[0].value >= RUNE_SELF
    ensures Decode(Spelled(o)) == Decode(Values(o))
    ensures forall i | 0 <= i < Decode(Values(o)).size :: o[i].Plain?
  {
    hide Decode;
    var m := High(o);
    SpelledFrom(o, m);
    ValuesFrom(o, m);
    var w := Values(o)[..m];
    var y, z := Values(o[m..]), Spelled(o[m..]);
    assert Values(o) == w + y;
    DecodeUpToAscii(w, y, z);
    RuneBytes(Values(o));
    forall i | 0 <= i < Decode(Values(o)).size ensures o[i].Plain? {
      assert Values(o)[i] == o[i].value;
    }
  }

  // Spelling an octet out makes the escaped text longer by the two digits.
  lemma {:induction false} SpellingIsLonger(o: seq<Octet>)
    requires Sane(o)
    ensures |Escape(Spelled(o))| == |Escape(Values(o))| + 2 * Encodings(o)
    decreases |o|
  {
    hide Decode, Disallowed, Encoded;
    if o == [] {
    } else if o[0].value < RUNE_SELF {
      SpellingIsLonger(o[1..]);
      EscapeHead(Values(o));
      EscapeSpelled(o);
    } else {
      var y, z := Values(o), Spelled(o);
      var n := Decode(y).size;
      SameRune(o);
      RuneBytes(y);
      SpelledFrom(o, n);
      ValuesFrom(o, n);
      SpellingIsLonger(o[n..]);
      assert z[..n] == y[..n] && z[n..] == Spelled(o[n..]);
      EscapeStep(y, 0);
      EscapeStep(z, 0);
      assert y[0..] == y && z[0..] == z && y[0..n] == y[..n] && z[0..n] == z[..n];
    }
  }

  lemma {:induction false} OthersFailAlike(u: Text)
    ensures UnescapeOthers(u).None? <==> Unescape(u).None?
    decreases |u|
  {
    hide Kept;
    if u == [] {
    } else if u[0] != PERCENT {
      OthersFailAlike(u[1..]);
    } else if |u| >= 3 {
      OthersFailAlike(u[3..]);
    }
  }

  lemma {:induction false} NothingSpelled(o: seq<Octet>)
    ensures Encodings(o) == 0 ==> Spelled(o) == Values(o)
  {
    if o != [] { NothingSpelled(o[1..]); }
  }

  // On a well-formed URI the code does what the section says if and only if no
  // octet that the section keeps encoded is encoded in it; on others both fail.
  lemma IriIsAsDocumented(u: Text)
    ensures ToIri(u, true) == DocumentedIri(u) <==> Unescape(u).None? || !EncodesKept(u)
  {
    hide Escape, Unescape, UnescapeOthers, EncodesKept;
    OthersFailAlike(u);
    if Unescape(u).Some? {
      var o := Octets(u);
      SpellingIsLonger(o);
      NothingSpelled(o);
    }
  }
}
