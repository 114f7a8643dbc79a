// UTF-8 decoding as Go's unicode/utf8 package performs it (RFC 3629), with the
// two facts the lexers in this project rely on: a decoded rune never consumes
// more bytes than there are, and decoding never looks past the next ASCII byte.
module Utf8 {
  type byte = x: int | 0 <= x < 256

  const RUNE_ERROR := 0xFFFD
  const RUNE_SELF := 0x80

  datatype Decoded = Decoded(rune: int, size: nat)

  // What the decode functions return for an invalid encoding.
  const INVALID := Decoded(RUNE_ERROR, 1)

  // Number of bytes announced by a lead byte; 0 if no encoding starts with it.
  function Announced(b: byte): (n: nat)
    ensures n <= 4
    ensures n == 1 <==> b < RUNE_SELF
  {
    if b < 0x80 then 1
    else if 0xC2 <= b <= 0xDF then 2
    else if 0xE0 <= b <= 0xEF then 3
    else if 0xF0 <= b <= 0xF4 then 4
    else 0
  }

  predicate Continuation(b: byte) { 0x80 <= b <= 0xBF }

  // The byte after the lead byte is restricted so that overlong forms,
  // surrogates and values above U+10FFFF are invalid.
  predicate SecondAllowed(lead: byte, b: byte) {
    && Continuation(b)
    && (lead == 0xE0 ==> 0xA0 <= b)
    && (lead == 0xED ==> b <= 0x9F)
    && (lead == 0xF0 ==> 0x90 <= b)
    && (lead == 0xF4 ==> b <= 0x8F)
  }

  // Whether s starts with a well-formed encoding of n bytes.
  predicate WellFormedPrefix(s: seq<byte>, n: nat) {
    && 1 <= n <= |s|
    && Announced(s[0]) == n
    && (n >= 2 ==> SecondAllowed(s[0], s[1]))
    && (n >= 3 ==> Continuation(s[2]))
    && (n >= 4 ==> Continuation(s[3]))
  }

  function RuneOf(s: seq<byte>, n: nat): int
    requires WellFormedPrefix(s, n)
  {
    var c: seq<int> := s;
    if n == 1 then c[0]
    else if n == 2 then (c[0] - 0xC0) * 0x40 + (c[1] - 0x80)
    else if n == 3 then (c[0] - 0xE0) * 0x1000 + (c[1] - 0x80) * 0x40 + (c[2] - 0x80)
    else (c[0] - 0xF0) * 0x40000 + (c[1] - 0x80) * 0x1000 + (c[2] - 0x80) * 0x40 + (c[3] - 0x80)
  }

  // utf8.Valid
  predicate ValidUtf8(s: seq<byte>) {
    s == [] || (WellFormedPrefix(s, Announced(s[0])) && ValidUtf8(s[Announced(s[0])..]))
  }

  // utf8.DecodeRune
  function Decode(s: seq<byte>): (d: Decoded)
    ensures d.size <= |s| && (s != [] ==> d.size >= 1)
    ensures d.size <= 4
  {
    if s == [] then Decoded(RUNE_ERROR, 0)
    else
      var n := Announced(s[0]);
      if WellFormedPrefix(s, n) then Decoded(RuneOf(s, n), n) else INVALID
  }

  // First index at or above lim, walking down from i, that can start a rune;
  // lim - 1 if there is none.
  function LastStart(s: seq<byte>, i: int, lim: nat): (r: int)
    requires lim - 1 <= i < |s|
    ensures lim - 1 <= r <= i
    decreases i - lim + 1
  {
    if i < lim then i
    else if !Continuation(s[i]) then i
    else LastStart(s, i - 1, lim)
  }

  // utf8.DecodeLastRune
  function DecodeLast(s: seq<byte>): Decoded {
    if s == [] then Decoded(RUNE_ERROR, 0)
    else
      var end := |s|;
      if s[end - 1] < RUNE_SELF then Decoded(s[end - 1], 1)
      else
        var lim := if end < 4 then 0 else end - 4;
        var found := if end - 2 < lim then lim - 1 else LastStart(s, end - 2, lim);
        var start := if found < 0 then 0 else found;
        var d := Decode(s[start..end]);
        if start + d.size != end then INVALID else d
  }

  // unicode.IsSpace together with the Z categories: exactly the code points
  // with the White_Space property.
  predicate IsSpace(r: int) {
    || 0x09 <= r <= 0x0D || r == 0x20 || r == 0x85 || r == 0xA0 || r == 0x1680
    || 0x2000 <= r <= 0x200A || r == 0x2028 || r == 0x2029 || r == 0x202F
    || r == 0x205F || r == 0x3000
  }

  // Decoding looks no further than the next ASCII byte.
  lemma DecodeStopsAtAscii(s: seq<byte>, more: seq<byte>, k: nat)
    requires k < |s| && s[k] < RUNE_SELF
    ensures Decode(s + more) == Decode(s)
  {
    var t := s + more;
    var n := Announced(s[0]);
    assert t[0] == s[0] && t[k] == s[k];
    assert !Continuation(s[k]);
    if n <= |s| {
      assert forall i | 0 <= i < n :: t[i] == s[i];
    } else {
      assert k < n;
    }
  }

  // ----- Encoding (section 3 of RFC 3629) -----

  predicate Scalar(r: int) { 0 <= r <= 0x10FFFF && !(0xD800 <= r <= 0xDFFF) }

  function EncodeRune(r: int): (w: seq<byte>)
    requires Scalar(r)
    ensures 1 <= |w| <= 4
  {
    if r < 0x80 then [r]
    else if r < 0x800 then [0xC0 + r / 0x40, 0x80 + r % 0x40]
    else if r < 0x10000 then [0xE0 + r / 0x1000, 0x80 + r / 0x40 % 0x40, 0x80 + r % 0x40]
    else [0xF0 + r / 0x40000, 0x80 + r / 0x1000 % 0x40, 0x80 + r / 0x40 % 0x40, 0x80 + r % 0x40]
  }

  // Groups of six bits.
  lemma Bits2(a: int, b: int, r: int)
    requires 0 <= b < 0x40 && r == a * 0x40 + b
    ensures r / 0x40 == a && r % 0x40 == b
  {
  }

  lemma Bits3(a: int, b: int, c: int, r: int)
    requires 0 <= b < 0x40 && 0 <= c < 0x40 && r == a * 0x1000 + b * 0x40 + c
    ensures r / 0x1000 == a && r / 0x40 % 0x40 == b && r % 0x40 == c
  {
    Bits2(a * 0x40 + b, c, r);
    Bits2(a, b, r / 0x40);
  }

  lemma Bits4(a: int, b: int, c: int, d: int, r: int)
    requires 0 <= b < 0x40 && 0 <= c < 0x40 && 0 <= d < 0x40 && r == a * 0x40000 + b * 0x1000 + c * 0x40 + d
    ensures r / 0x40000 == a && r / 0x1000 % 0x40 == b && r / 0x40 % 0x40 == c && r % 0x40 == d
  {
    Bits2(a * 0x1000 + b * 0x40 + c, d, r);
    Bits3(a, b, c, r / 0x40);
    assert r / 0x1000 == r / 0x40 / 0x40 && r / 0x40000 == r / 0x40 / 0x1000;
  }

  lemma Split3(r: int) returns (a: int, b: int, c: int)
    ensures 0 <= b < 0x40 && 0 <= c < 0x40 && r == a * 0x1000 + b * 0x40 + c
    ensures a == r / 0x1000 && b == r / 0x40 % 0x40 && c == r % 0x40
  {
    a, b, c := r / 0x40 / 0x40, r / 0x40 % 0x40, r % 0x40;
    Bits3(a, b, c, r);
  }

  lemma Split4(r: int) returns (a: int, b: int, c: int, d: int)
    ensures 0 <= b < 0x40 && 0 <= c < 0x40 && 0 <= d < 0x40 && r == a * 0x40000 + b * 0x1000 + c * 0x40 + d
    ensures a == r / 0x40000 && b == r / 0x1000 % 0x40 && c == r / 0x40 % 0x40 && d == r % 0x40
  {
    a, b, c := Split3(r / 0x40);
    d := r % 0x40;
    Bits4(a, b, c, d, r);
  }

  lemma Decode3(r: int, s: seq<byte>)
    requires Scalar(r) && 0x800 <= r < 0x10000 && |s| >= 3
    requires s[0] == EncodeRune(r)[0] && s[1] == EncodeRune(r)[1] && s[2] == EncodeRune(r)[2]
    ensures Decode(s) == Decoded(r, 3)
  {
    var a, b, c := Split3(r);
    assert s[0] == 0xE0 + a && s[1] == 0x80 + b && s[2] == 0x80 + c;
    assert WellFormedPrefix(s, 3);
  }

  lemma Decode4(r: int, s: seq<byte>)
    requires Scalar(r) && 0x10000 <= r && |s| >= 4
    requires s[0] == EncodeRune(r)[0] && s[1] == EncodeRune(r)[1] && s[2] == EncodeRune(r)[2]
             && s[3] == EncodeRune(r)[3]
    ensures Decode(s) == Decoded(r, 4)
  {
    var a, b, c, d := Split4(r);
    assert s[0] == 0xF0 + a && s[1] == 0x80 + b && s[2] == 0x80 + c && s[3] == 0x80 + d;
    assert WellFormedPrefix(s, 4);
  }

  // An encoded rune at the front of a text is decoded, whatever follows.
  lemma DecodeEncoded(r: int, t: seq<byte>)
    requires Scalar(r)
    ensures Decode(EncodeRune(r) + t) == Decoded(r, |EncodeRune(r)|)
  {
    var w := EncodeRune(r);
    var s := w + t;
    assert forall i | 0 <= i < |w| :: s[i] == w[i];
    if r >= 0x10000 {
      Decode4(r, s);
    } else if r >= 0x800 {
      Decode3(r, s);
    }
  }

  lemma {:induction false} StartFound(t: seq<byte>, start: nat, i: int, lim: nat)
    requires lim <= start <= i < |t| && !Continuation(t[start])
    requires forall j | start < j <= i :: Continuation(t[j])
    ensures LastStart(t, i, lim) == start
    decreases i - start
  {
    if i > start { StartFound(t, start, i - 1, lim); }
  }

  // And one at its end is decoded from there.
  lemma DecodeLastEncoded(s: seq<byte>, r: int)
    requires Scalar(r)
    ensures DecodeLast(s + EncodeRune(r)) == Decoded(r, |EncodeRune(r)|)
  {
    var w := EncodeRune(r);
    var t := s + w;
    var n, end := |w|, |t|;
    assert forall i | 0 <= i < n :: t[|s| + i] == w[i];
    if n > 1 {
      var lim := if end < 4 then 0 else end - 4;
      StartFound(t, |s|, end - 2, lim);
      assert t[|s|..end] == w + [];
      DecodeEncoded(r, []);
    }
  }

  // What is decoded, unless it is invalid, is the encoding of the rune.
  lemma DecodedIsEncoded(s: seq<byte>)
    requires s != [] && Decode(s) != INVALID
    ensures Scalar(Decode(s).rune) && s[..Decode(s).size] == EncodeRune(Decode(s).rune)
    ensures EncodeRune(Decode(s).rune) <= s
  {
    var n := Announced(s[0]);
    var c: seq<int> := s;
    assert WellFormedPrefix(s, n);
    if n == 2 {
      Bits2(c[0] - 0xC0, c[1] - 0x80, RuneOf(s, 2));
      assert s[..2] == [s[0], s[1]];
    } else if n == 3 {
      Bits3(c[0] - 0xE0, c[1] - 0x80, c[2] - 0x80, RuneOf(s, 3));
      assert s[..3] == [s[0], s[1], s[2]];
    } else if n == 4 {
      Bits4(c[0] - 0xF0, c[1] - 0x80, c[2] - 0x80, c[3] - 0x80, RuneOf(s, 4));
      assert s[..4] == [s[0], s[1], s[2], s[3]];
    }
  }

  function EncodeRunes(rs: seq<int>): seq<byte>
    requires forall i | 0 <= i < |rs| :: Scalar(rs[i])
  {
    if rs == [] then [] else EncodeRune(rs[0]) + EncodeRunes(rs[1..])
  }
}
