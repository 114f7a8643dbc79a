// Base64 with padding (RFC 4648, section 4).
module Base64 {
  import opened Wrappers
  import opened Utf8

  type sextet = x: int | 0 <= x < 64

  const PAD: byte := 61

  function Symbol(n: sextet): byte {
    if n < 26 then 65 + n
    else if n < 52 then 71 + n
    else if n < 62 then n - 4
    else if n == 62 then 43
    else 47
  }

  // The value of a symbol, or -1.
  function Value(b: byte): (v: int)
    ensures -1 <= v < 64
  {
    if 65 <= b <= 90 then b - 65
    else if 97 <= b <= 122 then b - 71
    else if 48 <= b <= 57 then b + 4
    else if b == 43 then 62
    else if b == 47 then 63
    else -1
  }

  lemma SymbolValue(n: sextet)
    ensures Value(Symbol(n)) == n && Symbol(n) != PAD && Symbol(n) != 10 && Symbol(n) != 13
  {
  }

  // Three bytes as four symbols; missing bytes count as zero.
  function Sextets(a: byte, b: byte, c: byte): (sextet, sextet, sextet, sextet) {
    (a / 4, (a % 4) * 16 + b / 16, (b % 16) * 4 + c / 64, c % 64)
  }

  function Group(a: byte, b: byte, c: byte): (g: seq<byte>)
    ensures |g| == 4
  {
    var s := Sextets(a, b, c);
    [Symbol(s.0), Symbol(s.1), Symbol(s.2), Symbol(s.3)]
  }

  // The text of a whole message: only its end may be padded.
  function Encode(d: seq<byte>): (t: seq<byte>)
    ensures |t| == (|d| + 2) / 3 * 4
  {
    if |d| == 0 then []
    else if |d| == 1 then Group(d[0], 0, 0)[..2] + [PAD, PAD]
    else if |d| == 2 then Group(d[0], d[1], 0)[..3] + [PAD]
    else Group(d[0], d[1], d[2]) + Encode(d[3..])
  }

  // The bytes that two neighbouring symbols of a group make up.
  function First(t: seq<byte>): byte
    requires |t| >= 4 && Value(t[0]) >= 0 && Value(t[1]) >= 0
  {
    Value(t[0]) * 4 + Value(t[1]) / 16
  }

  function Second(t: seq<byte>): byte
    requires |t| >= 4 && Value(t[1]) >= 0 && Value(t[2]) >= 0
  {
    (Value(t[1]) % 16) * 16 + Value(t[2]) / 4
  }

  function Third(t: seq<byte>): byte
    requires |t| >= 4 && Value(t[2]) >= 0 && Value(t[3]) >= 0
  {
    (Value(t[2]) % 4) * 64 + Value(t[3])
  }

  // The bytes of a whole message, or None if it is malformed.
  function Decode(t: seq<byte>): (d: Option<seq<byte>>)
    ensures d.Some? ==> |d.value| <= |t| / 4 * 3
  {
    if |t| == 0 then Some([])
    else if |t| < 4 || Value(t[0]) < 0 || Value(t[1]) < 0 then None
    else if t[2] == PAD then
      if t[3] == PAD && |t| == 4 then Some([First(t)]) else None
    else if Value(t[2]) < 0 then None
    else if t[3] == PAD then
      if |t| == 4 then Some([First(t), Second(t)]) else None
    else if Value(t[3]) < 0 then None
    else
      var rest := Decode(t[4..]);
      if rest.None? then None else Some([First(t), Second(t), Third(t)] + rest.value)
  }

  lemma GroupDecodes(a: byte, b: byte, c: byte)
    ensures var g := Group(a, b, c);
            && (forall i | 0 <= i < 4 :: Value(g[i]) >= 0 && g[i] != PAD && g[i] != 10 && g[i] != 13)
            && First(g) == a && Second(g) == b && Third(g) == c
  {
    var s := Sextets(a, b, c);
    SymbolValue(s.0); SymbolValue(s.1); SymbolValue(s.2); SymbolValue(s.3);
  }

  // What the first symbols of a text say does not depend on the others.
  lemma SameSymbols(t: seq<byte>, g: seq<byte>)
    requires |t| >= 4 && |g| == 4 && t[0] == g[0] && t[1] == g[1] && Value(g[0]) >= 0 && Value(g[1]) >= 0
    ensures First(t) == First(g)
    ensures t[2] == g[2] && Value(g[2]) >= 0 ==> Second(t) == Second(g)
    ensures t[2] == g[2] && t[3] == g[3] && Value(g[2]) >= 0 && Value(g[3]) >= 0 ==> Third(t) == Third(g)
  {
  }

  lemma PadHasNoValue()
    ensures Value(PAD) == -1
  {
  }

  lemma DecodeNothing()
    ensures Decode([]) == Some([])
  {
  }

  lemma DecodeGroup(a: byte, b: byte, c: byte, rest: seq<byte>)
    ensures Decode(Group(a, b, c) + rest)
            == if Decode(rest).None? then None else Some([a, b, c] + Decode(rest).value)
  {
    hide Group, Value, First, Second, Third;
    var t := Group(a, b, c) + rest;
    GroupDecodes(a, b, c);
    SameSymbols(t, Group(a, b, c));
    assert t[4..] == rest;
  }

  lemma DecodePadded(d: seq<byte>)
    requires 1 <= |d| <= 2
    ensures Decode(Encode(d)) == Some(d)
  {
    hide Group, Value, First, Second, Third;
    PadHasNoValue();
    var b := if |d| == 2 then d[1] else 0;
    GroupDecodes(d[0], b, 0);
    SameSymbols(Encode(d), Group(d[0], b, 0));
    assert d == if |d| == 2 then [d[0], b] else [d[0]];
  }

  // Decoding undoes encoding.
  lemma {:induction false} RoundTrip(d: seq<byte>)
    ensures Decode(Encode(d)) == Some(d)
  {
    hide Group, Decode;
    if |d| >= 3 {
      RoundTrip(d[3..]);
      DecodeGroup(d[0], d[1], d[2], Encode(d[3..]));
      assert d == [d[0], d[1], d[2]] + d[3..];
    } else if d != [] {
      DecodePadded(d);
    } else {
      DecodeNothing();
    }
  }

  // Text made by Encode has no line breaks.
  predicate NoBreaks(t: seq<byte>) { forall i | 0 <= i < |t| :: t[i] != 10 && t[i] != 13 }

  lemma {:induction false} EncodeHasNoBreaks(d: seq<byte>)
    ensures NoBreaks(Encode(d))
  {
    if |d| == 1 {
      GroupDecodes(d[0], 0, 0);
    } else if |d| == 2 {
      GroupDecodes(d[0], d[1], 0);
    } else if |d| >= 3 {
      GroupDecodes(d[0], d[1], d[2]);
      EncodeHasNoBreaks(d[3..]);
    }
  }

  // The reader on top of the decoder drops line breaks first.
  function Strip(t: seq<byte>): (r: seq<byte>)
    ensures |r| <= |t|
  {
    if t == [] then [] else (if t[0] == 10 || t[0] == 13 then [] else [t[0]]) + Strip(t[1..])
  }

  lemma {:induction false} StripKeeps(t: seq<byte>)
    requires NoBreaks(t)
    ensures Strip(t) == t
  {
    if t != [] { StripKeeps(t[1..]); }
  }

  // Test vectors of section 10 of RFC 4648, and the last two symbols.
  lemma Vectors()
    ensures Encode([0x66]) == [0x5A, 0x67, 0x3D, 0x3D]
    ensures Encode([0x66, 0x6F]) == [0x5A, 0x6D, 0x38, 0x3D]
    ensures Encode([0x66, 0x6F, 0x6F]) == [0x5A, 0x6D, 0x39, 0x76]
    ensures Encode([0xFB, 0xEF, 0xFF]) == [0x2B, 0x2B, 0x2F, 0x2F]
  {
    assert [0x66, 0x6F, 0x6F][3..] == [] && [0xFB, 0xEF, 0xFF][3..] == [];
  }
}
