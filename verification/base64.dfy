/** Base64 as PHP's `base64_encode` and (non-strict) `base64_decode` compute it:
    the encoding is the one of section 4 of RFC 4648, with '=' padding; the
    decoder skips every byte outside the alphabet, the padding included, packs
    the remaining six-bit groups into bytes and drops a trailing partial byte. */
module Base64 {
  import opened Php

  /** The value one alphabet symbol carries. */
  type Sextet = v: int | 0 <= v < 64

  /** '=' */
  const PAD: byte := 61

  /** Table 1 of section 4 of RFC 4648: A-Z, a-z, 0-9, '+', '/'. */
  function Symbol(v: Sextet): byte
  {
    if v < 26 then (65 + v) as byte
    else if v < 52 then (71 + v) as byte
    else if v < 62 then (v - 4) as byte
    else if v == 62 then PLUS
    else 47
  }

  /** The bytes of the alphabet ('=' is not one of them). */
  predicate IsSymbol(b: byte)
  {
    65 <= b <= 90 || 97 <= b <= 122 || 48 <= b <= 57 || b == PLUS || b == 47
  }

  /** The inverse of `Symbol` on the alphabet. */
  function SymbolValue(b: byte): (v: Sextet)
    requires IsSymbol(b)
    ensures Symbol(v) == b
  {
    if 65 <= b <= 90 then b as int - 65
    else if 97 <= b <= 122 then b as int - 71
    else if 48 <= b <= 57 then b as int + 4
    else if b == PLUS then 62
    else 63
  }

  lemma SymbolRoundTrip(v: Sextet)
    ensures IsSymbol(Symbol(v)) && SymbolValue(Symbol(v)) == v
  {
  }

  /** Three bytes become four symbols. */
  function EncodeGroup(b0: byte, b1: byte, b2: byte): Bytes
  {
    var x, y, z := b0 as int, b1 as int, b2 as int;
    [Symbol(x / 4), Symbol(x % 4 * 16 + y / 16), Symbol(y % 16 * 4 + z / 64), Symbol(z % 64)]
  }

  /** `base64_encode`. */
  function Encode(s: Bytes): (r: Bytes)
    ensures |r| == (|s| + 2) / 3 * 4
    ensures forall i | 0 <= i < |r| :: IsSymbol(r[i]) || r[i] == PAD
    decreases |s|
  {
    if |s| == 0 then []
    else if |s| == 1 then
      var x := s[0] as int;
      [Symbol(x / 4), Symbol(x % 4 * 16), PAD, PAD]
    else if |s| == 2 then
      var x, y := s[0] as int, s[1] as int;
      [Symbol(x / 4), Symbol(x % 4 * 16 + y / 16), Symbol(y % 16 * 4), PAD]
    else
      var rest := Encode(s[3..]);
      GroupThenSymbols(s[0], s[1], s[2], rest);
      EncodeGroup(s[0], s[1], s[2]) + rest
  }

  /** A group in front of symbols and padding keeps the text made of
      symbols and padding. */
  lemma GroupThenSymbols(b0: byte, b1: byte, b2: byte, rest: Bytes)
    requires forall i | 0 <= i < |rest| :: IsSymbol(rest[i]) || rest[i] == PAD
    ensures var r := EncodeGroup(b0, b1, b2) + rest;
      forall i | 0 <= i < |r| :: IsSymbol(r[i]) || r[i] == PAD
  {
    var x, y, z := b0 as int, b1 as int, b2 as int;
    SymbolRoundTrip(x / 4);
    SymbolRoundTrip(x % 4 * 16 + y / 16);
    SymbolRoundTrip(y % 16 * 4 + z / 64);
    SymbolRoundTrip(z % 64);
    var g := EncodeGroup(b0, b1, b2);
    forall i | 0 <= i < |g + rest|
      ensures IsSymbol((g + rest)[i]) || (g + rest)[i] == PAD
    {
      if i >= 4 {
        assert (g + rest)[i] == rest[i - 4];
      }
    }
  }

  /** The six-bit groups carried by `s`, in order: alphabet symbols are read,
      every other byte ('=' included) is skipped. */
  function Sextets(s: Bytes): (v: seq<Sextet>)
    ensures |v| <= |s|
    decreases |s|
  {
    if |s| == 0 then []
    else SextetOf(s[0]) + Sextets(s[1..])
  }

  /** Packs six-bit groups into bytes, four groups to three bytes; a last
      group of three gives two bytes, of two gives one, of one gives none. */
  function Pack(v: seq<Sextet>): (r: Bytes)
    ensures |r| == |v| * 6 / 8
    decreases |v|
  {
    if |v| < 2 then []
    else
      var first := (v[0] as int * 4 + v[1] as int / 16) as byte;
      if |v| == 2 then [first]
      else
        var second := (v[1] as int % 16 * 16 + v[2] as int / 4) as byte;
        if |v| == 3 then [first, second]
        else [first, second, (v[2] as int % 4 * 64 + v[3] as int) as byte] + Pack(v[4..])
  }

  /** `base64_decode` in its default, non-strict mode. */
  function Decode(s: Bytes): (r: Bytes)
    ensures |r| < |s| || s == []
  {
    Pack(Sextets(s))
  }

  lemma {:induction false} SextetsAppend(a: Bytes, b: Bytes)
    ensures Sextets(a + b) == Sextets(a) + Sextets(b)
    decreases |a|
  {
    if |a| > 0 {
      assert (a + b)[0] == a[0];
      assert (a + b)[1..] == a[1..] + b;
      SextetsAppend(a[1..], b);
    } else {
      assert a + b == b;
    }
  }

  /** The sextet one byte contributes: its value, or nothing. */
  function SextetOf(b: byte): seq<Sextet>
  {
    if IsSymbol(b) then [SymbolValue(b)] else []
  }

  /** The first byte contributes its sextet, if any, in front. */
  lemma SextetsCons(b: byte, t: Bytes)
    ensures Sextets([b] + t) == SextetOf(b) + Sextets(t)
  {
    assert ([b] + t)[1..] == t;
  }

  lemma SextetsOfFour(a: byte, b: byte, c: byte, d: byte)
    ensures Sextets([a, b, c, d]) == SextetOf(a) + (SextetOf(b) + (SextetOf(c) + SextetOf(d)))
  {
    var e: Bytes := [];
    assert Sextets(e) == [];
    SextetsCons(d, e);
    assert [d] + e == [d];
    assert SextetOf(d) + Sextets(e) == SextetOf(d);
    SextetsCons(c, [d]);
    assert [c] + [d] == [c, d];
    SextetsCons(b, [c, d]);
    assert [b] + [c, d] == [b, c, d];
    SextetsCons(a, [b, c, d]);
    assert [a] + [b, c, d] == [a, b, c, d];
  }

  /** A symbol contributes its value; '=' contributes nothing. */
  lemma SextetOfSymbol(v: Sextet)
    ensures SextetOf(Symbol(v)) == [v] && SextetOf(PAD) == []
  {
    SymbolRoundTrip(v);
  }

  lemma SextetsOfSymbols(v0: Sextet, v1: Sextet, v2: Sextet, v3: Sextet)
    ensures Sextets([Symbol(v0), Symbol(v1), Symbol(v2), Symbol(v3)]) == [v0, v1, v2, v3]
  {
    SextetOfSymbol(v0);
    SextetOfSymbol(v1);
    SextetOfSymbol(v2);
    SextetOfSymbol(v3);
    SextetsOfFour(Symbol(v0), Symbol(v1), Symbol(v2), Symbol(v3));
    assert [v0] + ([v1] + ([v2] + [v3])) == [v0, v1, v2, v3];
  }

  lemma SextetsOfSymbolsPad(v0: Sextet, v1: Sextet, v2: Sextet)
    ensures Sextets([Symbol(v0), Symbol(v1), Symbol(v2), PAD]) == [v0, v1, v2]
  {
    SextetOfSymbol(v0);
    SextetOfSymbol(v1);
    SextetOfSymbol(v2);
    SextetsOfFour(Symbol(v0), Symbol(v1), Symbol(v2), PAD);
    assert [v0] + ([v1] + ([v2] + [])) == [v0, v1, v2];
  }

  lemma SextetsOfSymbolsPadPad(v0: Sextet, v1: Sextet)
    ensures Sextets([Symbol(v0), Symbol(v1), PAD, PAD]) == [v0, v1]
  {
    SextetOfSymbol(v0);
    SextetOfSymbol(v1);
    SextetsOfFour(Symbol(v0), Symbol(v1), PAD, PAD);
    assert [v0] + ([v1] + ([] + [])) == [v0, v1];
  }

  /** The decoder's arithmetic undoes the encoder's on one group. */
  lemma GroupArithmetic(x: int, y: int, z: int)
    requires 0 <= x < 256 && 0 <= y < 256 && 0 <= z < 256
    ensures x / 4 * 4 + (x % 4 * 16 + y / 16) / 16 == x
    ensures (x % 4 * 16 + y / 16) % 16 * 16 + (y % 16 * 4 + z / 64) / 4 == y
    ensures (y % 16 * 4 + z / 64) % 4 * 64 + z % 64 == z
    ensures x / 4 * 4 + x % 4 * 16 / 16 == x
    ensures (x % 4 * 16 + y / 16) % 16 * 16 + y % 16 * 4 / 4 == y
  {
  }

  lemma DecodeLastOne(x: int)
    requires 0 <= x < 256
    ensures Decode([Symbol(x / 4), Symbol(x % 4 * 16), PAD, PAD]) == [x as byte]
  {
    SextetsOfSymbolsPadPad(x / 4, x % 4 * 16);
    GroupArithmetic(x, 0, 0);
    var v: seq<Sextet> := [x / 4, x % 4 * 16];
    assert Pack(v) == [x as byte];
  }

  lemma DecodeLastTwo(x: int, y: int)
    requires 0 <= x < 256 && 0 <= y < 256
    ensures Decode([Symbol(x / 4), Symbol(x % 4 * 16 + y / 16), Symbol(y % 16 * 4), PAD]) == [x as byte, y as byte]
  {
    SextetsOfSymbolsPad(x / 4, x % 4 * 16 + y / 16, y % 16 * 4);
    GroupArithmetic(x, y, 0);
    var v: seq<Sextet> := [x / 4, x % 4 * 16 + y / 16, y % 16 * 4];
    assert Pack(v) == [x as byte, y as byte];
  }

  /** A full group in front decodes to its three bytes in front. */
  lemma DecodeGroupThenRest(b0: byte, b1: byte, b2: byte, rest: Bytes)
    ensures Decode(EncodeGroup(b0, b1, b2) + rest) == [b0, b1, b2] + Decode(rest)
  {
    var x, y, z := b0 as int, b1 as int, b2 as int;
    DecodeSymbolsThenRest(x / 4, x % 4 * 16 + y / 16, y % 16 * 4 + z / 64, z % 64, rest);
    GroupBytes(b0, b1, b2);
  }

  /** Four symbols in front decode to the three bytes their sextets pack to. */
  lemma DecodeSymbolsThenRest(v0: Sextet, v1: Sextet, v2: Sextet, v3: Sextet, rest: Bytes)
    ensures Decode([Symbol(v0), Symbol(v1), Symbol(v2), Symbol(v3)] + rest) ==
      [(v0 * 4 + v1 / 16) as byte, (v1 % 16 * 16 + v2 / 4) as byte, (v2 % 4 * 64 + v3) as byte] + Decode(rest)
  {
    var g := [Symbol(v0), Symbol(v1), Symbol(v2), Symbol(v3)];
    SextetsAppend(g, rest);
    SextetsOfSymbols(v0, v1, v2, v3);
    PackGroupThenRest(v0, v1, v2, v3, Sextets(rest));
  }

  /** The three bytes the decoder packs from one encoded group are the
      bytes the encoder started from. */
  lemma GroupBytes(b0: byte, b1: byte, b2: byte)
    ensures var x, y, z := b0 as int, b1 as int, b2 as int;
      var v0, v1, v2, v3 := x / 4, x % 4 * 16 + y / 16, y % 16 * 4 + z / 64, z % 64;
      [(v0 * 4 + v1 / 16) as byte, (v1 % 16 * 16 + v2 / 4) as byte, (v2 % 4 * 64 + v3) as byte] == [b0, b1, b2]
  {
    GroupArithmetic(b0 as int, b1 as int, b2 as int);
  }

  /** Four sextets in front pack to their three bytes in front. */
  lemma PackGroupThenRest(v0: Sextet, v1: Sextet, v2: Sextet, v3: Sextet, tail: seq<Sextet>)
    ensures Pack([v0, v1, v2, v3] + tail) ==
      [(v0 * 4 + v1 / 16) as byte, (v1 % 16 * 16 + v2 / 4) as byte, (v2 % 4 * 64 + v3) as byte] + Pack(tail)
  {
    assert ([v0, v1, v2, v3] + tail)[4..] == tail;
  }

  /** Decoding undoes encoding, for every byte string. */
  lemma {:induction false} DecodeEncode(s: Bytes)
    ensures Decode(Encode(s)) == s
    decreases |s|
  {
    if |s| == 1 {
      DecodeLastOne(s[0] as int);
      assert s == [s[0]];
    } else if |s| == 2 {
      DecodeLastTwo(s[0] as int, s[1] as int);
      assert s == [s[0], s[1]];
    } else if |s| >= 3 {
      var rest := s[3..];
      assert Encode(s) == EncodeGroup(s[0], s[1], s[2]) + Encode(rest);
      DecodeGroupThenRest(s[0], s[1], s[2], Encode(rest));
      DecodeEncode(rest);
      assert s[..3] == [s[0], s[1], s[2]];
      PrefixThenRest(s, 3);
    }
  }

  /** Encoding is injective: distinct byte strings have distinct encodings. */
  lemma EncodeInjective(a: Bytes, b: Bytes)
    requires Encode(a) == Encode(b)
    ensures a == b
  {
    DecodeEncode(a);
    DecodeEncode(b);
  }

  /** An encoding holds no byte outside the alphabet and '='; in particular
      no space and no '%'. */
  lemma EncodeHasNoSpaceOrPercent(s: Bytes)
    ensures SPACE !in Encode(s) && PERCENT !in Encode(s)
  {
  }
}
