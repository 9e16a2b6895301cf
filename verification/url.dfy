/** Percent-encoding as PHP's `rawurlencode`, `urlencode` and `urldecode`
    compute it (section 2.1 of RFC 3986; hexadecimal digits are emitted in
    upper case). */
module Url {
  import opened Php

  const TILDE: byte := 126

  predicate IsAlnum(b: byte)
  {
    48 <= b <= 57 || 65 <= b <= 90 || 97 <= b <= 122
  }

  /** The unreserved set of section 2.3 of RFC 3986: ALPHA / DIGIT / "-" / "." / "_" / "~". */
  predicate IsUnreserved(b: byte)
  {
    IsAlnum(b) || b == 45 || b == 46 || b == 95 || b == TILDE
  }

  /** What `urlencode` leaves alone: ALPHA / DIGIT / "-" / "." / "_" ('~' is escaped). */
  predicate IsFormSafe(b: byte)
  {
    IsAlnum(b) || b == 45 || b == 46 || b == 95
  }

  /** `isxdigit`: 0-9, A-F, a-f. */
  predicate IsHexDigit(b: byte)
  {
    48 <= b <= 57 || 65 <= b <= 70 || 97 <= b <= 102
  }

  /** The upper-case hexadecimal digit of a value below 16. */
  function HexDigit(v: int): (d: byte)
    requires 0 <= v < 16
    ensures IsHexDigit(d) && IsAlnum(d)
  {
    if v < 10 then (48 + v) as byte else (55 + v) as byte
  }

  /** The value of a hexadecimal digit of either case. */
  function HexValue(d: byte): (v: int)
    requires IsHexDigit(d)
    ensures 0 <= v < 16
  {
    if d <= 57 then d as int - 48
    else if d <= 70 then d as int - 55
    else d as int - 87
  }

  /** "%XX" for one byte. */
  function PercentEscape(b: byte): Bytes
  {
    [PERCENT, HexDigit(b as int / 16), HexDigit(b as int % 16)]
  }

  /** `rawurlencode`: unreserved bytes stay, every other byte becomes "%XX". */
  function RawUrlEncode(s: Bytes): (r: Bytes)
    ensures |r| >= |s|
    ensures forall i | 0 <= i < |r| :: IsUnreserved(r[i]) || r[i] == PERCENT
    decreases |s|
  {
    if |s| == 0 then []
    else (if IsUnreserved(s[0]) then [s[0]] else PercentEscape(s[0])) + RawUrlEncode(s[1..])
  }

  /** `urlencode`: form encoding; a space becomes '+', and '~' is escaped too. */
  function UrlEncode(s: Bytes): (r: Bytes)
    ensures |r| >= |s|
    ensures forall i | 0 <= i < |r| :: IsFormSafe(r[i]) || r[i] == PERCENT || r[i] == PLUS
    decreases |s|
  {
    if |s| == 0 then []
    else
      (if IsFormSafe(s[0]) then [s[0]] else if s[0] == SPACE then [PLUS] else PercentEscape(s[0]))
      + UrlEncode(s[1..])
  }

  /** `urldecode`: '+' becomes a space, '%' followed by two hexadecimal digits
      becomes the byte they spell, and every other byte, a '%' that does not
      start such a triple included, is copied. */
  function UrlDecode(s: Bytes): (r: Bytes)
    ensures |r| <= |s|
    ensures PERCENT !in s ==> |r| == |s|
    decreases |s|
  {
    if |s| == 0 then []
    else
      TailBytesIn(s);
      if s[0] == PLUS then [SPACE] + UrlDecode(s[1..])
      else if s[0] == PERCENT && |s| >= 3 && IsHexDigit(s[1]) && IsHexDigit(s[2]) then
        [(HexValue(s[1]) * 16 + HexValue(s[2])) as byte] + UrlDecode(s[3..])
      else [s[0]] + UrlDecode(s[1..])
  }

  /** An escape in front decodes to the escaped byte in front. */
  lemma DecodeEscapeThenRest(b: byte, t: Bytes)
    ensures UrlDecode(PercentEscape(b) + t) == [b] + UrlDecode(t)
  {
    var s := PercentEscape(b) + t;
    assert s[0] == PERCENT && s[1] == HexDigit(b as int / 16) && s[2] == HexDigit(b as int % 16);
    assert s[3..] == t;
  }

  /** A byte that is neither '+' nor '%' decodes to itself. */
  lemma DecodePlainThenRest(b: byte, t: Bytes)
    requires b != PLUS && b != PERCENT
    ensures UrlDecode([b] + t) == [b] + UrlDecode(t)
  {
    assert ([b] + t)[1..] == t;
  }

  /** A '+' decodes to a space. */
  lemma DecodePlusThenRest(t: Bytes)
    ensures UrlDecode([PLUS] + t) == [SPACE] + UrlDecode(t)
  {
    assert ([PLUS] + t)[1..] == t;
  }

  /** `urldecode` undoes `rawurlencode`, for every byte string. */
  lemma {:induction false} UrlDecodeRawUrlEncode(s: Bytes)
    ensures UrlDecode(RawUrlEncode(s)) == s
    decreases |s|
  {
    if |s| > 0 {
      if IsUnreserved(s[0]) {
        DecodePlainThenRest(s[0], RawUrlEncode(s[1..]));
      } else {
        DecodeEscapeThenRest(s[0], RawUrlEncode(s[1..]));
      }
      UrlDecodeRawUrlEncode(s[1..]);
      HeadThenTail(s, []);
    }
  }

  /** `urldecode` undoes `urlencode`, for every byte string. */
  lemma {:induction false} UrlDecodeUrlEncode(s: Bytes)
    ensures UrlDecode(UrlEncode(s)) == s
    decreases |s|
  {
    if |s| > 0 {
      var rest := UrlEncode(s[1..]);
      if IsFormSafe(s[0]) {
        DecodePlainThenRest(s[0], rest);
      } else if s[0] == SPACE {
        DecodePlusThenRest(rest);
      } else {
        DecodeEscapeThenRest(s[0], rest);
      }
      UrlDecodeUrlEncode(s[1..]);
      HeadThenTail(s, []);
    }
  }

  /** On a string without spaces and '~' the two encoders agree. */
  lemma {:induction false} EncodersAgree(s: Bytes)
    requires SPACE !in s && TILDE !in s
    ensures UrlEncode(s) == RawUrlEncode(s)
    decreases |s|
  {
    if |s| > 0 {
      assert s[0] in s;
      TailBytesIn(s);
      EncodersAgree(s[1..]);
    }
  }

  /** On a string without '%' escapes, `urldecode` gives back the string
      exactly when it holds no '+'. */
  lemma {:induction false} UrlDecodeFixedIff(s: Bytes)
    requires PERCENT !in s
    ensures UrlDecode(s) == s <==> PLUS !in s
    decreases |s|
  {
    if |s| > 0 {
      TailBytesIn(s);
      UrlDecodeFixedIff(s[1..]);
      HeadThenTail(s, []);
      if s[0] == PLUS {
        assert UrlDecode(s)[0] == SPACE;
      } else {
        assert s[0] != PERCENT;
        assert PLUS in s <==> PLUS in s[1..];
      }
    }
  }
}
