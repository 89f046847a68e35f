/** Unicode escapes: `\uXXXX` literals and surrogate pairs (RFC 2781 section 2.2) turned into
    UTF-8 (RFC 3629 section 3), as utf16_literal_to_utf8 does. */
module Utf8 {
  import opened Bytes

  /** parse_hex4: the value of four hexadecimal digits, or 0 when one of them is not a digit. */
  function ParseHex4(c: bytes, p: nat): (v: nat)
    requires p + 4 <= |c|
    ensures v < 0x10000
  {
    if IsHex(c[p]) && IsHex(c[p + 1]) && IsHex(c[p + 2]) && IsHex(c[p + 3]) then
      ((HexVal(c[p]) * 16 + HexVal(c[p + 1])) * 16 + HexVal(c[p + 2])) * 16 + HexVal(c[p + 3])
    else 0
  }

  /** The encoder's choice of length and its bytes; shifts and masks written as arithmetic. */
  function Encode(cp: nat): (s: bytes)
    requires cp <= 0x10FFFF
    ensures 1 <= |s| <= 4
    ensures |s| == 1 <==> cp < 0x80
    ensures |s| == 4 <==> cp >= 0x10000
  {
    if cp < 0x80 then [cp]
    else if cp < 0x800 then [0xC0 + cp / 64, 0x80 + cp % 64]
    else if cp < 0x10000 then [0xE0 + cp / 4096, 0x80 + cp / 64 % 64, 0x80 + cp % 64]
    else [0xF0 + cp / 262144, 0x80 + cp / 4096 % 64, 0x80 + cp / 64 % 64, 0x80 + cp % 64]
  }

  predicate IsTail(b: byte) { 0x80 <= b < 0xC0 }

  predicate IsScalar(cp: nat) { cp <= 0x10FFFF && !(0xD800 <= cp < 0xE000) }

  /** An independent decoder: exactly the byte sequences of RFC 3629 section 4, no overlong forms
      and no surrogates. */
  function Decode(s: bytes): Option<nat> {
    if |s| == 1 && s[0] < 0x80 then Some(s[0])
    else if |s| == 2 && 0xC2 <= s[0] < 0xE0 && IsTail(s[1]) then
      Some((s[0] as int - 0xC0) * 64 + (s[1] as int - 0x80))
    else if |s| == 3 && 0xE0 <= s[0] < 0xF0 && IsTail(s[1]) && IsTail(s[2]) then
      var cp := (s[0] as int - 0xE0) * 4096 + (s[1] as int - 0x80) * 64 + (s[2] as int - 0x80);
      if cp >= 0x800 && IsScalar(cp) then Some(cp) else None
    else if |s| == 4 && 0xF0 <= s[0] < 0xF5 && IsTail(s[1]) && IsTail(s[2]) && IsTail(s[3]) then
      var cp := (s[0] as int - 0xF0) * 262144 + (s[1] as int - 0x80) * 4096 +
                (s[2] as int - 0x80) * 64 + (s[3] as int - 0x80);
      if cp >= 0x10000 && IsScalar(cp) then Some(cp) else None
    else None
  }

  /** UTF-8 decoding inverts the encoder on every Unicode scalar value. */
  lemma DecodeEncode(cp: nat)
    requires IsScalar(cp)
    ensures Decode(Encode(cp)) == Some(cp)
  {
    assert cp / 64 / 64 == cp / 4096;
    assert cp / 4096 / 64 == cp / 262144;
  }

  predicate IsHighSurrogate(v: nat) { 0xD800 <= v <= 0xDBFF }

  predicate IsLowSurrogate(v: nat) { 0xDC00 <= v <= 0xDFFF }

  /** Consumed 0 means the literal is refused. */
  datatype Literal = Literal(consumed: nat, utf8: bytes)

  /** utf16_literal_to_utf8 on the literal at `p`, with the string's closing quote at `end`. */
  function Utf16Literal(c: bytes, p: nat, end: nat): (r: Literal)
    requires p <= end <= |c|
    ensures p + r.consumed <= end
    ensures r.consumed == 0 || r.consumed == 6 || r.consumed == 12
    ensures r.consumed == 0 ==> r.utf8 == []
  {
    if end - p < 6 then Literal(0, [])
    else
      var first := ParseHex4(c, p + 2);
      if IsLowSurrogate(first) then Literal(0, [])
      else if IsHighSurrogate(first) then
        if end - (p + 6) < 6 then Literal(0, [])
        else if c[p + 6] != BACKSLASH || c[p + 7] != LOWER_U then Literal(0, [])
        else
          var second := ParseHex4(c, p + 8);
          if !IsLowSurrogate(second) then Literal(0, [])
          else Literal(12, Encode(0x10000 + first % 0x400 * 0x400 + second % 0x400))
      else Literal(6, Encode(first))
  }

  /** `\uXXXX` is written at `p`. */
  ghost predicate EscapeAt(c: bytes, p: nat, end: nat, code: nat) {
    p + 6 <= end <= |c| && c[p] == BACKSLASH && c[p + 1] == LOWER_U &&
    IsHex(c[p + 2]) && IsHex(c[p + 3]) && IsHex(c[p + 4]) && IsHex(c[p + 5]) &&
    code == ParseHex4(c, p + 2)
  }

  /** A well-formed escape outside the surrogate range becomes the UTF-8 form of its code. */
  lemma BasicEscape(c: bytes, p: nat, end: nat, code: nat)
    requires EscapeAt(c, p, end, code) && IsScalar(code)
    ensures Utf16Literal(c, p, end).consumed == 6
    ensures Decode(Utf16Literal(c, p, end).utf8) == Some(code)
  {
    DecodeEncode(code);
  }

  lemma LowTenBits(v: nat, q: nat)
    requires q * 0x400 <= v < q * 0x400 + 0x400
    ensures v % 0x400 == v - q * 0x400
  {}

  /** A surrogate pair becomes the UTF-8 form of the supplementary code point that RFC 2781
      section 2.2 assigns to it, and every supplementary code point is reached. */
  lemma PairEscape(c: bytes, p: nat, end: nat, high: nat, low: nat)
    requires EscapeAt(c, p, end, high) && IsHighSurrogate(high)
    requires EscapeAt(c, p + 6, end, low) && IsLowSurrogate(low)
    ensures Utf16Literal(c, p, end).consumed == 12
    ensures Decode(Utf16Literal(c, p, end).utf8) == Some(0x10000 + (high - 0xD800) * 0x400 + (low - 0xDC00))
  {
    LowTenBits(high, 54);
    LowTenBits(low, 55);
    DecodeEncode(0x10000 + (high - 0xD800) * 0x400 + (low - 0xDC00));
  }

  /** A surrogate without its partner is refused: a low one first, or a high one that no escaped
      low one follows. A six-character literal that runs past the closing quote is refused too. */
  lemma LoneSurrogate(c: bytes, p: nat, end: nat, code: nat)
    requires EscapeAt(c, p, end, code)
    ensures Utf16Literal(c, p, end).consumed == 0 <==>
            IsLowSurrogate(code) ||
            (IsHighSurrogate(code) && !exists low :: IsLowSurrogate(low) && EscapeAt(c, p + 6, end, low))
  {
    if IsHighSurrogate(code) && p + 12 <= end {
      var second := ParseHex4(c, p + 8);
      if IsLowSurrogate(second) && c[p + 6] == BACKSLASH && c[p + 7] == LOWER_U {
        assert EscapeAt(c, p + 6, end, second);
      }
    }
  }

  /** Every Unicode scalar value above the basic plane has a surrogate pair. */
  lemma PairExists(cp: nat) returns (high: nat, low: nat)
    requires 0x10000 <= cp <= 0x10FFFF
    ensures IsHighSurrogate(high) && IsLowSurrogate(low)
    ensures cp == 0x10000 + (high - 0xD800) * 0x400 + (low - 0xDC00)
  {
    high := 0xD800 + (cp - 0x10000) / 0x400;
    low := 0xDC00 + (cp - 0x10000) % 0x400;
  }
}
