/** Bytes, C integer limits, and the two number formats of libc the program relies on:
    `strtol(..., 16)` and the `%x` / `%d` conversions of printf. */
module Bytes {
  type byte = b: int | 0 <= b < 256
  type bytes = seq<byte>

  datatype Option<+T> = None | Some(value: T)

  const INT_MAX: int := 0x7fff_ffff
  const INT_MIN: int := -0x8000_0000
  const LONG_MAX: int := 0x7fff_ffff_ffff_ffff
  const LONG_MIN: int := -0x8000_0000_0000_0000

  const NUL: byte := 0
  const TAB: byte := 9
  const LF: byte := 10
  const CR: byte := 13
  const SPACE: byte := 32
  const QUOTE: byte := 34
  const STAR: byte := 42
  const PLUS: byte := 43
  const COMMA: byte := 44
  const MINUS: byte := 45
  const DOT: byte := 46
  const SLASH: byte := 47
  const ZERO: byte := 48
  const COLON: byte := 58
  const OPEN_BRACKET: byte := 91
  const BACKSLASH: byte := 92
  const CLOSE_BRACKET: byte := 93
  const LOWER_U: byte := 117
  const OPEN_BRACE: byte := 123
  const CLOSE_BRACE: byte := 125

  function Min(a: int, b: int): int { if a < b then a else b }

  function Max(a: int, b: int): int { if a < b then b else a }

  /** No byte of `s` is a NUL, so `s` is the contents of a C string. */
  ghost predicate NulFree(s: bytes) { NUL !in s }

  /** What C code takes for the string: its bytes up to the first NUL. */
  function CText(s: bytes): bytes {
    if s == [] || s[0] == NUL then [] else [s[0]] + CText(s[1..])
  }

  lemma {:induction false} CTextWhole(s: bytes)
    ensures CText(s) == s <==> NulFree(s)
  {
    if s != [] && s[0] != NUL {
      var more := s[1..];
      assert s == [s[0]] + more;
      assert NUL in s <==> NUL in more;
      CTextWhole(more);
      assert CText(s)[1..] == CText(more);
    } else if s != [] {
      assert s[0] in s;
    }
  }

  /** `s` stands in `c` at position `p`. */
  ghost predicate At(c: bytes, p: nat, s: bytes) {
    p + |s| <= |c| && forall i {:trigger s[i]} :: 0 <= i < |s| ==> c[p + i] == s[i]
  }

  lemma AtConcat(c: bytes, p: nat, s: bytes, t: bytes)
    ensures At(c, p, s + t) <==> At(c, p, s) && At(c, p + |s|, t)
  {
    if At(c, p, s + t) {
      forall i | 0 <= i < |s| ensures c[p + i] == s[i] { assert (s + t)[i] == s[i]; }
      forall i | 0 <= i < |t| ensures c[p + |s| + i] == t[i] { assert (s + t)[|s| + i] == t[i]; }
    }
  }

  lemma AtIndex(c: bytes, p: nat, s: bytes, i: nat)
    requires At(c, p, s) && i < |s|
    ensures p + i < |c| && c[p + i] == s[i]
  {}

  // ---- hexadecimal ----

  predicate IsHex(b: byte) { 48 <= b <= 57 || 65 <= b <= 70 || 97 <= b <= 102 }

  function HexVal(b: byte): (v: nat)
    requires IsHex(b)
    ensures v < 16
  {
    if b <= 57 then b - 48 else if b <= 70 then b - 55 else b - 87
  }

  /** The digit `%x` prints. */
  function HexDigit(v: nat): (b: byte)
    requires v < 16
    ensures IsHex(b) && HexVal(b) == v
  {
    if v < 10 then 48 + v else 87 + v
  }

  /** `%zx`: lower-case hexadecimal without leading zeros. */
  function HexText(n: nat): (s: bytes)
    ensures |s| >= 1 && forall i :: 0 <= i < |s| ==> IsHex(s[i])
  {
    if n < 16 then [HexDigit(n)] else HexText(n / 16) + [HexDigit(n % 16)]
  }

  /** The value of the longest run of hexadecimal digits at the front, continuing from `acc`. */
  function HexRun(s: bytes, acc: nat): nat
    decreases |s|
  {
    if s != [] && IsHex(s[0]) then HexRun(s[1..], acc * 16 + HexVal(s[0])) else acc
  }

  function SkipBlanks(s: bytes): bytes {
    if s != [] && (s[0] == SPACE || 9 <= s[0] <= 13) then SkipBlanks(s[1..]) else s
  }

  function Saturate(v: int): int {
    if v > LONG_MAX then LONG_MAX else if v < LONG_MIN then LONG_MIN else v
  }

  /** The digits of strtol base 16, after white space and sign: an optional 0x, then digits. */
  function HexMagnitude(s: bytes): nat {
    if |s| >= 2 && s[0] == ZERO && (s[1] == 120 || s[1] == 88) then HexRun(s[2..], 0) else HexRun(s, 0)
  }

  /** `strtol(s, NULL, 16)` with 64-bit long. */
  function Strtol16(s: bytes): int {
    var t := SkipBlanks(s);
    if t != [] && t[0] == MINUS then Saturate(0 - HexMagnitude(t[1..]))
    else if t != [] && t[0] == PLUS then Saturate(HexMagnitude(t[1..]))
    else Saturate(HexMagnitude(t))
  }

  lemma {:induction false} HexRunOfText(n: nat, t: bytes)
    ensures HexRun(HexText(n) + t, 0) == HexRun(t, n)
    decreases n
  {
    if n < 16 {
      assert (HexText(n) + t)[1..] == t;
    } else {
      var d := [HexDigit(n % 16)];
      assert HexText(n) + t == HexText(n / 16) + (d + t);
      HexRunOfText(n / 16, d + t);
      assert (d + t)[1..] == t;
    }
  }

  /** strtol reads back what `%zx` printed, whatever follows, as long as it is no digit and no `x`. */
  lemma StrtolOfText(n: nat, t: bytes)
    requires n <= LONG_MAX
    requires t == [] || (!IsHex(t[0]) && t[0] != 120 && t[0] != 88)
    ensures Strtol16(HexText(n) + t) == n
  {
    var s := HexText(n) + t;
    assert IsHex(s[0]);
    assert |s| >= 2 ==> s[1] != 120 && s[1] != 88 by {
      if |HexText(n)| >= 2 { assert s[1] == HexText(n)[1]; }
    }
    HexRunOfText(n, t);
  }

  lemma {:induction false} HexTextLength(n: nat, k: nat)
    requires n < Pow16(k) && k >= 1
    ensures |HexText(n)| <= k
    decreases k
  {
    if n >= 16 {
      assert k >= 2 by { assert Pow16(1) == 16 * Pow16(0); }
      HexTextLength(n / 16, k - 1);
    }
  }

  function Pow16(k: nat): nat { if k == 0 then 1 else 16 * Pow16(k - 1) }

  // ---- decimal ----

  predicate IsDigit(b: byte) { 48 <= b <= 57 }

  /** The digits of `%d` for a non-negative number. */
  function DecText(n: nat): (s: bytes)
    ensures |s| >= 1 && forall i :: 0 <= i < |s| ==> IsDigit(s[i])
  {
    if n < 10 then [48 + n] else DecText(n / 10) + [48 + n % 10]
  }

  /** `%d`. */
  function IntText(n: int): bytes {
    if n < 0 then [MINUS] + DecText(-n) else DecText(n)
  }

  function DecValue(s: bytes): nat
    requires forall i :: 0 <= i < |s| ==> IsDigit(s[i])
  {
    if s == [] then 0 else
      var last := s[|s| - 1];
      assert IsDigit(last);
      DecValue(s[..|s| - 1]) * 10 + (last as int - 48)
  }

  lemma {:induction false} DecValueOfText(n: nat)
    ensures DecValue(DecText(n)) == n
  {
    if n >= 10 {
      DecValueOfText(n / 10);
      assert DecText(n)[..|DecText(n)| - 1] == DecText(n / 10);
    } else {
      assert DecText(n)[..0] == [];
    }
  }
}
