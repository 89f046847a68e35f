/** The texts the parser accepts, beyond RFC 8259, as a grammar stated without it, and what its leaves
    have to do with parse_number and parse_string. White space is any run of bytes up to 32; a numeral
    is whatever begins with a minus or a digit and strtod reads completely, so leading zeros and a bare
    fraction are allowed; a string may hold raw control bytes, malformed `\u` escapes that count as 0,
    and quotes that such an escape hides from the second pass. */
module JsonRelaxed {
  import opened Bytes
  import opened JsonTree
  import opened JsonParser
  import opened JsonGrammar
  import JsonNumber
  import JsonString
  import Utf8

  // ---- the grammar: bytes `i` to `j` of `c` spell a value ----

  ghost predicate Blank(c: bytes, i: nat, j: nat) {
    i <= j <= |c| && forall k :: i <= k < j ==> c[k] <= 32
  }

  ghost predicate Numeral(s: bytes, t: Json) {
    s != [] && (s[0] == MINUS || IsDigit(s[0])) && JsonNumber.StrtodOf(s) == JsonNumber.Strtod(|s|, t)
  }

  /** There is no quote from `p` to `e` but behind a backslash, and no backslash without a byte behind it. */
  predicate Unbroken(c: bytes, p: nat, e: nat)
    requires e <= |c|
    decreases |c| - p
  {
    if p >= e then p == e
    else if c[p] == BACKSLASH then Unbroken(c, p + 2, e)
    else c[p] != QUOTE && Unbroken(c, p + 1, e)
  }

  /** `ps` spell the string whose closing quote stands at `end`: they stop there, or a two-character
      escape at the end takes the quote itself. */
  predicate UpTo(ps: seq<Piece>, p: nat, end: nat) {
    p + |PiecesText(ps)| == end || (p + |PiecesText(ps)| == end + 1 && ps != [] && ps[|ps| - 1].Short?)
  }

  /** The characters `ps` between the quotes, by the second pass's reading. */
  ghost predicate Spelled(c: bytes, p: nat, e: nat, ps: seq<Piece>) {
    LoosePieces(ps) && At(c, p, PiecesText(ps)) && UpTo(ps, p, e)
  }

  ghost predicate StringLiteral(c: bytes, i: nat, j: nat, s: bytes) {
    i + 2 <= j <= |c| && c[i] == QUOTE && c[j - 1] == QUOTE && Unbroken(c, i + 1, j - 1) &&
    exists ps :: Spelled(c, i + 1, j - 1, ps) && PiecesValue(ps) == s
  }

  ghost predicate Spells(c: bytes, i: nat, j: nat, t: Json)
    decreases t, 2
  {
    i <= j <= |c| &&
    match t
    case Null => c[i..j] == NULL_LITERAL
    case False => c[i..j] == FALSE_LITERAL
    case True => c[i..j] == TRUE_LITERAL
    case Number(_) => Numeral(c[i..j], t)
    case Real(_) => Numeral(c[i..j], t)
    case String(s) => StringLiteral(c, i, j, s)
    case Array(items) => Enclosed(c, i, j, OPEN_BRACKET, CLOSE_BRACKET) && SpellsItems(c, i + 1, j - 1, items)
    case Object(ms) => Enclosed(c, i, j, OPEN_BRACE, CLOSE_BRACE) && SpellsMembers(c, i + 1, j - 1, ms)
  }

  predicate Enclosed(c: bytes, i: nat, j: nat, open: byte, close: byte) {
    i + 2 <= j <= |c| && c[i] == open && c[j - 1] == close
  }

  /** A value with white space around it. */
  ghost predicate Padded(c: bytes, i: nat, j: nat, t: Json)
    decreases t, 3
  {
    exists a: nat, b: nat :: Blank(c, i, a) && Spells(c, a, b, t) && Blank(c, b, j)
  }

  ghost predicate SpellsItems(c: bytes, i: nat, j: nat, items: seq<Json>)
    decreases items, 4
  {
    if items == [] then Blank(c, i, j)
    else if |items| == 1 then Padded(c, i, j, items[0])
    else exists k: nat :: k < |c| && c[k] == COMMA && Padded(c, i, k, items[0]) && SpellsItems(c, k + 1, j, items[1..])
  }

  /** A key, its colon and a value, with white space around each. */
  ghost predicate SpellsMember(c: bytes, i: nat, j: nat, m: Member)
    decreases m, 4
  {
    exists a: nat, b: nat, k: nat ::
      Blank(c, i, a) && StringLiteral(c, a, b, m.key) && Blank(c, b, k) && ByteAt(c, k, COLON) && Padded(c, k + 1, j, m.item)
  }

  ghost predicate SpellsMembers(c: bytes, i: nat, j: nat, ms: seq<Member>)
    decreases ms, 5
  {
    if ms == [] then Blank(c, i, j)
    else if |ms| == 1 then SpellsMember(c, i, j, ms[0])
    else exists k: nat :: k < |c| && c[k] == COMMA && SpellsMember(c, i, k, ms[0]) && SpellsMembers(c, k + 1, j, ms[1..])
  }

  /** A C string's buffer that holds a value, white space around it and a byte order mark in front or
      not, up to its last byte, which is NUL. */
  ghost predicate Document(c: bytes, t: Json) {
    c != [] && c[|c| - 1] == NUL && Padded(c, Front(c), |c| - 1, t)
  }

  /** No longer text from `a` on is a numeral. */
  ghost predicate Longest(c: bytes, a: nat, b: nat) {
    forall e: nat, u :: b < e <= |c| && a <= e ==> !Numeral(c[a..e], u)
  }

  /** A buffer that begins with a value, behind white space and a byte order mark or not; a number is
      as long as it can be. */
  ghost predicate BeginsWith(c: bytes, t: Json) {
    exists a: nat, b: nat :: Blank(c, Front(c), a) && Spells(c, a, b, t) && (IsNumber(t) ==> Longest(c, a, b))
  }

  predicate IsNumber(t: Json) { t.Number? || t.Real? }

  /** The byte order mark is skipped if more than one byte follows it. */
  function Front(c: bytes): nat { if |c| > 4 && LiteralAt(c, 0, BOM) then 3 else 0 }

  // ---- first bytes and white space ----

  /** A literal is told by its first byte. */
  lemma LiteralStart(c: bytes, off: nat, lit: bytes)
    requires lit != [] && LiteralAt(c, off, lit)
    ensures c[off] == lit[0]
  {
    assert c[off..off + |lit|][0] == c[off];
  }

  lemma NoLiteral(c: bytes, off: nat)
    requires off < |c| && c[off] != 110 && c[off] != 102 && c[off] != 116
    ensures !LiteralAt(c, off, NULL_LITERAL) && !LiteralAt(c, off, FALSE_LITERAL) && !LiteralAt(c, off, TRUE_LITERAL)
  {
    hide LiteralAt;
    if LiteralAt(c, off, NULL_LITERAL) { LiteralStart(c, off, NULL_LITERAL); }
    if LiteralAt(c, off, FALSE_LITERAL) { LiteralStart(c, off, FALSE_LITERAL); }
    if LiteralAt(c, off, TRUE_LITERAL) { LiteralStart(c, off, TRUE_LITERAL); }
  }

  lemma Dispatch(c: bytes, off: nat, depth: nat)
    requires off < |c|
    ensures c[off] == MINUS || IsDigit(c[off]) ==> ParseValue(c, off, depth) == ParseNumber(c, off, depth)
    ensures c[off] == OPEN_BRACKET ==> ParseValue(c, off, depth) == ParseArray(c, off, depth)
    ensures c[off] == OPEN_BRACE ==> ParseValue(c, off, depth) == ParseObject(c, off, depth)
    ensures c[off] == QUOTE && JsonString.ParseString(c, off).ok ==>
              ParseValue(c, off, depth) ==
              Outcome(true, String(JsonString.ParseString(c, off).str), JsonString.ParseString(c, off).offset, depth)
  {
    hide ParseNumber, JsonString.ParseString, ParseArray, ParseObject, LiteralAt;
    if c[off] != 110 && c[off] != 102 && c[off] != 116 { NoLiteral(c, off); }
  }

  lemma SkipTo(c: bytes, i: nat, j: nat)
    requires i <= j < |c| && c[j] > 32
    requires forall k :: i <= k < j ==> c[k] <= 32
    ensures SkipSpace(c, i) == j
    decreases j - i
  {
    assert SpaceRun(c, i) == j by {
      var r := SpaceRun(c, i);
      assert !(r < j);
      assert !(j < r);
    }
  }

  /** The step back at the end of the buffer is what leaves the offset on the terminator. */
  lemma SkipToTerminator(c: bytes, i: nat)
    requires i < |c| && forall k :: i <= k < |c| ==> c[k] <= 32
    ensures SkipSpace(c, i) == |c| - 1
  {
    var r := SpaceRun(c, i);
    assert !(r < |c|);
  }

  // ---- numerals ----

  /** A value's text is not run on by what follows it. */
  ghost predicate Delimited(c: bytes, e: nat) {
    e <= |c| && (e < |c| ==> !JsonNumber.IsNumberByte(c[e]))
  }

  /** The end of the digits behind the point at `e`, or `e` if there is none. */
  function FractionEnd(s: bytes, e: nat): (f: nat)
    requires e <= |s|
    ensures e <= f <= |s|
  {
    if e < |s| && s[e] == DOT then JsonNumber.DigitRun(s, e + 1) else e
  }

  /** strtod from the ends of its parts: sign, digits, fraction, exponent. */
  lemma StrtodParts(s: bytes, d: nat, e: nat, f: nat, x: nat)
    requires d == JsonNumber.SignEnd(s, 0) && e == JsonNumber.DigitRun(s, d) && f == FractionEnd(s, e) && x == JsonNumber.ExponentEnd(s, f)
    ensures JsonNumber.StrtodOf(s) ==
            if e == d && f <= e + 1 then JsonNumber.Strtod(0, Null)
            else if x > e then JsonNumber.Strtod(x, Real(s[..x]))
            else
              var v := if s[0] == MINUS then -(DecValue(s[d..e]) as int) else DecValue(s[d..e]);
              JsonNumber.Strtod(e, if IsCInt(v) then Number(v) else Real(s[..e]))
  {
    hide DecValue, JsonNumber.DigitRun, JsonNumber.ExponentEnd, JsonNumber.SignEnd;
  }

  /** strtod reads what it consumed of a text the same without the rest. */
  lemma StrtodPrefix(s: bytes)
    requires JsonNumber.StrtodOf(s).consumed > 0
    ensures var r := JsonNumber.StrtodOf(s); JsonNumber.StrtodOf(s[..r.consumed]) == r && (r.number.Number? || r.number.Real?)
  {
    hide DecValue, JsonNumber.DigitRun, JsonNumber.ExponentEnd, JsonNumber.StrtodOf, FractionEnd;
    var d := JsonNumber.SignEnd(s, 0);
    var e := JsonNumber.DigitRun(s, d);
    var f := FractionEnd(s, e);
    var x := JsonNumber.ExponentEnd(s, f);
    var u := s[..x];
    StrtodParts(s, d, e, f, x);
    assert d == JsonNumber.SignEnd(u, 0);
    DigitsPrefix(s, x, d);
    FractionPrefix(s, x, e);
    ExponentPrefix(s, f, x);
    StrtodParts(u, d, e, f, x);
    assert u[d..e] == s[d..e] && u[..x] == s[..x];
  }

  lemma DigitsPrefix(s: bytes, m: nat, i: nat)
    requires i <= m <= |s| && JsonNumber.DigitRun(s, i) <= m
    ensures JsonNumber.DigitRun(s[..m], i) == JsonNumber.DigitRun(s, i)
  {
    hide JsonNumber.DigitRun;
    JsonNumber.DigitRunIs(s[..m], i, JsonNumber.DigitRun(s, i));
  }

  lemma FractionPrefix(s: bytes, m: nat, e: nat)
    requires e <= m <= |s| && FractionEnd(s, e) <= m
    ensures FractionEnd(s[..m], e) == FractionEnd(s, e)
  {
    hide JsonNumber.DigitRun;
    if e < |s| && s[e] == DOT { DigitsPrefix(s, m, e + 1); }
  }

  lemma ExponentPrefix(s: bytes, f: nat, x: nat)
    requires f <= |s| && x == JsonNumber.ExponentEnd(s, f)
    ensures JsonNumber.ExponentEnd(s[..x], f) == x
  {
    hide JsonNumber.DigitRun;
    if x > f { JsonNumber.DigitRunIs(s[..x], JsonNumber.SignEnd(s, f + 1), x); }
  }

  lemma NumeralBytes(s: bytes, t: Json)
    requires Numeral(s, t)
    ensures forall k :: 0 <= k < |s| ==> JsonNumber.IsNumberByte(s[k])
    ensures t.Number? || t.Real?
  {
    hide DecValue, JsonNumber.DigitRun;
  }

  /** And it reads as far as it can. */
  lemma StrtodLongest(s: bytes, m: nat, t: Json)
    requires m <= |s| && Numeral(s[..m], t)
    ensures JsonNumber.StrtodOf(s).consumed >= m
  {
    hide DecValue, JsonNumber.DigitRun, JsonNumber.ExponentEnd, JsonNumber.StrtodOf, FractionEnd;
    var u := s[..m];
    var d := JsonNumber.SignEnd(u, 0);
    var e, e' := JsonNumber.DigitRun(u, d), JsonNumber.DigitRun(s, d);
    var f, f' := FractionEnd(u, e), FractionEnd(s, e');
    StrtodParts(u, d, e, f, JsonNumber.ExponentEnd(u, f));
    assert d == JsonNumber.SignEnd(s, 0);
    StrtodParts(s, d, e', f', JsonNumber.ExponentEnd(s, f'));
    DigitsGrow(s, m, d);
    if e < m {
      FractionGrows(s, m, e);
      if f < m { ExponentGrows(s, m, f); }
    }
  }

  lemma DigitsGrow(s: bytes, m: nat, i: nat)
    requires i <= m <= |s|
    ensures var r := JsonNumber.DigitRun(s[..m], i); if r < m then JsonNumber.DigitRun(s, i) == r else JsonNumber.DigitRun(s, i) >= m
  {
    hide JsonNumber.DigitRun;
    var u := s[..m];
    var r := JsonNumber.DigitRun(u, i);
    assert forall k :: i <= k < r ==> u[k] == s[k];
    if r < m { JsonNumber.DigitRunIs(s, i, r); }
  }

  lemma FractionGrows(s: bytes, m: nat, e: nat)
    requires e < m <= |s|
    ensures var f := FractionEnd(s[..m], e); if f < m then FractionEnd(s, e) == f else FractionEnd(s, e) >= m
  {
    hide JsonNumber.DigitRun;
    if s[e] == DOT { DigitsGrow(s, m, e + 1); }
  }

  lemma ExponentGrows(s: bytes, m: nat, f: nat)
    requires f <= m <= |s|
    ensures JsonNumber.ExponentEnd(s[..m], f) == m ==> JsonNumber.ExponentEnd(s, f) >= m
  {
    hide JsonNumber.DigitRun;
    var u := s[..m];
    if f < m && JsonNumber.ExponentEnd(u, f) == m {
      DigitsGrow(s, m, JsonNumber.SignEnd(u, f + 1));
    }
  }

  /** A numeral lies within the token. */
  lemma WithinToken(c: bytes, i: nat, j: nat, t: Json)
    requires i <= j <= |c| && Numeral(c[i..j], t)
    ensures j <= JsonNumber.NumberRun(c, i)
    ensures JsonNumber.StrtodOf(c[i..JsonNumber.NumberRun(c, i)]).consumed >= j - i
  {
    hide JsonNumber.NumberRun, JsonNumber.StrtodOf, Numeral;
    var s := c[i..j];
    NumeralBytes(s, t);
    forall k | i <= k < j ensures JsonNumber.IsNumberByte(c[k]) { assert c[k] == s[k - i]; }
    RunCovers(c, i, j);
    var e := JsonNumber.NumberRun(c, i);
    assert c[i..e][..j - i] == s;
    StrtodLongest(c[i..e], j - i, t);
  }

  lemma {:induction false} RunCovers(c: bytes, i: nat, j: nat)
    requires i <= j <= |c| && forall k :: i <= k < j ==> JsonNumber.IsNumberByte(c[k])
    ensures j <= JsonNumber.NumberRun(c, i)
    decreases j - i
  {
    if i < j { RunCovers(c, i + 1, j); }
  }

  lemma NumberIsLongest(c: bytes, i: nat, depth: nat)
    requires i <= |c| && ParseNumber(c, i, depth).ok
    ensures Longest(c, i, ParseNumber(c, i, depth).offset)
  {
    hide Numeral, JsonNumber.StrtodOf, JsonNumber.NumberRun;
    forall e: nat, u | ParseNumber(c, i, depth).offset < e <= |c| && i <= e ensures !Numeral(c[i..e], u) {
      if Numeral(c[i..e], u) { WithinToken(c, i, e, u); }
    }
  }

  lemma LongestRead(c: bytes, i: nat, j: nat, t: Json, depth: nat)
    requires i < j <= |c| && Numeral(c[i..j], t) && Longest(c, i, j)
    ensures ParseNumber(c, i, depth) == Outcome(true, t, j, depth)
  {
    hide JsonNumber.StrtodOf, JsonNumber.NumberRun;
    WithinToken(c, i, j, t);
    var e := JsonNumber.NumberRun(c, i);
    var s := c[i..e];
    assert c[i] == c[i..j][0];
    TokenNumeral(c, i, e);
    StrtodPrefix(s);
    assert s[..j - i] == c[i..j];
  }

  lemma NumberAccepted(c: bytes, i: nat, depth: nat)
    requires i < |c| && (c[i] == MINUS || IsDigit(c[i])) && ParseNumber(c, i, depth).ok
    ensures Spells(c, i, ParseNumber(c, i, depth).offset, ParseNumber(c, i, depth).value)
  {
    hide JsonNumber.StrtodOf, JsonNumber.NumberRun, Numeral;
    var n := JsonNumber.StrtodOf(c[i..JsonNumber.NumberRun(c, i)]);
    TokenNumeral(c, i, JsonNumber.NumberRun(c, i));
    assert n.number == ParseNumber(c, i, depth).value;
  }

  lemma TokenNumeral(c: bytes, i: nat, j: nat)
    requires i < j <= |c| && (c[i] == MINUS || IsDigit(c[i])) && JsonNumber.StrtodOf(c[i..j]).consumed > 0
    ensures var n := JsonNumber.StrtodOf(c[i..j]);
            i + n.consumed <= |c| && Numeral(c[i..i + n.consumed], n.number) && (n.number.Number? || n.number.Real?)
  {
    hide JsonNumber.StrtodOf;
    var s := c[i..j];
    var n := JsonNumber.StrtodOf(s);
    StrtodPrefix(s);
    assert s[..n.consumed] == c[i..i + n.consumed];
    assert c[i..i + n.consumed][0] == c[i];
  }

  lemma NumberRead(c: bytes, i: nat, j: nat, t: Json, depth: nat)
    requires i <= j && Delimited(c, j) && Numeral(c[i..j], t)
    ensures ParseValue(c, i, depth) == Outcome(true, t, j, depth)
  {
    hide ParseValue, JsonNumber.StrtodOf, JsonNumber.NumberRun;
    var s := c[i..j];
    NumeralBytes(s, t);
    forall k | i <= k < j ensures JsonNumber.IsNumberByte(c[k]) { assert c[k] == s[k - i]; }
    JsonNumber.NumberRunIs(c, i, j);
    assert c[i] == s[0];
    Dispatch(c, i, depth);
  }

  // ---- strings ----

  /** The first pass ends on the first quote that no backslash hides. */
  lemma {:induction false} ScanIsUnbroken(c: bytes, p: nat, e: nat)
    requires p <= |c| && e < |c|
    ensures c[e] == QUOTE && Unbroken(c, p, e) <==> JsonString.ScanEnd(c, p).Some? && JsonString.ScanEnd(c, p).value.end == e
    decreases |c| - p
  {
    if p < e {
      if c[p] == BACKSLASH {
        if p + 2 <= |c| { ScanIsUnbroken(c, p + 2, e); }
      } else if c[p] != QUOTE {
        ScanIsUnbroken(c, p + 1, e);
      }
    }
  }

  lemma UnitBytes(c: bytes, p: nat, digits: bytes)
    requires |digits| == 4 && At(c, p, [BACKSLASH, LOWER_U] + digits)
    ensures p + 6 <= |c| && c[p] == BACKSLASH && c[p + 1] == LOWER_U
    ensures c[p + 2] == digits[0] && c[p + 3] == digits[1] && c[p + 4] == digits[2] && c[p + 5] == digits[3]
    ensures Utf8.ParseHex4(c, p + 2) == Utf8.ParseHex4(digits, 0)
  {
    var s := [BACKSLASH, LOWER_U] + digits;
    AtIndex(c, p, s, 0);
    AtIndex(c, p, s, 1);
    AtIndex(c, p, s, 2);
    AtIndex(c, p, s, 3);
    AtIndex(c, p, s, 4);
    AtIndex(c, p, s, 5);
  }

  /** The second pass turns every piece it knows into the bytes of its character; a two-character
      escape may reach over the closing quote. */
  lemma DecodeOnePiece(c: bytes, p: nat, end: nat, x: Piece)
    requires LoosePiece(x) && At(c, p, PieceText(x)) && end < |c|
    requires p + |PieceText(x)| <= end || (x.Short? && p + 2 == end + 1)
    ensures JsonString.DecodeStep(c, p, end) == Utf8.Literal(|PieceText(x)|, PieceValue(x))
  {
    hide At, Utf8.ParseHex4, Utf8.Encode;
    match x
    case Plain(b) =>
      AtIndex(c, p, PieceText(x), 0);
    case Short(letter) =>
      AtIndex(c, p, PieceText(x), 0);
      AtIndex(c, p, PieceText(x), 1);
      assert letter != LOWER_U;
    case Unit(digits) =>
      UnitBytes(c, p, digits);
    case Pair(high, low) =>
      AtConcat(c, p, [BACKSLASH, LOWER_U] + high, [BACKSLASH, LOWER_U] + low);
      UnitBytes(c, p, high);
      UnitBytes(c, p + 6, low);
      Utf8.LowTenBits(Utf8.ParseHex4(high, 0), 54);
      Utf8.LowTenBits(Utf8.ParseHex4(low, 0), 55);
  }

  /** The character that one turn of the second pass took. */
  lemma StepPiece(c: bytes, p: nat, e: nat) returns (x: Piece)
    requires p < e < |c| && c[e] == QUOTE && JsonString.DecodeStep(c, p, e).consumed > 0
    ensures LoosePiece(x) && At(c, p, PieceText(x)) && JsonString.DecodeStep(c, p, e) == Utf8.Literal(|PieceText(x)|, PieceValue(x))
    ensures p + |PieceText(x)| <= e || (x.Short? && p + 2 == e + 1)
  {
    hide Utf8.Encode, Utf8.ParseHex4, Utf8.Utf16Literal;
    if c[p] != BACKSLASH {
      x := Plain(c[p]);
    } else if c[p + 1] != LOWER_U {
      x := Short(c[p + 1]);
    } else if JsonString.DecodeStep(c, p, e).consumed == 6 {
      x := UnitTaken(c, p, e);
    } else {
      x := PairTaken(c, p, e);
    }
  }

  lemma UnitTaken(c: bytes, p: nat, e: nat) returns (x: Piece)
    requires p + 2 <= e < |c| && c[p] == BACKSLASH && c[p + 1] == LOWER_U && Utf8.Utf16Literal(c, p, e).consumed == 6
    ensures LoosePiece(x) && x.Unit? && |PieceText(x)| == 6 && At(c, p, PieceText(x))
    ensures Utf8.Utf16Literal(c, p, e).utf8 == PieceValue(x)
  {
    hide Utf8.Encode, Utf8.ParseHex4;
    x := Unit(c[p + 2..p + 6]);
    SameDigits(c, p + 2);
    EscapeStands(c, p);
  }

  lemma PairTaken(c: bytes, p: nat, e: nat) returns (x: Piece)
    requires p + 2 <= e < |c| && c[p] == BACKSLASH && c[p + 1] == LOWER_U && Utf8.Utf16Literal(c, p, e).consumed == 12
    ensures LoosePiece(x) && x.Pair? && |PieceText(x)| == 12 && At(c, p, PieceText(x))
    ensures Utf8.Utf16Literal(c, p, e).utf8 == PieceValue(x)
  {
    hide Utf8.Encode, Utf8.ParseHex4, At;
    x := Pair(c[p + 2..p + 6], c[p + 8..p + 12]);
    SameDigits(c, p + 2);
    SameDigits(c, p + 8);
    EscapeStands(c, p);
    EscapeStands(c, p + 6);
    AtConcat(c, p, [BACKSLASH, LOWER_U] + x.high, [BACKSLASH, LOWER_U] + x.low);
    Utf8.LowTenBits(Utf8.ParseHex4(x.high, 0), 54);
    Utf8.LowTenBits(Utf8.ParseHex4(x.low, 0), 55);
  }

  lemma EscapeStands(c: bytes, p: nat)
    requires p + 6 <= |c| && c[p] == BACKSLASH && c[p + 1] == LOWER_U
    ensures At(c, p, [BACKSLASH, LOWER_U] + c[p + 2..p + 6])
  {
    var s := [BACKSLASH, LOWER_U] + c[p + 2..p + 6];
    assert s[0] == c[p] && s[1] == c[p + 1];
    assert forall i :: 2 <= i < 6 ==> s[i] == c[p + i];
  }

  lemma SameDigits(c: bytes, p: nat)
    requires p + 4 <= |c|
    ensures Utf8.ParseHex4(c[p..p + 4], 0) == Utf8.ParseHex4(c, p)
  {
    var s := c[p..p + 4];
    assert s[0] == c[p] && s[1] == c[p + 1] && s[2] == c[p + 2] && s[3] == c[p + 3];
  }

  lemma {:induction false} DecodedPieces(c: bytes, p: nat, e: nat, acc: bytes) returns (ps: seq<Piece>)
    requires p <= e < |c| && c[e] == QUOTE && JsonString.Decode(c, p, e, acc).ok
    ensures Spelled(c, p, e, ps) && JsonString.Decode(c, p, e, acc).out == acc + PiecesValue(ps)
    decreases e - p
  {
    hide *;
    DecodeOnce(c, p, e, acc);
    if p == e {
      ps := [];
      NoPieces(c, p);
      assert acc + [] == acc;
    } else {
      var x := StepPiece(c, p, e);
      var next := p + |PieceText(x)|;
      var more: seq<Piece> := [];
      if next <= e {
        more := DecodedPieces(c, next, e, acc + PieceValue(x));
        InsideSpelled(c, next, e, more);
      } else {
        NoPieces(c, next);
        DecodeOnce(c, next, e, acc + PieceValue(x));
        assert acc + PieceValue(x) + [] == acc + PieceValue(x);
      }
      ps := [x] + more;
      PutInFront(c, p, e, x, more);
      assert acc + PieceValue(x) + PiecesValue(more) == acc + (PieceValue(x) + PiecesValue(more));
    }
  }

  lemma DecodeOnce(c: bytes, p: nat, e: nat, acc: bytes)
    requires p <= e + 1 && e < |c|
    ensures p >= e ==> JsonString.Decode(c, p, e, acc) == JsonString.Decoded(true, acc, p)
    ensures p < e && JsonString.Decode(c, p, e, acc).ok ==>
              var step := JsonString.DecodeStep(c, p, e);
              step.consumed > 0 && JsonString.Decode(c, p, e, acc) == JsonString.Decode(c, p + step.consumed, e, acc + step.utf8)
  {
    hide JsonString.DecodeStep;
  }

  lemma NoPieces(c: bytes, p: nat)
    requires p <= |c|
    ensures LoosePieces([]) && At(c, p, PiecesText([])) && PiecesValue([]) == [] && UpTo([], p, p) && Spelled(c, p, p, [])
  {}

  lemma InsideSpelled(c: bytes, p: nat, e: nat, ps: seq<Piece>)
    requires Spelled(c, p, e, ps)
    ensures LoosePieces(ps) && At(c, p, PiecesText(ps)) && UpTo(ps, p, e)
  {}

  lemma PutInFront(c: bytes, p: nat, e: nat, x: Piece, more: seq<Piece>)
    requires LoosePiece(x) && At(c, p, PieceText(x)) && LoosePieces(more)
    requires At(c, p + |PieceText(x)|, PiecesText(more))
    requires UpTo(more, p + |PieceText(x)|, e) || (more == [] && x.Short? && p + 2 == e + 1)
    ensures Spelled(c, p, e, [x] + more) && PiecesValue([x] + more) == PieceValue(x) + PiecesValue(more)
  {
    hide PieceValue, LoosePiece, At;
    var ps := [x] + more;
    assert ps[1..] == more;
    AtConcat(c, p, PieceText(x), PiecesText(more));
  }

  lemma FirstFits(ps: seq<Piece>, p: nat, end: nat)
    requires ps != [] && UpTo(ps, p, end)
    ensures p < end
    ensures if |ps| == 1 then ps[1..] == [] && p + |PieceText(ps[0])| >= end else UpTo(ps[1..], p + |PieceText(ps[0])|, end)
    ensures p + |PieceText(ps[0])| <= end || (ps[0].Short? && p + 2 == end + 1)
  {
    if |ps| > 1 {
      assert ps[1..] != [] && ps[1..][|ps| - 2] == ps[|ps| - 1];
      LastText(ps[1..]);
    } else {
      assert ps[1..] == [] && PiecesText(ps) == PieceText(ps[0]);
    }
  }

  lemma {:induction false} LastText(ps: seq<Piece>)
    requires ps != []
    ensures |PiecesText(ps)| >= |PieceText(ps[|ps| - 1])|
  {
    hide PieceText;
    if |ps| > 1 { LastText(ps[1..]); }
  }

  lemma {:induction false} DecodeOfPieces(c: bytes, p: nat, end: nat, ps: seq<Piece>, acc: bytes)
    requires LoosePieces(ps) && At(c, p, PiecesText(ps)) && UpTo(ps, p, end) && end < |c|
    ensures JsonString.Decode(c, p, end, acc) == JsonString.Decoded(true, acc + PiecesValue(ps), p + |PiecesText(ps)|)
    decreases |ps|
  {
    hide JsonString.DecodeStep, At, PieceText, PieceValue, LoosePiece;
    if ps == [] {
      assert acc + [] == acc;
    } else {
      var first, rest := PieceText(ps[0]), PiecesText(ps[1..]);
      AtConcat(c, p, first, rest);
      FirstFits(ps, p, end);
      DecodeOnePiece(c, p, end, ps[0]);
      if |ps| > 1 { DecodeOfPieces(c, p + |first|, end, ps[1..], acc + PieceValue(ps[0])); }
      assert acc + PieceValue(ps[0]) + PiecesValue(ps[1..]) == acc + PiecesValue(ps);
    }
  }

  lemma StringAccepted(c: bytes, i: nat)
    requires i < |c| && JsonString.ParseString(c, i).ok
    ensures StringLiteral(c, i, JsonString.ParseString(c, i).offset, JsonString.ParseString(c, i).str)
  {
    hide JsonString.Decode, JsonString.ScanEnd, Unbroken, At, UpTo, PiecesText, LoosePieces, PiecesValue;
    var e := JsonString.ScanEnd(c, i + 1).value.end;
    ScanIsUnbroken(c, i + 1, e);
    var ps := DecodedPieces(c, i + 1, e, []);
    assert [] + PiecesValue(ps) == PiecesValue(ps);
  }

  lemma StringRead(c: bytes, i: nat, j: nat, s: bytes)
    requires StringLiteral(c, i, j, s)
    ensures JsonString.ParseString(c, i) == JsonString.StringResult(true, s, j)
  {
    hide JsonString.Decode, JsonString.ScanEnd, Unbroken, At, UpTo, PiecesText, LoosePieces, PiecesValue;
    var ps :| Spelled(c, i + 1, j - 1, ps) && PiecesValue(ps) == s;
    ScanIsUnbroken(c, i + 1, j - 1);
    DecodeOfPieces(c, i + 1, j - 1, ps, []);
    assert [] + PiecesValue(ps) == PiecesValue(ps);
  }
}
