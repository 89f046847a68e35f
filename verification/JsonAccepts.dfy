/** Every JSON text of RFC 8259 whose numbers are C ints is a text of the relaxed grammar, so the
    parser accepts it and gives its value: any white space, any spelling of the escapes, up to the
    nesting limit and no further. */
module JsonAccepts {
  import opened Bytes
  import opened JsonTree
  import opened JsonParser
  import opened JsonExact
  import opened JsonGrammar
  import opened JsonRelaxed
  import JsonNumber
  import JsonString
  import Utf8

  // ---- strings ----

  lemma {:induction false} PlainUnbroken(c: bytes, p: nat, n: nat, e: nat)
    requires p + n <= e <= |c| && Unbroken(c, p + n, e)
    requires forall i :: p <= i < p + n ==> c[i] != QUOTE && c[i] != BACKSLASH
    ensures Unbroken(c, p, e)
    decreases n
  {
    if n > 0 { PlainUnbroken(c, p + 1, n - 1, e); }
  }

  lemma EscapedUnbroken(c: bytes, p: nat, e: nat)
    requires p + 2 <= e <= |c| && c[p] == BACKSLASH && Unbroken(c, p + 2, e)
    ensures Unbroken(c, p, e)
  {}

  lemma UnitUnbroken(c: bytes, p: nat, digits: bytes, e: nat)
    requires FourDigits(digits) && At(c, p, [BACKSLASH, LOWER_U] + digits) && p + 6 <= e <= |c| && Unbroken(c, p + 6, e)
    ensures Unbroken(c, p, e)
  {
    UnitBytes(c, p, digits);
    hide Unbroken, At;
    PlainUnbroken(c, p + 2, 4, e);
    EscapedUnbroken(c, p, e);
  }

  /** No legal piece hides or holds a bare quote. */
  lemma PieceUnbroken(c: bytes, p: nat, x: Piece, e: nat)
    requires LegalPiece(x) && At(c, p, PieceText(x)) && p + |PieceText(x)| <= e <= |c| && Unbroken(c, p + |PieceText(x)|, e)
    ensures Unbroken(c, p, e)
  {
    hide Unbroken, At, Utf8.ParseHex4;
    match x
    case Plain(b) =>
      AtIndex(c, p, PieceText(x), 0);
      PlainUnbroken(c, p, 1, e);
    case Short(letter) =>
      AtIndex(c, p, PieceText(x), 0);
      EscapedUnbroken(c, p, e);
    case Unit(digits) => UnitUnbroken(c, p, digits, e);
    case Pair(high, low) =>
      AtConcat(c, p, [BACKSLASH, LOWER_U] + high, [BACKSLASH, LOWER_U] + low);
      UnitUnbroken(c, p + 6, low, e);
      UnitUnbroken(c, p, high, e);
  }

  lemma {:induction false} PiecesUnbroken(c: bytes, p: nat, ps: seq<Piece>)
    requires LegalPieces(ps) && At(c, p, PiecesText(ps)) && p + |PiecesText(ps)| <= |c|
    ensures Unbroken(c, p, p + |PiecesText(ps)|)
    decreases |ps|
  {
    hide At, PieceText, LegalPiece;
    if ps != [] {
      var first, rest := PieceText(ps[0]), PiecesText(ps[1..]);
      AtConcat(c, p, first, rest);
      PiecesUnbroken(c, p + |first|, ps[1..]);
      hide Unbroken;
      PieceUnbroken(c, p, ps[0], p + |PiecesText(ps)|);
    }
  }

  /** A legal string is one of the relaxed grammar, with the same bytes. */
  lemma LegalString(c: bytes, i: nat, ps: seq<Piece>)
    requires LegalPieces(ps) && At(c, i, StringText(ps))
    ensures StringLiteral(c, i, i + |StringText(ps)|, PiecesValue(ps))
  {
    hide At, PiecesText, PiecesValue, Unbroken, LegalPieces;
    AtConcat(c, i, [QUOTE], PiecesText(ps) + [QUOTE]);
    AtIndex(c, i, [QUOTE], 0);
    AtConcat(c, i + 1, PiecesText(ps), [QUOTE]);
    AtIndex(c, i + 1 + |PiecesText(ps)|, [QUOTE], 0);
    PiecesUnbroken(c, i + 1, ps);
    assert Spelled(c, i + 1, i + 1 + |PiecesText(ps)|, ps);
  }

  /** parse_string reads every string of the grammar, and stops just past its closing quote. */
  lemma ParseOfString(c: bytes, off: nat, ps: seq<Piece>)
    requires LegalPieces(ps) && At(c, off, StringText(ps))
    ensures off < |c| && c[off] == QUOTE
    ensures JsonString.ParseString(c, off) == JsonString.StringResult(true, PiecesValue(ps), off + |StringText(ps)|)
  {
    hide At, StringText, PiecesValue, StringLiteral, LegalPieces, JsonString.ParseString;
    var s := PiecesValue(ps);
    LegalString(c, off, ps);
    LiteralQuote(c, off, off + |StringText(ps)|, s);
    StringRead(c, off, off + |StringText(ps)|, s);
  }

  // ---- white space and first bytes ----

  lemma WhiteIsBlank(c: bytes, i: nat, w: bytes)
    requires IsWhite(w) && At(c, i, w)
    ensures Blank(c, i, i + |w|)
  {
    forall k | i <= k < i + |w| ensures c[k] <= 32 { assert c[i + (k - i)] == w[k - i]; }
  }

  lemma SourceStart(s: Source)
    requires Legal(s)
    ensures SourceText(s) != [] && StartsValue(SourceText(s)[0])
  {}

  // ---- values ----

  /** A numeral with or without a minus is one token that strtod reads completely and exactly. */
  lemma StrtodOfInteger(minus: bool, digits: bytes)
    requires IsNumeral(digits) && IsCInt(NumeralValue(minus, digits))
    ensures var s := SourceText(Integer(minus, digits));
            JsonNumber.StrtodOf(s) == JsonNumber.Strtod(|s|, Number(NumeralValue(minus, digits))) &&
            forall k :: 0 <= k < |s| ==> JsonNumber.IsNumberByte(s[k])
  {
    var s := SourceText(Integer(minus, digits));
    var d := if minus then 1 else 0;
    assert s[d..] == digits && s[d..|s|] == digits;
    assert minus <==> s[0] == MINUS;
    DigitsBehind(s, d, digits);
    hide DecValue, SourceText, JsonNumber.DigitRun, JsonNumber.SignEnd;
    assert s[d] == digits[0];
  }

  lemma DigitsBehind(s: bytes, d: nat, digits: bytes)
    requires IsNumeral(digits) && |s| == d + |digits| && s[d..] == digits && (if d == 0 then s[0] != MINUS else d == 1 && s[0] == MINUS)
    ensures JsonNumber.SignEnd(s, 0) == d && JsonNumber.DigitRun(s, d) == |s|
    ensures forall k :: 0 <= k < |s| ==> JsonNumber.IsNumberByte(s[k])
  {
    hide JsonNumber.DigitRun;
    forall k | d <= k < |s| ensures IsDigit(s[k]) { assert s[k] == digits[k - d]; }
    JsonNumber.DigitRunIs(s, d, |s|);
  }

  lemma WordSpells(s: Source, c: bytes, i: nat)
    requires (s.NullText? || s.FalseText? || s.TrueText?) && At(c, i, SourceText(s))
    ensures Spells(c, i, i + |SourceText(s)|, Value(s))
  {
    assert c[i..i + |SourceText(s)|] == SourceText(s);
  }

  lemma IntegerSpells(minus: bool, digits: bytes, c: bytes, i: nat)
    requires Legal(Integer(minus, digits)) && At(c, i, SourceText(Integer(minus, digits)))
    ensures Spells(c, i, i + |SourceText(Integer(minus, digits))|, Number(NumeralValue(minus, digits)))
  {
    var s := SourceText(Integer(minus, digits));
    StrtodOfInteger(minus, digits);
    hide JsonNumber.StrtodOf, NumeralValue;
    assert c[i..i + |s|] == s;
    assert Numeral(s, Number(NumeralValue(minus, digits)));
  }

  /** Every legal text is a text of the relaxed grammar, with the same value. */
  lemma {:induction false} SourceSpells(s: Source, c: bytes, i: nat)
    requires Legal(s) && At(c, i, SourceText(s))
    ensures Spells(c, i, i + |SourceText(s)|, Value(s))
    decreases s, 1
  {
    hide At, StringText, PiecesValue, LegalPieces, StringLiteral, ElementsText, FieldsText, LegalElements, LegalFields, Values, MembersOf,
      SpellsItems, SpellsMembers;
    match s
    case Integer(minus, digits) => IntegerSpells(minus, digits, c, i);
    case Str(ps) =>
      LegalString(c, i, ps);
      LiteralQuote(c, i, i + |StringText(ps)|, PiecesValue(ps));
    case Arr(empty, es) =>
      var inner := if es == [] then empty else ElementsText(es);
      Brackets(c, i, [OPEN_BRACKET], inner, [CLOSE_BRACKET]);
      ElementsSpell(empty, es, c, i + 1);
    case Obj(empty, fs) =>
      var inner := if fs == [] then empty else FieldsText(fs);
      Brackets(c, i, [OPEN_BRACE], inner, [CLOSE_BRACE]);
      FieldsSpell(empty, fs, c, i + 1);
    case _ => WordSpells(s, c, i);
  }

  lemma Brackets(c: bytes, i: nat, open: bytes, inner: bytes, close: bytes)
    requires |open| == 1 && |close| == 1 && At(c, i, open + (inner + close))
    ensures Enclosed(c, i, i + |inner| + 2, open[0], close[0]) && At(c, i + 1, inner)
  {
    hide At;
    AtConcat(c, i, open, inner + close);
    AtConcat(c, i + 1, inner, close);
    AtIndex(c, i, open, 0);
    AtIndex(c, i + 1 + |inner|, close, 0);
  }

  /** A value and the white space around it. */
  lemma {:induction false} ElementSpells(e: Element, c: bytes, i: nat)
    requires LegalElement(e) && At(c, i, ElementText(e))
    ensures Padded(c, i, i + |ElementText(e)|, Value(e.value))
    decreases e, 2
  {
    hide At, SourceText, Value, Legal, Spells, Blank, IsWhite;
    var text := SourceText(e.value);
    var a := i + |e.before|;
    AtConcat(c, i, e.before, text + e.after);
    AtConcat(c, a, text, e.after);
    WhiteIsBlank(c, i, e.before);
    SourceSpells(e.value, c, a);
    WhiteIsBlank(c, a + |text|, e.after);
  }

  /** The elements of a legal array, or the white space of an empty one. */
  lemma {:induction false} ElementsSpell(empty: bytes, es: seq<Element>, c: bytes, i: nat)
    requires IsWhite(empty) && LegalElements(es)
    requires At(c, i, if es == [] then empty else ElementsText(es))
    ensures SpellsItems(c, i, i + |if es == [] then empty else ElementsText(es)|, Values(es))
    decreases es, 3
  {
    hide At, ElementText, Value, LegalElement, Padded, Blank, IsWhite;
    if es == [] {
      WhiteIsBlank(c, i, empty);
    } else {
      assert LegalElement(es[0]);
      var first := ElementText(es[0]);
      var k := i + |first|;
      FirstValue(es);
      if |es| == 1 {
        assert first + [] == first;
        ElementSpells(es[0], c, i);
      } else {
        var more := ElementsText(es[1..]);
        AtConcat(c, i, first, [COMMA] + more);
        AtConcat(c, k, [COMMA], more);
        AtIndex(c, k, [COMMA], 0);
        ElementSpells(es[0], c, i);
        ElementsSpell(empty, es[1..], c, k + 1);
      }
    }
  }

  lemma FirstValue(es: seq<Element>)
    requires es != [] && LegalElements(es)
    ensures LegalElement(es[0]) && Legal(es[0].value) && LegalElements(es[1..])
    ensures Values(es)[0] == Value(es[0].value) && Values(es)[1..] == Values(es[1..])
  {
    hide Value;
  }

  /** Key, colon and value. */
  lemma {:induction false} FieldSpells(f: Field, c: bytes, i: nat)
    requires LegalField(f) && LegalElement(f.element) && Legal(f.element.value) && At(c, i, FieldText(f))
    ensures SpellsMember(c, i, i + |FieldText(f)|, Member(PiecesValue(f.key), Value(f.element.value)))
    decreases f, 2
  {
    hide At, StringText, ElementText, Value, LegalElement, LegalPieces, PiecesValue, Padded, Blank, IsWhite, StringLiteral;
    var text, rest := StringText(f.key), [COLON] + ElementText(f.element);
    var a := i + |f.before|;
    var b := a + |text|;
    var k := b + |f.between|;
    AtConcat(c, i, f.before, text + (f.between + rest));
    AtConcat(c, a, text, f.between + rest);
    AtConcat(c, b, f.between, rest);
    AtConcat(c, k, [COLON], ElementText(f.element));
    AtIndex(c, k, [COLON], 0);
    WhiteIsBlank(c, i, f.before);
    LegalString(c, a, f.key);
    WhiteIsBlank(c, b, f.between);
    ElementSpells(f.element, c, k + 1);
  }

  /** The members of a legal object, or the white space of an empty one. */
  lemma {:induction false} FieldsSpell(empty: bytes, fs: seq<Field>, c: bytes, i: nat)
    requires IsWhite(empty) && LegalFields(fs)
    requires At(c, i, if fs == [] then empty else FieldsText(fs))
    ensures SpellsMembers(c, i, i + |if fs == [] then empty else FieldsText(fs)|, MembersOf(fs))
    decreases fs, 3
  {
    hide At, FieldText, Value, LegalField, SpellsMember, Blank, IsWhite;
    if fs == [] {
      WhiteIsBlank(c, i, empty);
    } else {
      assert LegalField(fs[0]);
      var first := FieldText(fs[0]);
      var k := i + |first|;
      FirstMember(fs);
      if |fs| == 1 {
        assert first + [] == first;
        FieldSpells(fs[0], c, i);
      } else {
        var more := FieldsText(fs[1..]);
        AtConcat(c, i, first, [COMMA] + more);
        AtConcat(c, k, [COMMA], more);
        AtIndex(c, k, [COMMA], 0);
        FieldSpells(fs[0], c, i);
        FieldsSpell(empty, fs[1..], c, k + 1);
      }
    }
  }

  lemma FirstMember(fs: seq<Field>)
    requires fs != [] && LegalFields(fs)
    ensures LegalField(fs[0]) && LegalElement(fs[0].element) && LegalPieces(fs[0].key) && Legal(fs[0].element.value)
    ensures LegalFields(fs[1..])
    ensures MembersOf(fs)[0] == Member(PiecesValue(fs[0].key), Value(fs[0].element.value))
    ensures MembersOf(fs)[1..] == MembersOf(fs[1..])
  {
    hide Value, PiecesValue;
  }

  /** The main theorem: wherever a legal text stands in a buffer, parse_value reads its value and
      stops exactly at its end, or refuses it if it is nested too deeply for the containers already
      open. */
  lemma ParseOfSource(s: Source, c: bytes, off: nat, depth: nat)
    requires Legal(s) && depth <= NESTING_LIMIT
    requires At(c, off, SourceText(s)) && Delimited(c, off + |SourceText(s)|)
    ensures off <= |c|
    ensures Returns(ParseValue(c, off, depth), Value(s), off + |SourceText(s)|, depth, depth + Depth(s) <= NESTING_LIMIT)
  {
    hide *;
    SourceSpells(s, c, off);
    SpellStart(c, off, off + |SourceText(s)|, Value(s));
    DepthIsNesting(s);
    SpelledRead(c, off, off + |SourceText(s)|, Value(s), depth);
  }

  // ---- documents ----

  /** A document: white space around a value, and possibly a byte order mark in front. */
  function DocumentText(bom: bool, e: Element): bytes { (if bom then BOM else []) + ElementText(e) }

  /** cJSON_Parse reads every legal document of a C string, with or without a byte order mark, to its
      value, exactly when it nests at most 1000 deep; it then ends behind the value, or on the
      terminator if that is required. */
  lemma ParseOfDocument(bom: bool, e: Element, requireTerminator: bool)
    requires LegalElement(e)
    ensures var c := DocumentText(bom, e) + [NUL]; var t := Value(e.value);
            ParseText(c, requireTerminator) == if Nesting(t) <= NESTING_LIMIT then Some(t) else None
    ensures var c := DocumentText(bom, e) + [NUL];
            Nesting(Value(e.value)) <= NESTING_LIMIT ==>
              ParseEnd(c, requireTerminator) == |c| - 1 - if requireTerminator then 0 else |e.after|
  {
    hide SourceText, Value, Depth, Nesting, ParseValue, SkipSpace, LiteralAt, Legal, At, ElementText;
    var c := DocumentText(bom, e) + [NUL];
    DepthIsNesting(e.value);
    Marked(c, bom, e);
    LegalInside(e);
    var front := if bom then BOM else [];
    assert c == front + (ElementText(e) + [NUL]);
    StandsIn(front, ElementText(e) + [NUL], c);
    ValueBehind(c, |front|, e, |c| - 1 - |e.after|);
  }

  /** The program sees the value of a document it accepts exactly if no character is `\u0000`. */
  lemma SeenOfDocument(bom: bool, e: Element, requireTerminator: bool)
    requires LegalElement(e) && Nesting(Value(e.value)) <= NESTING_LIMIT
    ensures var r := ParseText(DocumentText(bom, e) + [NUL], requireTerminator);
            r.Some? && (Seen(r.value) == Value(e.value) <==> NoNulEscape(e.value))
  {
    hide ParseText, DocumentText, Seen, Value, Nesting;
    ParseOfDocument(bom, e, requireTerminator);
    SeenIsValue(e.value);
  }

  lemma ValueBehind(c: bytes, start: nat, e: Element, w: nat)
    requires LegalElement(e) && Legal(e.value) && IsWhite(e.before) && IsWhite(e.after) && At(c, start, ElementText(e) + [NUL])
    requires w == start + |e.before| + |SourceText(e.value)| && |c| == w + |e.after| + 1 && start <= |c|
    ensures SkipSpace(c, w) == |c| - 1 && c[|c| - 1] == NUL
    ensures Returns(ParseValue(c, SkipSpace(c, start), 0), Value(e.value), w, 0, 0 + Depth(e.value) <= NESTING_LIMIT)
  {
    hide *;
    var text, a := SourceText(e.value), start + |e.before|;
    assert ElementText(e) + [NUL] == e.before + (text + (e.after + [NUL])) by { ElementParts(e); }
    AtConcat(c, start, e.before, text + (e.after + [NUL]));
    AtConcat(c, a, text, e.after + [NUL]);
    WhiteIsBlank(c, start, e.before);
    SourceSpells(e.value, c, a);
    SpellStart(c, a, w, Value(e.value));
    SkipOver(c, start, a);
    TailIsQuiet(c, w, e.after);
    ParseOfSource(e.value, c, a, 0);
  }

  lemma ElementParts(e: Element)
    ensures ElementText(e) + [NUL] == e.before + (SourceText(e.value) + (e.after + [NUL]))
  {
    hide SourceText;
  }

  lemma LegalInside(e: Element)
    requires LegalElement(e)
    ensures Legal(e.value) && IsWhite(e.before) && IsWhite(e.after) && |ElementText(e)| == |e.before| + |SourceText(e.value)| + |e.after|
  {}

  lemma StandsIn(front: bytes, s: bytes, c: bytes)
    requires c == front + s
    ensures At(c, |front|, s) && At(c, 0, front)
  {}

  /** White space and the terminator: nothing runs a number on, and skipping stops on the NUL. */
  lemma TailIsQuiet(c: bytes, w: nat, after: bytes)
    requires IsWhite(after) && At(c, w, after + [NUL]) && w + |after| + 1 == |c|
    ensures Delimited(c, w) && c[|c| - 1] == NUL && SkipSpace(c, w) == |c| - 1
  {
    hide SkipSpace;
    forall k | w <= k < |c| ensures c[k] == (after + [NUL])[k - w] { assert c[w + (k - w)] == (after + [NUL])[k - w]; }
    SkipToTerminator(c, w);
  }

  /** A byte order mark is seen exactly if it is there. */
  lemma Marked(c: bytes, bom: bool, e: Element)
    requires LegalElement(e) && c == DocumentText(bom, e) + [NUL]
    ensures (|c| > 4 && LiteralAt(c, 0, BOM)) <==> bom
  {
    SourceStart(e.value);
    if bom {
      assert c[0..3] == BOM;
    } else {
      assert c[0] == (e.before + SourceText(e.value))[0];
      if LiteralAt(c, 0, BOM) { LiteralStart(c, 0, BOM); }
    }
  }
}
