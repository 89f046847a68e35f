/** Printing and parsing undo each other, up to the nesting limit and no further. */
module JsonRoundTrip {
  import opened Bytes
  import opened JsonTree
  import opened JsonAccepts
  import opened JsonGrammar
  import opened JsonParser
  import opened JsonPrinter
  import opened JsonExact
  import opened JsonRelaxed
  import JsonString
  import Utf8

  // ---- printed text is a legal text of the tree ----

  /** The piece that print_string_ptr writes for one byte. */
  function SpellByte(b: byte): Piece {
    if b == QUOTE || b == BACKSLASH || b == 8 || b == 12 || b == LF || b == CR || b == TAB then
      Short(JsonString.EscapeByte(b)[1])
    else if b < 32 then Unit([ZERO, ZERO, HexDigit(b / 16), HexDigit(b % 16)])
    else Plain(b)
  }

  function SpellBytes(s: bytes): (ps: seq<Piece>)
    ensures |ps| == |s| && forall i :: 0 <= i < |s| ==> ps[i] == SpellByte(s[i])
  {
    if s == [] then [] else [SpellByte(s[0])] + SpellBytes(s[1..])
  }

  /** The way print_value spells a tree. */
  function Spelling(t: Json, d: nat, format: bool): Source
    requires !t.Real?
    requires Printable(t)
    decreases t, 0
  {
    match t
    case Null => NullText
    case False => FalseText
    case True => TrueText
    case Number(n) => Integer(n < 0, DecText(if n < 0 then -n else n))
    case String(s) => Str(SpellBytes(s))
    case Array(items) => Arr([], SpellItems(items, 0, d + 1, format))
    case Object(ms) => Obj(NewLine(d, format), SpellMembers(ms, 0, d + 1, format))
  }

  /** The line break and indentation of formatted objects. */
  function NewLine(d: nat, format: bool): bytes { if format then [LF] + Tabs(d) else [] }

  /** A member around its value's spelling. */
  function SpellMember(key: bytes, value: Source, last: bool, d: nat, format: bool): Field
    requires d >= 1
  {
    Field(NewLine(d, format), SpellBytes(key), [],
          Element(if format then [TAB] else [], value, if last then NewLine(d - 1, format) else []))
  }

  function SpellItems(items: seq<Json>, i: nat, d: nat, format: bool): (es: seq<Element>)
    requires Printable(Array(items))
    ensures |es| == if i < |items| then |items| - i else 0
    decreases items, if i < |items| then |items| - i else 0
  {
    if i >= |items| then [] else
      assert Printable(items[i]);
      [Element(if format && i > 0 then [SPACE] else [], Spelling(items[i], d, format), [])] +
      SpellItems(items, i + 1, d, format)
  }

  function SpellMembers(ms: seq<Member>, i: nat, d: nat, format: bool): (fs: seq<Field>)
    requires Printable(Object(ms)) && d >= 1
    ensures |fs| == if i < |ms| then |ms| - i else 0
    decreases ms, if i < |ms| then |ms| - i else 0
  {
    if i >= |ms| then [] else
      assert Printable(ms[i].item);
      [SpellMember(ms[i].key, Spelling(ms[i].item, d, format), i + 1 == |ms|, d, format)] + SpellMembers(ms, i + 1, d, format)
  }

  lemma BytePiece(b: byte)
    ensures LegalPiece(SpellByte(b)) && PieceText(SpellByte(b)) == JsonString.EscapeByte(b)
    ensures PieceValue(SpellByte(b)) == [b]
  {
    if b < 32 && SpellByte(b).Unit? {
      var digits := [ZERO, ZERO, HexDigit(b / 16), HexDigit(b % 16)];
      assert Utf8.ParseHex4(digits, 0) == b;
    }
  }

  lemma {:induction false} BytesPieces(s: bytes)
    ensures LegalPieces(SpellBytes(s)) && PiecesText(SpellBytes(s)) == JsonString.Escape(s)
    ensures PiecesValue(SpellBytes(s)) == s
  {
    hide LegalPiece, PieceText, PieceValue, SpellByte;
    if s != [] {
      BytePiece(s[0]);
      BytesPieces(s[1..]);
      assert SpellBytes(s)[1..] == SpellBytes(s[1..]);
      forall i | 0 <= i < |s| ensures LegalPiece(SpellBytes(s)[i]) { BytePiece(s[i]); }
    }
  }

  lemma QuotedIsStringText(s: bytes)
    ensures LegalPieces(SpellBytes(s)) && PiecesValue(SpellBytes(s)) == s
    ensures StringText(SpellBytes(s)) == JsonString.Quoted(s)
  {
    BytesPieces(s);
    assert [QUOTE] + (JsonString.Escape(s) + [QUOTE]) == JsonString.Quoted(s);
  }

  lemma {:induction false} DecTextIsNumeral(n: nat)
    ensures IsNumeral(DecText(n)) && (n > 0 ==> DecText(n)[0] != ZERO)
  {
    if n >= 10 { DecTextIsNumeral(n / 10); }
  }

  lemma {:induction false} SpellingOfText(t: Json, d: nat, format: bool)
    requires Printable(t)
    ensures Legal(Spelling(t, d, format)) && Value(Spelling(t, d, format)) == t
    ensures SourceText(Spelling(t, d, format)) == Text(t, d, format)
    decreases t, 0
  {
    hide SourceText, Text, Spelling, Legal, Value, Printable;
    match t
    case Array(items) => SpellingOfArray(items, d, format);
    case Object(ms) => SpellingOfObject(ms, d, format);
    case _ => SpellingOfLeaf(t, d, format);
  }

  lemma SpellingOfLeaf(t: Json, d: nat, format: bool)
    requires Printable(t) && !t.Array? && !t.Object?
    ensures Legal(Spelling(t, d, format)) && Value(Spelling(t, d, format)) == t
    ensures SourceText(Spelling(t, d, format)) == Text(t, d, format)
  {
    hide DecText, DecValue, IsNumeral, SpellBytes, StringText, JsonString.Quoted, LegalPieces, PiecesValue;
    match t
    case Number(n) => SpellingOfNumber(n, d, format);
    case String(s) => QuotedIsStringText(s);
    case _ =>
  }

  lemma SpellingOfNumber(n: int, d: nat, format: bool)
    requires IsCInt(n)
    ensures Legal(Spelling(Number(n), d, format)) && Value(Spelling(Number(n), d, format)) == Number(n)
    ensures SourceText(Spelling(Number(n), d, format)) == Text(Number(n), d, format)
  {
    hide *;
    var m: nat := if n < 0 then -n else n;
    NumberSpelled(m);
    NumberShape(n, m, d, format);
    IntegerParts(n < 0, DecText(m), n);
  }

  lemma NumberShape(n: int, m: nat, d: nat, format: bool)
    requires IsCInt(n) && m == if n < 0 then -n else n
    ensures Spelling(Number(n), d, format) == Integer(n < 0, DecText(m))
    ensures Text(Number(n), d, format) == (if n < 0 then [MINUS] else []) + DecText(m)
  {
    hide DecText;
    assert [] + DecText(m) == DecText(m);
  }

  lemma IntegerParts(minus: bool, digits: bytes, n: int)
    requires IsNumeral(digits) && n == NumeralValue(minus, digits) && IsCInt(n)
    ensures Legal(Integer(minus, digits)) && Value(Integer(minus, digits)) == Number(n)
    ensures SourceText(Integer(minus, digits)) == (if minus then [MINUS] else []) + digits
  {}

  lemma NumberSpelled(m: nat)
    ensures IsNumeral(DecText(m)) && NumeralValue(false, DecText(m)) == m && NumeralValue(true, DecText(m)) == -(m as int)
  {
    DecTextIsNumeral(m);
    DecValueOfText(m);
  }

  lemma {:induction false} SpellingOfArray(items: seq<Json>, d: nat, format: bool)
    requires Printable(Array(items))
    ensures Legal(Spelling(Array(items), d, format)) && Value(Spelling(Array(items), d, format)) == Array(items)
    ensures SourceText(Spelling(Array(items), d, format)) == Text(Array(items), d, format)
    decreases items, |items| + 1
  {
    hide ItemsText, ElementsText, SpellItems, Values, LegalElements;
    SpellingOfItems(items, 0, d + 1, format);
    if items == [] { NoSpelling(d + 1, format); }
    assert items[0..] == items;
  }

  lemma NoSpelling(d: nat, format: bool)
    ensures ItemsText([], 0, d, format) == [] && MembersText([], 0, d, format) == []
  {}

  lemma {:induction false} SpellingOfItems(items: seq<Json>, i: nat, d: nat, format: bool)
    requires Printable(Array(items)) && i <= |items|
    ensures var es := SpellItems(items, i, d, format);
            LegalElements(es) && Values(es) == items[i..] &&
            ElementsText(es) == (if format && 0 < i < |items| then [SPACE] else []) + ItemsText(items, i, d, format)
    decreases items, |items| - i
  {
    hide SourceText, Legal, Value, Text, Spelling;
    var es := SpellItems(items, i, d, format);
    if i < |items| {
      ItemPrintable(items, i);
      SpellingOfText(items[i], d, format);
      SpellingOfItems(items, i + 1, d, format);
      var more := SpellItems(items, i + 1, d, format);
      assert es == [es[0]] + more;
      assert items[i..] == [items[i]] + items[i + 1..];
      ConsElement(es[0], more);
      ItemText(items, i, d, format, es[0], more);
    }
  }

  lemma ConsElement(e: Element, more: seq<Element>)
    requires LegalElement(e) && LegalElements(more)
    ensures LegalElements([e] + more) && Values([e] + more) == [Value(e.value)] + Values(more)
  {
    assert ([e] + more)[1..] == more;
  }

  /** One item's text, and what follows it. */
  lemma ItemText(items: seq<Json>, i: nat, d: nat, format: bool, e: Element, more: seq<Element>)
    requires i < |items| && |more| == |items| - i - 1
    requires e.before == (if format && i > 0 then [SPACE] else []) && e.after == []
    requires SourceText(e.value) == Text(items[i], d, format)
    requires i + 1 < |items| ==> ElementsText(more) == (if format then [SPACE] else []) + ItemsText(items, i + 1, d, format)
    ensures ElementsText([e] + more) == e.before + ItemsText(items, i, d, format)
  {
    hide Text, SourceText;
    var text, rest := Text(items[i], d, format), ItemsText(items, i + 1, d, format);
    var space: bytes := if format then [SPACE] else [];
    assert ([e] + more)[1..] == more;
    assert ElementText(e) == e.before + text by { assert text + [] == text; }
    if i + 1 == |items| {
      assert ElementsText([e] + more) == ElementText(e) + [];
    } else {
      assert ElementsText([e] + more) == ElementText(e) + ([COMMA] + (space + rest));
      assert ItemsText(items, i, d, format) == text + (Separator(format) + rest);
      assert Separator(format) == [COMMA] + space;
      hide *;
      Regroup(e.before, text, [COMMA], space, rest);
    }
  }

  lemma Regroup(a: bytes, b: bytes, x: bytes, y: bytes, z: bytes)
    ensures (a + b) + (x + (y + z)) == a + (b + ((x + y) + z))
  {}

  lemma {:induction false} SpellingOfObject(ms: seq<Member>, d: nat, format: bool)
    requires Printable(Object(ms))
    ensures Legal(Spelling(Object(ms), d, format)) && Value(Spelling(Object(ms), d, format)) == Object(ms)
    ensures SourceText(Spelling(Object(ms), d, format)) == Text(Object(ms), d, format)
    decreases ms, |ms| + 1
  {
    hide *;
    var fs := SpellMembers(ms, 0, d + 1, format);
    SpellingShape(ms, d, format);
    SpellingOfMembers(ms, 0, d + 1, format);
    ObjectParts(NewLine(d, format), fs);
    InnerText(ms, fs, d, format);
    NewLineIsWhite(d, format);
    ObjectText(ms, d, format);
    assert ms[0..] == ms;
  }

  lemma SpellingShape(ms: seq<Member>, d: nat, format: bool)
    requires Printable(Object(ms))
    ensures Spelling(Object(ms), d, format) == Obj(NewLine(d, format), SpellMembers(ms, 0, d + 1, format))
  {
    hide SpellMembers;
  }

  lemma ObjectParts(empty: bytes, fs: seq<Field>)
    ensures Legal(Obj(empty, fs)) <==> IsWhite(empty) && LegalFields(fs)
    ensures LegalFields(fs) && IsWhite(empty) ==> Value(Obj(empty, fs)) == Object(MembersOf(fs))
    ensures SourceText(Obj(empty, fs)) == [OPEN_BRACE] + ((if fs == [] then empty else FieldsText(fs)) + [CLOSE_BRACE])
  {
    hide MembersOf, FieldsText;
  }

  /** What stands between the braces, with the closing one. */
  lemma InnerText(ms: seq<Member>, fs: seq<Field>, d: nat, format: bool)
    requires |fs| == |ms|
    requires ms != [] ==>
               FieldsText(fs) + [CLOSE_BRACE] ==
               (if format then [LF] else []) + (MembersText(ms, 0, d + 1, format) + CloseObject(d, format))
    ensures (if fs == [] then NewLine(d, format) else FieldsText(fs)) + [CLOSE_BRACE] ==
            (if format then [LF] else []) + (MembersText(ms, 0, d + 1, format) + CloseObject(d, format))
  {
    hide FieldsText, MembersText, CloseObject, NewLine;
    if ms == [] {
      AfterLast(d, format);
      NoSpelling(d + 1, format);
      assert [] + CloseObject(d, format) == CloseObject(d, format);
    }
  }

  lemma NewLineIsWhite(d: nat, format: bool)
    ensures IsWhite(NewLine(d, format))
  {}

  lemma ObjectText(ms: seq<Member>, d: nat, format: bool)
    ensures Text(Object(ms), d, format) ==
            [OPEN_BRACE] + ((if format then [LF] else []) + (MembersText(ms, 0, d + 1, format) + CloseObject(d, format)))
  {
    hide MembersText;
  }

  lemma {:induction false} SpellingOfMembers(ms: seq<Member>, i: nat, d: nat, format: bool)
    requires Printable(Object(ms)) && i <= |ms| && d >= 1
    ensures var fs := SpellMembers(ms, i, d, format);
            LegalFields(fs) && MembersOf(fs) == ms[i..] &&
            (i < |ms| ==>
               FieldsText(fs) + [CLOSE_BRACE] ==
               (if format then [LF] else []) + (MembersText(ms, i, d, format) + CloseObject(d - 1, format)))
    decreases ms, |ms| - i
  {
    hide SourceText, Legal, Value, Text, Spelling, FieldsText, MembersText, MembersOf, LegalFields, SpellMember, LegalField, CloseObject;
    if i < |ms| {
      MemberPrintable(ms, i);
      var x := Spelling(ms[i].item, d, format);
      SpellingOfText(ms[i].item, d, format);
      SpellingOfMembers(ms, i + 1, d, format);
      var f, more := SpellMember(ms[i].key, x, i + 1 == |ms|, d, format), SpellMembers(ms, i + 1, d, format);
      assert SpellMembers(ms, i, d, format) == [f] + more;
      assert ms[i..] == [ms[i]] + ms[i + 1..];
      FieldSpelled(ms[i].key, x, i + 1 == |ms|, d, format);
      ConsField(f, more);
      MemberText(ms, i, d, format, f, more);
    } else {
      NoFieldsLegal();
    }
  }

  lemma NoFieldsLegal()
    ensures LegalFields([]) && MembersOf([]) == []
  {}

  lemma FieldSpelled(key: bytes, x: Source, last: bool, d: nat, format: bool)
    requires d >= 1 && Legal(x)
    ensures var f := SpellMember(key, x, last, d, format);
            LegalField(f) && LegalElement(f.element) && LegalPieces(f.key) && PiecesValue(f.key) == key &&
            f.before == NewLine(d, format) && StringText(f.key) == JsonString.Quoted(key) && f.between == [] &&
            f.element.before == (if format then [TAB] else []) && f.element.value == x &&
            f.element.after == if last then NewLine(d - 1, format) else []
  {
    hide Legal, StringText, LegalPieces, PiecesValue, SpellBytes, JsonString.Quoted;
    QuotedIsStringText(key);
    NewLineIsWhite(d, format);
    NewLineIsWhite(d - 1, format);
  }

  lemma ConsField(f: Field, more: seq<Field>)
    requires LegalField(f) && LegalElement(f.element) && Legal(f.element.value) && LegalFields(more)
    ensures LegalFields([f] + more)
    ensures MembersOf([f] + more) == [Member(PiecesValue(f.key), Value(f.element.value))] + MembersOf(more)
  {
    assert ([f] + more)[1..] == more;
  }

  /** What follows a field: a comma and the rest, or the closing brace. */
  function AfterField(fs: seq<Field>): bytes
    requires fs != []
  {
    if |fs| == 1 then [CLOSE_BRACE] else [COMMA] + (FieldsText(fs[1..]) + [CLOSE_BRACE])
  }

  lemma SplitFields(fs: seq<Field>)
    requires fs != []
    ensures FieldsText(fs) + [CLOSE_BRACE] == FieldText(fs[0]) + AfterField(fs)
    ensures |FieldsText(fs)| + 1 == |FieldText(fs[0])| + |AfterField(fs)|
  {
    hide FieldText;
  }

  /** One member's text, and what follows it. */
  lemma MemberText(ms: seq<Member>, i: nat, d: nat, format: bool, f: Field, more: seq<Field>)
    requires i < |ms| && d >= 1 && |more| == |ms| - i - 1
    requires f.before == NewLine(d, format) && StringText(f.key) == JsonString.Quoted(ms[i].key) && f.between == []
    requires f.element.before == (if format then [TAB] else []) && SourceText(f.element.value) == Text(ms[i].item, d, format)
    requires f.element.after == if i + 1 == |ms| then NewLine(d - 1, format) else []
    requires i + 1 < |ms| ==>
               FieldsText(more) + [CLOSE_BRACE] ==
               (if format then [LF] else []) + (MembersText(ms, i + 1, d, format) + CloseObject(d - 1, format))
    ensures FieldsText([f] + more) + [CLOSE_BRACE] ==
            (if format then [LF] else []) + (MembersText(ms, i, d, format) + CloseObject(d - 1, format))
  {
    var lf: bytes, lead, text := if format then [LF] else [], Lead(ms[i].key, d, format), Text(ms[i].item, d, format);
    var rest, close := MembersText(ms, i + 1, d, format), CloseObject(d - 1, format);
    var last := i + 1 == |ms|;
    var comma: bytes, tail := if last then [] else [COMMA], AfterField([f] + more);
    MembersCons(ms, i, d, format);
    SplitFields([f] + more);
    OneField(ms[i].key, text, d, format, f);
    AfterLast(d - 1, format);
    AfterCons(f, more);
    hide *;
    if last { NoComma(lf, close); } else { assert [] + tail == tail; }
    Assemble(lf, lead, text, f.element.after, tail);
    Flatten(lead, text, comma, lf, rest, close);
  }

  lemma MembersCons(ms: seq<Member>, i: nat, d: nat, format: bool)
    requires i < |ms|
    ensures MembersText(ms, i, d, format) ==
            Lead(ms[i].key, d, format) +
            (Text(ms[i].item, d, format) +
             (((if i + 1 == |ms| then [] else [COMMA]) + (if format then [LF] else [])) + MembersText(ms, i + 1, d, format)))
    ensures i + 1 == |ms| ==> MembersText(ms, i + 1, d, format) == []
  {
    hide Lead, Text;
  }

  lemma AfterCons(f: Field, more: seq<Field>)
    ensures AfterField([f] + more) == if more == [] then [CLOSE_BRACE] else [COMMA] + (FieldsText(more) + [CLOSE_BRACE])
  {
    assert ([f] + more)[1..] == more;
  }

  lemma NoComma(a: bytes, b: bytes)
    ensures [] + (a + ([] + b)) == a + b
  {
    assert [] + b == b;
  }

  lemma Assemble(a: bytes, b: bytes, x: bytes, y: bytes, z: bytes)
    ensures (a + (b + (x + y))) + z == a + (b + (x + (y + z)))
  {}

  lemma Flatten(a: bytes, b: bytes, x: bytes, y: bytes, z: bytes, w: bytes)
    ensures (a + (b + ((x + y) + z))) + w == a + (b + (x + (y + (z + w))))
  {}

  lemma AfterLast(d: nat, format: bool)
    ensures NewLine(d, format) + [CLOSE_BRACE] == (if format then [LF] else []) + CloseObject(d, format)
  {}

  lemma OneField(key: bytes, text: bytes, d: nat, format: bool, f: Field)
    requires f.before == NewLine(d, format) && StringText(f.key) == JsonString.Quoted(key) && f.between == []
    requires f.element.before == (if format then [TAB] else []) && SourceText(f.element.value) == text
    ensures FieldText(f) == (if format then [LF] else []) + (Lead(key, d, format) + (text + f.element.after))
  {
    hide SourceText, StringText, JsonString.Quoted, Tabs;
    var lf: bytes, tabs: bytes := if format then [LF] else [], if format then Tabs(d) else [];
    var tab: bytes := if format then [TAB] else [];
    assert NewLine(d, format) == lf + tabs;
    assert Lead(key, d, format) == tabs + JsonString.Quoted(key) + ([COLON] + tab) by { if !format { assert [COLON] + [] == [COLON]; } }
    assert FieldText(f) == f.before + (StringText(f.key) + ([] + ([COLON] + ElementText(f.element))));
    assert ElementText(f.element) == tab + (text + f.element.after);
    hide *;
    Spread(lf, tabs, JsonString.Quoted(key), [COLON], tab, text + f.element.after);
  }

  lemma Spread(a: bytes, b: bytes, q: bytes, x: bytes, y: bytes, z: bytes)
    ensures (a + b) + (q + ([] + (x + (y + z)))) == a + ((b + q + (x + y)) + z)
  {
    assert [] + (x + (y + z)) == x + (y + z);
  }

  // ---- so it parses back ----

  /** Parsing a printed literal returns the original string and stops just past the quote. */
  lemma ParseQuoted(c: bytes, off: nat, s: bytes)
    requires At(c, off, JsonString.Quoted(s))
    ensures off < |c| && JsonString.ParseString(c, off) == JsonString.StringResult(true, s, off + |JsonString.Quoted(s)|)
  {
    hide At, JsonString.ParseString, JsonString.Quoted, StringText, SpellBytes;
    QuotedIsStringText(s);
    ParseOfString(c, off, SpellBytes(s));
  }

  /** Wherever the text of a printable tree stands in a buffer, formatted or not, parse_value reads
      that tree back and stops exactly at the end of the text; a tree that is nested too deeply for
      the containers already open is refused. */
  lemma ParseOfText(t: Json, d: nat, format: bool, c: bytes, off: nat, depth: nat)
    requires Printable(t) && depth <= NESTING_LIMIT
    requires At(c, off, Text(t, d, format)) && Delimited(c, off + |Text(t, d, format)|)
    ensures Returns(ParseValue(c, off, depth), t, off + |Text(t, d, format)|, depth, depth + Nesting(t) <= NESTING_LIMIT)
  {
    hide ParseValue, Text, Spelling, SourceText, Legal, Value, At;
    SpellingOfText(t, d, format);
    DepthIsNesting(Spelling(t, d, format));
    ParseOfSource(Spelling(t, d, format), c, off, depth);
  }

  /** cJSON_Parse of cJSON_Print's output, as a C string, is the tree printed, and ends on the
      terminator: exactly when the tree is nested at most 1000 deep, with or without formatting,
      whether or not the caller requires the terminator to follow. */
  lemma RoundTrip(t: Json, format: bool, requireTerminator: bool)
    requires Printable(t)
    ensures ParseText(Print(t, format) + [NUL], requireTerminator) == if Nesting(t) <= NESTING_LIMIT then Some(t) else None
    ensures Nesting(t) <= NESTING_LIMIT ==> ParseEnd(Print(t, format) + [NUL], requireTerminator) == |Print(t, format)|
  {
    hide ParseText, ParseEnd, Text, Spelling, SourceText, Legal, Value, Nesting;
    var e := Element([], Spelling(t, 0, format), []);
    SpellingOfText(t, 0, format);
    assert [] + ([] + (Text(t, 0, format) + [])) == Text(t, 0, format);
    ParseOfDocument(false, e, requireTerminator);
  }
}
