/** JSON texts by the grammar of RFC 8259: how a value may be spelled, with any white space and any
    escapes, and what the value is. Numbers are spelled as integers. Bytes of a string above 127
    stand for themselves, whether or not they form valid UTF-8. */
module JsonGrammar {
  import opened Bytes
  import opened JsonTree
  import JsonString
  import Utf8

  // ---- strings (section 7) ----

  /** One character of a string: a byte as it is, a two-character escape, a code unit, or a
      surrogate pair. */
  datatype Piece =
    | Plain(b: byte)
    | Short(letter: byte)
    | Unit(digits: bytes)
    | Pair(high: bytes, low: bytes)

  predicate FourDigits(s: bytes) { |s| == 4 && IsHex(s[0]) && IsHex(s[1]) && IsHex(s[2]) && IsHex(s[3]) }

  /** What parse_string's second pass takes for a character: any byte but a backslash, and an escape
      of any four bytes, which counts as code 0 if they are not all digits. */
  predicate LoosePiece(p: Piece) {
    match p
    case Plain(b) => b != BACKSLASH
    case Short(letter) => JsonString.SimpleEscape(letter).Some?
    case Unit(digits) => |digits| == 4 && Utf8.IsScalar(Utf8.ParseHex4(digits, 0))
    case Pair(high, low) =>
      |high| == 4 && |low| == 4 &&
      Utf8.IsHighSurrogate(Utf8.ParseHex4(high, 0)) && Utf8.IsLowSurrogate(Utf8.ParseHex4(low, 0))
  }

  predicate LoosePieces(ps: seq<Piece>) { forall i :: 0 <= i < |ps| ==> LoosePiece(ps[i]) }

  /** A character of the grammar. Lone surrogates are none. */
  predicate LegalPiece(p: Piece): (legal: bool)
    ensures legal ==> LoosePiece(p)
  {
    match p
    case Plain(b) => b >= 32 && b != QUOTE && b != BACKSLASH
    case Short(letter) => JsonString.SimpleEscape(letter).Some?
    case Unit(digits) => FourDigits(digits) && Utf8.IsScalar(Utf8.ParseHex4(digits, 0))
    case Pair(high, low) =>
      FourDigits(high) && FourDigits(low) &&
      Utf8.IsHighSurrogate(Utf8.ParseHex4(high, 0)) && Utf8.IsLowSurrogate(Utf8.ParseHex4(low, 0))
  }

  predicate LegalPieces(ps: seq<Piece>): (legal: bool)
    ensures legal ==> LoosePieces(ps)
  {
    forall i :: 0 <= i < |ps| ==> LegalPiece(ps[i])
  }

  function PieceText(p: Piece): (s: bytes)
    ensures s != []
  {
    match p
    case Plain(b) => [b]
    case Short(letter) => [BACKSLASH, letter]
    case Unit(digits) => [BACKSLASH, LOWER_U] + digits
    case Pair(high, low) => [BACKSLASH, LOWER_U] + high + ([BACKSLASH, LOWER_U] + low)
  }

  /** The UTF-8 bytes of the character. */
  function PieceValue(p: Piece): bytes
    requires LoosePiece(p)
  {
    match p
    case Plain(b) => [b]
    case Short(letter) => [JsonString.SimpleEscape(letter).value]
    case Unit(digits) => Utf8.Encode(Utf8.ParseHex4(digits, 0))
    case Pair(high, low) =>
      Utf8.Encode(0x10000 + (Utf8.ParseHex4(high, 0) - 0xD800) * 0x400 + (Utf8.ParseHex4(low, 0) - 0xDC00))
  }

  function PiecesText(ps: seq<Piece>): bytes {
    if ps == [] then [] else PieceText(ps[0]) + PiecesText(ps[1..])
  }

  function PiecesValue(ps: seq<Piece>): bytes
    requires LoosePieces(ps)
  {
    if ps == [] then [] else PieceValue(ps[0]) + PiecesValue(ps[1..])
  }

  function StringText(ps: seq<Piece>): bytes { [QUOTE] + (PiecesText(ps) + [QUOTE]) }

  // ---- values (sections 2 to 6) ----

  datatype Source =
    | NullText
    | FalseText
    | TrueText
    | Integer(minus: bool, digits: bytes)
    | Str(pieces: seq<Piece>)
    | Arr(empty: bytes, elements: seq<Element>)
    | Obj(empty: bytes, fields: seq<Field>)

  /** A value with the white space around it. */
  datatype Element = Element(before: bytes, value: Source, after: bytes)

  /** A key with the white space around it, and its value. */
  datatype Field = Field(before: bytes, key: seq<Piece>, between: bytes, element: Element)

  predicate IsWhite(s: bytes) { forall i :: 0 <= i < |s| ==> s[i] == SPACE || s[i] == TAB || s[i] == LF || s[i] == CR }

  predicate IsNumeral(s: bytes) { s != [] && (forall i :: 0 <= i < |s| ==> IsDigit(s[i])) && (s[0] == ZERO ==> |s| == 1) }

  function NumeralValue(minus: bool, digits: bytes): int
    requires IsNumeral(digits)
  {
    if minus then -(DecValue(digits) as int) else DecValue(digits)
  }

  /** Legal by the grammar, with numbers in the range of a C int. */
  predicate Legal(s: Source) {
    match s
    case Integer(minus, digits) => IsNumeral(digits) && IsCInt(NumeralValue(minus, digits))
    case Str(ps) => LegalPieces(ps)
    case Arr(empty, es) => IsWhite(empty) && LegalElements(es)
    case Obj(empty, fs) => IsWhite(empty) && LegalFields(fs)
    case _ => true
  }

  predicate LegalElement(e: Element) { IsWhite(e.before) && IsWhite(e.after) && Legal(e.value) }

  predicate LegalElements(es: seq<Element>) { forall i :: 0 <= i < |es| ==> LegalElement(es[i]) }

  predicate LegalFields(fs: seq<Field>) { forall i :: 0 <= i < |fs| ==> LegalField(fs[i]) }

  predicate LegalField(f: Field) {
    IsWhite(f.before) && LegalPieces(f.key) && IsWhite(f.between) && LegalElement(f.element)
  }

  function SourceText(s: Source): bytes {
    match s
    case NullText => [110, 117, 108, 108]
    case FalseText => [102, 97, 108, 115, 101]
    case TrueText => [116, 114, 117, 101]
    case Integer(minus, digits) => (if minus then [MINUS] else []) + digits
    case Str(ps) => StringText(ps)
    case Arr(empty, es) => [OPEN_BRACKET] + ((if es == [] then empty else ElementsText(es)) + [CLOSE_BRACKET])
    case Obj(empty, fs) => [OPEN_BRACE] + ((if fs == [] then empty else FieldsText(fs)) + [CLOSE_BRACE])
  }

  function ElementText(e: Element): bytes { e.before + (SourceText(e.value) + e.after) }

  function ElementsText(es: seq<Element>): bytes {
    if es == [] then []
    else ElementText(es[0]) + (if |es| == 1 then [] else [COMMA] + ElementsText(es[1..]))
  }

  function FieldText(f: Field): bytes { f.before + (StringText(f.key) + (f.between + ([COLON] + ElementText(f.element)))) }

  function FieldsText(fs: seq<Field>): bytes {
    if fs == [] then []
    else FieldText(fs[0]) + (if |fs| == 1 then [] else [COMMA] + FieldsText(fs[1..]))
  }

  function Value(s: Source): Json
    requires Legal(s)
  {
    match s
    case NullText => Null
    case FalseText => False
    case TrueText => True
    case Integer(minus, digits) => Number(NumeralValue(minus, digits))
    case Str(ps) => String(PiecesValue(ps))
    case Arr(_, es) => Array(Values(es))
    case Obj(_, fs) => Object(MembersOf(fs))
  }

  function Values(es: seq<Element>): (js: seq<Json>)
    requires LegalElements(es)
    ensures |js| == |es|
  {
    if es == [] then [] else
      assert LegalElement(es[0]);
      [Value(es[0].value)] + Values(es[1..])
  }

  function MembersOf(fs: seq<Field>): (ms: seq<Member>)
    requires LegalFields(fs)
    ensures |ms| == |fs|
  {
    if fs == [] then [] else
      assert LegalField(fs[0]) && LegalElement(fs[0].element);
      [Member(PiecesValue(fs[0].key), Value(fs[0].element.value))] + MembersOf(fs[1..])
  }

  /** How many containers are open at the deepest point. */
  function Depth(s: Source): nat {
    match s
    case Arr(_, es) => 1 + ElementsDepth(es)
    case Obj(_, fs) => 1 + FieldsDepth(fs)
    case _ => 0
  }

  function ElementsDepth(es: seq<Element>): nat {
    if es == [] then 0 else Max(Depth(es[0].value), ElementsDepth(es[1..]))
  }

  function FieldsDepth(fs: seq<Field>): nat {
    if fs == [] then 0 else Max(Depth(fs[0].element.value), FieldsDepth(fs[1..]))
  }

  // ---- what a C program sees of the value ----

  /** The one legal character whose bytes hold a NUL. */
  const NUL_ESCAPE: Piece := Unit([ZERO, ZERO, ZERO, ZERO])

  /** No string and no key has the escape of a NUL in it. */
  predicate NoNulEscape(s: Source) {
    match s
    case Str(ps) => NUL_ESCAPE !in ps
    case Arr(_, es) => NoNulElements(es)
    case Obj(_, fs) => NoNulFields(fs)
    case _ => true
  }

  predicate NoNulElements(es: seq<Element>) {
    es == [] || (NoNulEscape(es[0].value) && NoNulElements(es[1..]))
  }

  predicate NoNulFields(fs: seq<Field>) {
    fs == [] || (NUL_ESCAPE !in fs[0].key && NoNulEscape(fs[0].element.value) && NoNulFields(fs[1..]))
  }

  lemma EncodedNul(cp: nat)
    requires cp <= 0x10FFFF
    ensures NUL in Utf8.Encode(cp) <==> cp == 0
  {
    if cp == 0 { assert Utf8.Encode(0)[0] == NUL; }
  }

  lemma PieceWithNul(p: Piece)
    requires LegalPiece(p)
    ensures NUL in PieceValue(p) <==> p == NUL_ESCAPE
  {
    hide Utf8.Encode;
    match p
    case Plain(b) =>
    case Short(letter) =>
    case Unit(digits) =>
      EncodedNul(Utf8.ParseHex4(digits, 0));
      assert Utf8.ParseHex4(digits, 0) == 0 <==> digits == [ZERO, ZERO, ZERO, ZERO];
    case Pair(high, low) =>
      EncodedNul(0x10000 + (Utf8.ParseHex4(high, 0) - 0xD800) * 0x400 + (Utf8.ParseHex4(low, 0) - 0xDC00));
  }

  lemma {:induction false} PiecesWithNul(ps: seq<Piece>)
    requires LegalPieces(ps)
    ensures CText(PiecesValue(ps)) == PiecesValue(ps) <==> NUL_ESCAPE !in ps
  {
    hide PieceValue, LegalPiece;
    CTextWhole(PiecesValue(ps));
    if ps != [] {
      var more := ps[1..];
      assert ps == [ps[0]] + more;
      PieceWithNul(ps[0]);
      PiecesWithNul(more);
      CTextWhole(PiecesValue(more));
    }
  }

  /** What the program sees of a legal text is its value exactly if it has no `\u0000`. */
  lemma {:induction false} SeenIsValue(s: Source)
    requires Legal(s)
    ensures Seen(Value(s)) == Value(s) <==> NoNulEscape(s)
  {
    match s
    case Str(ps) => PiecesWithNul(ps);
    case Arr(_, es) => SeenElements(es);
    case Obj(_, fs) => SeenFields(fs);
    case _ =>
  }

  lemma {:induction false} SeenElements(es: seq<Element>)
    requires LegalElements(es)
    ensures SeenItems(Values(es)) == Values(es) <==> NoNulElements(es)
  {
    if es != [] {
      assert LegalElement(es[0]);
      SeenIsValue(es[0].value);
      SeenElements(es[1..]);
      assert Values(es)[1..] == Values(es[1..]);
      assert SeenItems(Values(es))[1..] == SeenItems(Values(es[1..]));
    }
  }

  lemma {:induction false} SeenFields(fs: seq<Field>)
    requires LegalFields(fs)
    ensures SeenMembers(MembersOf(fs)) == MembersOf(fs) <==> NoNulFields(fs)
  {
    if fs != [] {
      assert LegalField(fs[0]) && LegalElement(fs[0].element);
      PiecesWithNul(fs[0].key);
      SeenIsValue(fs[0].element.value);
      SeenFields(fs[1..]);
      assert MembersOf(fs)[1..] == MembersOf(fs[1..]);
      assert SeenMembers(MembersOf(fs))[1..] == SeenMembers(MembersOf(fs[1..]));
    }
  }

  // ---- the depth of a text is the nesting of its value ----

  lemma {:induction false} ItemsNestingShift(x: Json, js: seq<Json>, i: nat)
    ensures ItemsNesting([x] + js, i + 1) == ItemsNesting(js, i)
    decreases |js| - i
  {
    if i < |js| { ItemsNestingShift(x, js, i + 1); }
  }

  lemma {:induction false} MembersNestingShift(x: Member, ms: seq<Member>, i: nat)
    ensures MembersNesting([x] + ms, i + 1) == MembersNesting(ms, i)
    decreases |ms| - i
  {
    if i < |ms| { MembersNestingShift(x, ms, i + 1); }
  }

  lemma {:induction false} DepthIsNesting(s: Source)
    requires Legal(s)
    ensures Depth(s) == Nesting(Value(s))
  {
    match s
    case Arr(_, es) => ElementsDepthIsNesting(es);
    case Obj(_, fs) => FieldsDepthIsNesting(fs);
    case _ =>
  }

  lemma {:induction false} ElementsDepthIsNesting(es: seq<Element>)
    requires LegalElements(es)
    ensures ElementsDepth(es) == ItemsNesting(Values(es), 0)
  {
    if es != [] {
      assert LegalElement(es[0]);
      DepthIsNesting(es[0].value);
      ElementsDepthIsNesting(es[1..]);
      ItemsNestingShift(Value(es[0].value), Values(es[1..]), 0);
    }
  }

  lemma {:induction false} FieldsDepthIsNesting(fs: seq<Field>)
    requires LegalFields(fs)
    ensures FieldsDepth(fs) == MembersNesting(MembersOf(fs), 0)
  {
    if fs != [] {
      assert LegalField(fs[0]) && LegalElement(fs[0].element);
      DepthIsNesting(fs[0].element.value);
      FieldsDepthIsNesting(fs[1..]);
      MembersNestingShift(MembersOf(fs)[0], MembersOf(fs[1..]), 0);
    }
  }
}
