/** cJSON's recursive-descent parser: the pure function it computes, on every byte buffer. */
module JsonParser {
  import opened Bytes
  import opened JsonTree
  import JsonNumber
  import JsonString

  const NULL_LITERAL: bytes := [110, 117, 108, 108]
  const FALSE_LITERAL: bytes := [102, 97, 108, 115, 101]
  const TRUE_LITERAL: bytes := [116, 114, 117, 101]
  const BOM: bytes := [0xEF, 0xBB, 0xBF]

  /** What a parse leaves behind: success, the value (Null on failure), and the offset and depth
      of the parse buffer. */
  datatype Outcome = Outcome(ok: bool, value: Json, offset: nat, depth: nat)

  function Fail(offset: nat, depth: nat): Outcome { Outcome(false, Null, offset, depth) }

  /** can_read and strncmp. */
  predicate LiteralAt(c: bytes, i: nat, lit: bytes) {
    i + |lit| <= |c| && c[i..i + |lit|] == lit
  }

  predicate ByteAt(c: bytes, i: nat, b: byte) { i < |c| && c[i] == b }

  function SpaceRun(c: bytes, i: nat): (j: nat)
    requires i <= |c|
    ensures i <= j <= |c|
    ensures forall k :: i <= k < j ==> c[k] <= 32
    ensures j < |c| ==> c[j] > 32
    decreases |c| - i
  {
    if i < |c| && c[i] <= 32 then SpaceRun(c, i + 1) else i
  }

  /** buffer_skip_whitespace: at the end of the buffer it steps back by one, but never to before
      the position it started from. */
  function SkipSpace(c: bytes, i: nat): (j: nat)
    requires i <= |c|
    ensures i <= j <= |c|
    ensures i < |c| ==> j < |c|
    ensures i < |c| && c[i] > 32 ==> j == i
  {
    if i >= |c| then i
    else
      var j := SpaceRun(c, i);
      if j == |c| then j - 1 else j
  }

  /** parse_number. */
  function ParseNumber(c: bytes, off: nat, depth: nat): (r: Outcome)
    requires off <= |c|
    ensures off <= r.offset <= |c| && r.depth == depth
    ensures r.ok ==> off < r.offset
  {
    var n := JsonNumber.StrtodOf(c[off..JsonNumber.NumberRun(c, off)]);
    if n.consumed == 0 then Fail(off, depth) else Outcome(true, n.number, off + n.consumed, depth)
  }

  /** parse_value. It reads only inside the buffer, and a success strictly advances and restores
      the depth. */
  function ParseValue(c: bytes, off: nat, depth: nat): (r: Outcome)
    requires off <= |c|
    ensures r.offset <= |c|
    ensures r.ok ==> off < r.offset && r.depth == depth
    decreases |c| - off, 2
  {
    if LiteralAt(c, off, NULL_LITERAL) then Outcome(true, Null, off + 4, depth)
    else if LiteralAt(c, off, FALSE_LITERAL) then Outcome(true, False, off + 5, depth)
    else if LiteralAt(c, off, TRUE_LITERAL) then Outcome(true, True, off + 4, depth)
    else if ByteAt(c, off, QUOTE) then
      var s := JsonString.ParseString(c, off);
      if s.ok then Outcome(true, String(s.str), s.offset, depth) else Fail(s.offset, depth)
    else if off < |c| && (c[off] == MINUS || IsDigit(c[off])) then ParseNumber(c, off, depth)
    else if ByteAt(c, off, OPEN_BRACKET) then ParseArray(c, off, depth)
    else if ByteAt(c, off, OPEN_BRACE) then ParseObject(c, off, depth)
    else Fail(off, depth)
  }

  function ParseArray(c: bytes, off: nat, depth: nat): (r: Outcome)
    requires off < |c|
    ensures r.offset <= |c|
    ensures r.ok ==> off < r.offset && r.depth == depth && r.value.Array?
    decreases |c| - off, 1
  {
    if depth >= NESTING_LIMIT then Fail(off, depth)
    else
      var first := SkipSpace(c, off + 1);
      if ByteAt(c, first, CLOSE_BRACKET) then Outcome(true, Array([]), first + 1, depth)
      else if first >= |c| then Fail(first - 1, depth + 1)
      else ParseItems(c, first - 1, depth + 1, [])
  }

  /** The loop of parse_array: `before` is the position in front of the next element, and `items`
      the elements so far. */
  function ParseItems(c: bytes, before: nat, depth: nat, items: seq<Json>): (r: Outcome)
    requires before < |c| && depth >= 1
    ensures r.offset <= |c|
    ensures r.ok ==> before < r.offset && r.depth == depth - 1 && r.value.Array?
    decreases |c| - before, 0
  {
    var v := ParseValue(c, SkipSpace(c, before + 1), depth);
    if !v.ok then Fail(v.offset, v.depth)
    else
      var next := SkipSpace(c, v.offset);
      if ByteAt(c, next, COMMA) then ParseItems(c, next, depth, items + [v.value])
      else if ByteAt(c, next, CLOSE_BRACKET) then Outcome(true, Array(items + [v.value]), next + 1, depth - 1)
      else Fail(next, depth)
  }

  function ParseObject(c: bytes, off: nat, depth: nat): (r: Outcome)
    requires off < |c|
    ensures r.offset <= |c|
    ensures r.ok ==> off < r.offset && r.depth == depth && r.value.Object?
    decreases |c| - off, 1
  {
    if depth >= NESTING_LIMIT then Fail(off, depth)
    else
      var first := SkipSpace(c, off + 1);
      if ByteAt(c, first, CLOSE_BRACE) then Outcome(true, Object([]), first + 1, depth)
      else if first >= |c| then Fail(first - 1, depth + 1)
      else ParseMembers(c, first - 1, depth + 1, [])
  }

  /** The part of parse_object's loop up to the value: the key and the colon. `ok` says that the
      value starts at `offset`. */
  function ParseKey(c: bytes, before: nat): (r: JsonString.StringResult)
    requires before < |c|
    ensures before <= r.offset <= |c|
    ensures r.ok ==> before < r.offset
  {
    if before + 1 >= |c| then JsonString.StringResult(false, [], before)
    else
      var k := JsonString.ParseString(c, SkipSpace(c, before + 1));
      if !k.ok then k
      else
        var colon := SkipSpace(c, k.offset);
        if !ByteAt(c, colon, COLON) then JsonString.StringResult(false, [], colon)
        else JsonString.StringResult(true, k.str, SkipSpace(c, colon + 1))
  }

  /** The loop of parse_object. */
  function ParseMembers(c: bytes, before: nat, depth: nat, ms: seq<Member>): (r: Outcome)
    requires before < |c| && depth >= 1
    ensures r.offset <= |c|
    ensures r.ok ==> before < r.offset && r.depth == depth - 1 && r.value.Object?
    decreases |c| - before, 0
  {
    var k := ParseKey(c, before);
    if !k.ok then Fail(k.offset, depth)
    else
      var v := ParseValue(c, k.offset, depth);
      if !v.ok then Fail(v.offset, v.depth)
      else
        var next := SkipSpace(c, v.offset);
        if ByteAt(c, next, COMMA) then ParseMembers(c, next, depth, ms + [Member(k.str, v.value)])
        else if ByteAt(c, next, CLOSE_BRACE) then
          Outcome(true, Object(ms + [Member(k.str, v.value)]), next + 1, depth - 1)
        else Fail(next, depth)
  }

  /** cJSON_ParseWithLengthOpts: the tree, or None. */
  function ParseText(c: bytes, requireTerminator: bool): Option<Json> {
    if c == [] then None
    else
      var start := if |c| > 4 && LiteralAt(c, 0, BOM) then 3 else 0;
      var v := ParseValue(c, SkipSpace(c, start), 0);
      if !v.ok then None
      else if !requireTerminator then Some(v.value)
      else if ByteAt(c, SkipSpace(c, v.offset), NUL) then Some(v.value)
      else None
  }

  /** Where it says the text ends, or on failure where it says the error is. */
  function ParseEnd(c: bytes, requireTerminator: bool): (e: nat)
    ensures e <= |c|
    ensures ParseText(c, requireTerminator) == None && c != [] ==> e < |c|
  {
    if c == [] then 0
    else
      var start := if |c| > 4 && LiteralAt(c, 0, BOM) then 3 else 0;
      var v := ParseValue(c, SkipSpace(c, start), 0);
      var e := if v.ok && requireTerminator then SkipSpace(c, v.offset) else v.offset;
      if v.ok && (!requireTerminator || ByteAt(c, e, NUL)) then e else Min(e, |c| - 1)
  }
}
