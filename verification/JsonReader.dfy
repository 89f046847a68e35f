/** The parser as cJSON runs it: a buffer whose offset and depth move, a two-pass string decoder
    writing into an allocated array. Every method computes the pure function of JsonParser. */
module JsonReader {
  import opened Bytes
  import opened JsonTree
  import opened JsonParser
  import JsonNumber
  import JsonString
  import Utf8

  /** parse_hex4. */
  method ParseHex4(c: bytes, p: nat) returns (h: nat)
    requires p + 4 <= |c|
    ensures h == Utf8.ParseHex4(c, p)
  {
    h := 0;
    var i := 0;
    while i < 4
      invariant 0 <= i <= 4
      invariant forall k :: p <= k < p + i ==> IsHex(c[k])
      invariant i == 0 ==> h == 0
      invariant i == 1 ==> h == 16 * HexVal(c[p])
      invariant i == 2 ==> h == 16 * (16 * HexVal(c[p]) + HexVal(c[p + 1]))
      invariant i == 3 ==> h == 16 * (16 * (16 * HexVal(c[p]) + HexVal(c[p + 1])) + HexVal(c[p + 2]))
      invariant i == 4 ==> h == 16 * (16 * (16 * HexVal(c[p]) + HexVal(c[p + 1])) + HexVal(c[p + 2])) + HexVal(c[p + 3])
    {
      if !IsHex(c[p + i]) { return 0; }
      h := h + HexVal(c[p + i]);
      if i < 3 { h := h * 16; }
      i := i + 1;
    }
    assert IsHex(c[p]) && IsHex(c[p + 1]) && IsHex(c[p + 2]) && IsHex(c[p + 3]);
  }

  /** The byte-writing tail of utf16_literal_to_utf8: continuation bytes from the last to the
      second, then the marked first byte. */
  method WriteUtf8(codepoint: nat, output: array<byte>, k: nat) returns (length: nat)
    requires codepoint <= 0x10FFFF && k + |Utf8.Encode(codepoint)| <= output.Length
    modifies output
    ensures output[..k] == old(output[..k])
    ensures length == |Utf8.Encode(codepoint)|
    ensures output[k..k + length] == Utf8.Encode(codepoint)
  {
    var mark;
    if codepoint < 0x80 { length, mark := 1, 0; }
    else if codepoint < 0x800 { length, mark := 2, 0xC0; }
    else if codepoint < 0x10000 { length, mark := 3, 0xE0; }
    else { length, mark := 4, 0xF0; }
    hide Utf8.Encode, Shifted;
    ghost var e := Utf8.Encode(codepoint);
    EncodedLength(codepoint);
    NextGroup(codepoint, 0);
    var rest := codepoint;
    var position := length - 1;
    while position > 0
      invariant 0 <= position < length == |e|
      invariant forall i :: 0 <= i < k ==> output[i] == old(output[i])
      invariant rest == Shifted(codepoint, length - 1 - position)
      invariant forall i :: position < i < length ==> output[k + i] == e[i]
    {
      SixBitGroup(codepoint, mark, length, position);
      NextGroup(codepoint, length - 1 - position);
      output[k + position] := 0x80 + rest % 64;
      rest := rest / 64;
      position := position - 1;
    }
    SixBitGroup(codepoint, mark, length, 0);
    output[k] := mark + rest;
    assert output[..k] == old(output[..k]);
    SliceIs(output, k, e);
  }

  lemma SliceIs(a: array<byte>, k: nat, s: bytes)
    requires k + |s| <= a.Length && forall i :: 0 <= i < |s| ==> a[k + i] == s[i]
    ensures a[k..k + |s|] == s
  {}

  /** `n` shifted right by six bits `times` times. */
  function Shifted(n: nat, times: nat): nat {
    if times == 0 then n else Shifted(n, times - 1) / 64
  }

  lemma EncodedLength(codepoint: nat)
    requires codepoint <= 0x10FFFF
    ensures |Utf8.Encode(codepoint)| ==
            if codepoint < 0x80 then 1 else if codepoint < 0x800 then 2 else if codepoint < 0x10000 then 3 else 4
  {}

  lemma NextGroup(n: nat, times: nat)
    ensures Shifted(n, 0) == n && Shifted(n, times + 1) == Shifted(n, times) / 64
  {}

  /** The bytes of an encoding are the six-bit groups of the code point, the last group last. */
  lemma SixBitGroup(codepoint: nat, mark: nat, length: nat, i: nat)
    requires codepoint <= 0x10FFFF && length == |Utf8.Encode(codepoint)|
    requires mark == if length == 1 then 0 else if length == 2 then 0xC0 else if length == 3 then 0xE0 else 0xF0
    requires i < length
    ensures Utf8.Encode(codepoint)[i] == (if i == 0 then mark + Shifted(codepoint, length - 1)
                                          else 0x80 + Shifted(codepoint, length - 1 - i) % 64)
  {
    assert Shifted(codepoint, 1) == codepoint / 64;
    assert Shifted(codepoint, 2) == codepoint / 4096;
    assert Shifted(codepoint, 3) == codepoint / 262144;
  }

  /** utf16_literal_to_utf8. */
  method Utf16LiteralToUtf8(c: bytes, p: nat, end: nat, output: array<byte>, k: nat)
    returns (consumed: nat, written: nat)
    requires p <= end <= |c|
    requires k + |Utf8.Utf16Literal(c, p, end).utf8| <= output.Length
    modifies output
    ensures consumed == Utf8.Utf16Literal(c, p, end).consumed
    ensures output[..k] == old(output[..k])
    ensures written == |Utf8.Utf16Literal(c, p, end).utf8|
    ensures output[k..k + written] == Utf8.Utf16Literal(c, p, end).utf8
  {
    hide Utf8.Encode, Utf8.ParseHex4;
    if end - p < 6 { return 0, 0; }
    var first := ParseHex4(c, p + 2);
    if 0xDC00 <= first <= 0xDFFF { return 0, 0; }
    var codepoint;
    if 0xD800 <= first <= 0xDBFF {
      consumed := 12;
      if end - (p + 6) < 6 { return 0, 0; }
      if c[p + 6] != BACKSLASH || c[p + 7] != LOWER_U { return 0, 0; }
      var second := ParseHex4(c, p + 8);
      if second < 0xDC00 || second > 0xDFFF { return 0, 0; }
      codepoint := 0x10000 + first % 0x400 * 0x400 + second % 0x400;
    } else {
      consumed := 6;
      codepoint := first;
    }
    written := WriteUtf8(codepoint, output, k);
  }

  /** One turn of parse_string's second loop. */
  method DecodeOne(c: bytes, p: nat, end: nat, output: array<byte>, k: nat)
    returns (consumed: nat, written: nat)
    requires p < end < |c|
    requires k + |JsonString.DecodeStep(c, p, end).utf8| <= output.Length
    modifies output
    ensures consumed == JsonString.DecodeStep(c, p, end).consumed
    ensures written == |JsonString.DecodeStep(c, p, end).utf8|
    ensures output[..k] == old(output[..k])
    ensures output[k..k + written] == JsonString.DecodeStep(c, p, end).utf8
  {
    if c[p] != BACKSLASH {
      output[k] := c[p];
      return 1, 1;
    }
    if c[p + 1] == LOWER_U {
      consumed, written := Utf16LiteralToUtf8(c, p, end, output, k);
      return;
    }
    match JsonString.SimpleEscape(c[p + 1])
    case None => return 0, 0;
    case Some(b) =>
      output[k] := b;
      return 2, 1;
  }

  /** parse_string's second loop: it decodes into `output`, which is longer than what it writes. */
  method DecodeInto(c: bytes, start: nat, end: nat, output: array<byte>)
    returns (ok: bool, at: nat, k: nat)
    requires start <= end < |c|
    requires |JsonString.Decode(c, start, end, []).out| < output.Length
    modifies output
    ensures k < output.Length
    ensures JsonString.Decoded(ok, output[..k], at) == JsonString.Decode(c, start, end, [])
  {
    hide JsonString.DecodeStep;
    at, k := start, 0;
    assert output[..0] == [];
    ghost var whole := JsonString.Decode(c, start, end, []);
    while at < end
      invariant start <= at <= end + 1
      invariant k <= |whole.out|
      invariant JsonString.Decode(c, at, end, output[..k]) == whole
      decreases end + 1 - at
    {
      ghost var before := output[..k];
      ghost var step := JsonString.DecodeStep(c, at, end);
      if step.consumed != 0 {
        assert whole == JsonString.Decode(c, at + step.consumed, end, before + step.utf8);
      }
      RefusalWritesNothing(c, at, end);
      var consumed, written := DecodeOne(c, at, end, output, k);
      if consumed == 0 { return false, at, k; }
      assert output[..k + written] == output[..k] + output[k..k + written];
      at, k := at + consumed, k + written;
    }
    return true, at, k;
  }

  lemma RefusalWritesNothing(c: bytes, p: nat, end: nat)
    requires p < end < |c|
    ensures JsonString.DecodeStep(c, p, end).consumed == 0 ==> JsonString.DecodeStep(c, p, end).utf8 == []
  {}

  /** The first pass seen from its middle: `skipped` escapes before `i`. */
  ghost predicate ScanFrom(c: bytes, start: nat, i: nat, skipped: nat)
    requires start <= |c| && i <= |c|
  {
    match JsonString.ScanEnd(c, i)
    case None => JsonString.ScanEnd(c, start) == None
    case Some(s) => JsonString.ScanEnd(c, start) == Some(JsonString.Scan(s.end, s.skipped + skipped))
  }

  class ParseBuffer {
    const content: bytes
    var offset: nat
    var depth: nat

    constructor (c: bytes)
      ensures content == c && offset == 0 && depth == 0
    {
      content := c;
      offset, depth := 0, 0;
    }

    /** buffer_skip_whitespace. */
    method SkipWhitespace()
      requires offset <= |content|
      modifies this`offset
      ensures offset == SkipSpace(content, old(offset))
    {
      if offset >= |content| { return; }
      while offset < |content| && content[offset] <= 32
        invariant old(offset) <= offset <= |content|
        invariant SpaceRun(content, offset) == SpaceRun(content, old(offset))
        decreases |content| - offset
      {
        offset := offset + 1;
      }
      if offset == |content| { offset := offset - 1; }
    }

    /** parse_number. strtod itself is libc's and appears as a function of the token. */
    method ReadNumber() returns (ok: bool, item: Json)
      requires offset <= |content|
      modifies this`offset
      ensures Outcome(ok, item, offset, depth) == ParseNumber(content, old(offset), depth)
    {
      var i := 0;
      while offset + i < |content| && JsonNumber.IsNumberByte(content[offset + i])
        invariant offset + i <= |content|
        invariant JsonNumber.NumberRun(content, offset + i) == JsonNumber.NumberRun(content, offset)
        decreases |content| - (offset + i)
      {
        i := i + 1;
      }
      var n := JsonNumber.StrtodOf(content[offset..offset + i]);
      if n.consumed == 0 { return false, Null; }
      offset := offset + n.consumed;
      return true, n.number;
    }

    /** The first pass of parse_string: find the closing quote and count the escapes. */
    method FindQuote() returns (found: Option<JsonString.Scan>)
      requires offset < |content|
      ensures found == JsonString.ScanEnd(content, offset + 1)
    {
      var inputEnd, skipped := offset + 1, 0;
      while inputEnd < |content| && content[inputEnd] != QUOTE
        invariant offset < inputEnd <= |content|
        invariant ScanFrom(content, offset + 1, inputEnd, skipped)
        decreases |content| - inputEnd
      {
        if content[inputEnd] == BACKSLASH {
          if inputEnd + 1 >= |content| { return None; }
          skipped := skipped + 1;
          inputEnd := inputEnd + 1;
        }
        inputEnd := inputEnd + 1;
      }
      if inputEnd >= |content| { return None; }
      return Some(JsonString.Scan(inputEnd, skipped));
    }

    /** parse_string. The array is as long as the first pass computed; that the second pass and
        the terminator stay inside it is JsonString.OutputFits. */
    method ReadString() returns (ok: bool, str: bytes)
      requires offset < |content|
      modifies this`offset
      ensures JsonString.StringResult(ok, str, offset) == JsonString.ParseString(content, old(offset))
    {
      hide JsonString.ScanEnd, JsonString.Decode;
      var inputPointer := offset + 1;
      if content[offset] != QUOTE {
        offset := inputPointer;
        return false, [];
      }
      var found := FindQuote();
      if found.None? {
        offset := inputPointer;
        return false, [];
      }
      var inputEnd := found.value.end;
      JsonString.OutputFits(content, offset);
      var output := new byte[inputEnd - offset - found.value.skipped + 1];
      var decoded, at, k := DecodeInto(content, inputPointer, inputEnd, output);
      if !decoded {
        offset := at;
        return false, [];
      }
      output[k] := NUL;
      str := output[..k];
      offset := inputEnd + 1;
      return true, str;
    }

    /** parse_value. */
    method ReadValue() returns (ok: bool, item: Json)
      requires offset <= |content|
      modifies this`offset, this`depth
      ensures Outcome(ok, item, offset, depth) == ParseValue(content, old(offset), old(depth))
      decreases |content| - offset, 2
    {
      if LiteralAt(content, offset, NULL_LITERAL) {
        offset := offset + 4;
        return true, Null;
      }
      if LiteralAt(content, offset, FALSE_LITERAL) {
        offset := offset + 5;
        return true, False;
      }
      if LiteralAt(content, offset, TRUE_LITERAL) {
        offset := offset + 4;
        return true, True;
      }
      if offset < |content| && content[offset] == QUOTE {
        var str;
        ok, str := ReadString();
        return ok, if ok then String(str) else Null;
      }
      if offset < |content| && (content[offset] == MINUS || IsDigit(content[offset])) {
        ok, item := ReadNumber();
        return;
      }
      if offset < |content| && content[offset] == OPEN_BRACKET {
        ok, item := ReadArray();
        return;
      }
      if offset < |content| && content[offset] == OPEN_BRACE {
        ok, item := ReadObject();
        return;
      }
      return false, Null;
    }

    /** parse_array. */
    method ReadArray() returns (ok: bool, item: Json)
      requires offset < |content| && content[offset] == OPEN_BRACKET
      modifies this`offset, this`depth
      ensures Outcome(ok, item, offset, depth) == ParseArray(content, old(offset), old(depth))
      decreases |content| - offset, 1
    {
      hide ParseItems, ParseMembers, ParseValue;
      if depth >= NESTING_LIMIT { return false, Null; }
      depth := depth + 1;
      offset := offset + 1;
      SkipWhitespace();
      if offset < |content| && content[offset] == CLOSE_BRACKET {
        depth, offset := depth - 1, offset + 1;
        return true, Array([]);
      }
      if offset >= |content| {
        offset := offset - 1;
        return false, Null;
      }
      offset := offset - 1;
      ok, item := ReadItems();
    }

    /** The loop of parse_array, from the position in front of the first element. */
    method ReadItems() returns (ok: bool, item: Json)
      requires offset < |content| && depth >= 1
      modifies this`offset, this`depth
      ensures Outcome(ok, item, offset, depth) == ParseItems(content, old(offset), old(depth), [])
      decreases |content| - offset, 0
    {
      hide ParseValue, SkipSpace;
      ghost var whole := ParseItems(content, offset, depth, []);
      var items := [];
      var more := true;
      while more
        invariant old(offset) <= offset < |content| && depth >= 1
        invariant more ==> ParseItems(content, offset, depth, items) == whole
        invariant !more ==> whole == if content[offset] == CLOSE_BRACKET
                                     then Outcome(true, Array(items), offset + 1, depth - 1)
                                     else Fail(offset, depth)
        decreases more, |content| - offset
      {
        offset := offset + 1;
        SkipWhitespace();
        var parsed, element := ReadValue();
        if !parsed { return false, Null; }
        SkipWhitespace();
        items := items + [element];
        more := offset < |content| && content[offset] == COMMA;
        if offset >= |content| { return false, Null; }
      }
      if content[offset] != CLOSE_BRACKET { return false, Null; }
      depth, offset := depth - 1, offset + 1;
      return true, Array(items);
    }

    /** parse_object. */
    method ReadObject() returns (ok: bool, item: Json)
      requires offset < |content| && content[offset] == OPEN_BRACE
      modifies this`offset, this`depth
      ensures Outcome(ok, item, offset, depth) == ParseObject(content, old(offset), old(depth))
      decreases |content| - offset, 1
    {
      hide ParseItems, ParseMembers, ParseValue;
      if depth >= NESTING_LIMIT { return false, Null; }
      depth := depth + 1;
      offset := offset + 1;
      SkipWhitespace();
      if offset < |content| && content[offset] == CLOSE_BRACE {
        depth, offset := depth - 1, offset + 1;
        return true, Object([]);
      }
      if offset >= |content| {
        offset := offset - 1;
        return false, Null;
      }
      offset := offset - 1;
      ok, item := ReadMembers();
    }

    /** The key and the colon of one member. */
    method ReadKey() returns (ok: bool, key: bytes)
      requires offset < |content|
      modifies this`offset
      ensures JsonString.StringResult(ok, key, offset) == ParseKey(content, old(offset))
    {
      hide JsonString.ParseString;
      if offset + 1 >= |content| { return false, []; }
      offset := offset + 1;
      SkipWhitespace();
      ok, key := ReadString();
      if !ok { return; }
      SkipWhitespace();
      if offset >= |content| || content[offset] != COLON { return false, []; }
      offset := offset + 1;
      SkipWhitespace();
    }

    /** The loop of parse_object, from the position in front of the first key. */
    method ReadMembers() returns (ok: bool, item: Json)
      requires offset < |content| && depth >= 1
      modifies this`offset, this`depth
      ensures Outcome(ok, item, offset, depth) == ParseMembers(content, old(offset), old(depth), [])
      decreases |content| - offset, 0
    {
      hide ParseValue, SkipSpace, ParseKey;
      ghost var whole := ParseMembers(content, offset, depth, []);
      var members := [];
      var more := true;
      while more
        invariant old(offset) <= offset < |content| && depth >= 1
        invariant more ==> ParseMembers(content, offset, depth, members) == whole
        invariant !more ==> whole == if content[offset] == CLOSE_BRACE
                                     then Outcome(true, Object(members), offset + 1, depth - 1)
                                     else Fail(offset, depth)
        decreases more, |content| - offset
      {
        var named, key := ReadKey();
        if !named { return false, Null; }
        var parsed, value := ReadValue();
        if !parsed { return false, Null; }
        SkipWhitespace();
        members := members + [Member(key, value)];
        more := offset < |content| && content[offset] == COMMA;
        if offset >= |content| { return false, Null; }
      }
      if content[offset] != CLOSE_BRACE { return false, Null; }
      depth, offset := depth - 1, offset + 1;
      return true, Object(members);
    }
  }

  /** cJSON_ParseWithLengthOpts: skip a byte order mark and white space, parse one value, and when
      asked require that only white space and the terminator follow. `end` is what
      return_parse_end receives, the position of the error on failure. */
  method ParseWithLengthOpts(c: bytes, requireNullTerminated: bool) returns (item: Option<Json>, end: nat)
    ensures item == ParseText(c, requireNullTerminated) && end == ParseEnd(c, requireNullTerminated)
  {
    hide ParseValue, SkipSpace, LiteralAt;
    if |c| == 0 { return None, 0; }
    var buffer := new ParseBuffer(c);
    if |c| > 4 && LiteralAt(c, 0, BOM) { buffer.offset := 3; }
    buffer.SkipWhitespace();
    var ok, value := buffer.ReadValue();
    if ok && requireNullTerminated {
      buffer.SkipWhitespace();
      if buffer.offset >= |c| || c[buffer.offset] != NUL { ok := false; }
    }
    if !ok { return None, if buffer.offset < |c| then buffer.offset else |c| - 1; }
    return Some(value), buffer.offset;
  }
}
