/** String literals: print_string_ptr's escaping and parse_string's two passes. */
module JsonString {
  import opened Bytes
  import Utf8

  // ---- printing ----

  /** The escape of one byte. */
  function EscapeByte(b: byte): (e: bytes)
    ensures |e| == 1 || |e| == 2 || |e| == 6
    ensures |e| == 1 + ExtraChars(b)
  {
    if b == 34 then [92, 34]
    else if b == 92 then [92, 92]
    else if b == 8 then [92, 98]
    else if b == 12 then [92, 102]
    else if b == 10 then [92, 110]
    else if b == 13 then [92, 114]
    else if b == 9 then [92, 116]
    else if b < 32 then [92, 117, 48, 48, HexDigit(b / 16), HexDigit(b % 16)]
    else [b]
  }

  /** What the counting pass adds for one byte. */
  function ExtraChars(b: byte): nat {
    if b == 34 || b == 92 || b == 8 || b == 12 || b == 10 || b == 13 || b == 9 then 1
    else if b < 32 then 5
    else 0
  }

  function Escape(s: bytes): bytes {
    if s == [] then [] else EscapeByte(s[0]) + Escape(s[1..])
  }

  /** The counting pass over the whole string. */
  function CountExtra(s: bytes): nat {
    if s == [] then 0 else ExtraChars(s[0]) + CountExtra(s[1..])
  }

  /** The literal print_string_ptr writes. */
  function Quoted(s: bytes): bytes { [QUOTE] + Escape(s) + [QUOTE] }

  /** The counting pass predicts exactly what the writing pass emits. */
  lemma {:induction false} CountPredictsLength(s: bytes)
    ensures |Escape(s)| == |s| + CountExtra(s)
  {
    if s != [] { CountPredictsLength(s[1..]); }
  }

  /** Nothing counted means nothing escaped: the memcpy shortcut copies the same bytes. */
  lemma {:induction false} NoExtraIsIdentity(s: bytes)
    requires CountExtra(s) == 0
    ensures Escape(s) == s
  {
    if s != [] {
      NoExtraIsIdentity(s[1..]);
      assert EscapeByte(s[0]) == [s[0]];
    }
  }

  lemma {:induction false} EscapeSnoc(s: bytes, b: byte)
    ensures Escape(s + [b]) == Escape(s) + EscapeByte(b)
    ensures CountExtra(s + [b]) == CountExtra(s) + ExtraChars(b)
  {
    if s == [] {
      assert Escape([b]) == EscapeByte(b) + Escape([]);
    } else {
      assert (s + [b])[1..] == s[1..] + [b];
      EscapeSnoc(s[1..], b);
    }
  }

  /** An escaped string has no quote that is not behind a backslash, and nothing below a blank. */
  lemma {:induction false} EscapeIsPrintable(s: bytes)
    ensures forall i :: 0 <= i < |Escape(s)| ==> Escape(s)[i] >= 32
  {
    if s != [] { EscapeIsPrintable(s[1..]); }
  }

  // ---- parsing, first pass ----

  /** Where the first pass found the closing quote, and how many escapes it stepped over. */
  datatype Scan = Scan(end: nat, skipped: nat)

  function ScanEnd(c: bytes, i: nat): (r: Option<Scan>)
    requires i <= |c|
    ensures r.Some? ==> i <= r.value.end < |c| && c[r.value.end] == QUOTE
    ensures r.Some? ==> r.value.skipped <= r.value.end - i
    decreases |c| - i
  {
    if i >= |c| then None
    else if c[i] == QUOTE then Some(Scan(i, 0))
    else if c[i] == BACKSLASH then
      if i + 1 >= |c| then None
      else match ScanEnd(c, i + 2)
        case None => None
        case Some(s) => Some(Scan(s.end, s.skipped + 1))
    else ScanEnd(c, i + 1)
  }

  // ---- parsing, second pass ----

  datatype Decoded = Decoded(ok: bool, out: bytes, at: nat)

  /** The byte a two-character escape stands for. */
  function SimpleEscape(b: byte): Option<byte> {
    if b == 98 then Some(8)
    else if b == 102 then Some(12)
    else if b == 110 then Some(10)
    else if b == 114 then Some(13)
    else if b == 116 then Some(9)
    else if b == QUOTE || b == BACKSLASH || b == SLASH then Some(b)
    else None
  }

  /** One turn of the second loop: how far it advances, and what it writes; 0 is a refusal. */
  function DecodeStep(c: bytes, p: nat, end: nat): (r: Utf8.Literal)
    requires p < end < |c|
    ensures p + r.consumed <= end + 1
    ensures r.consumed <= 2 ==> |r.utf8| <= 1
    ensures r.consumed > 2 ==> (r.consumed == 6 || r.consumed == 12) && p + r.consumed <= end && |r.utf8| <= r.consumed / 2
  {
    if c[p] != BACKSLASH then Utf8.Literal(1, [c[p]])
    else if c[p + 1] == LOWER_U then Utf8.Utf16Literal(c, p, end)
    else match SimpleEscape(c[p + 1])
      case None => Utf8.Literal(0, [])
      case Some(b) => Utf8.Literal(2, [b])
  }

  /** The second pass at `p`, having written `acc`. It may stop one past the closing quote, when a
      malformed \u escape has put it out of step with the first pass. */
  function Decode(c: bytes, p: nat, end: nat, acc: bytes): (r: Decoded)
    requires p <= end + 1 && end < |c|
    ensures |acc| <= |r.out| && p <= r.at <= end + 1
    ensures !r.ok ==> r.at < end
    decreases end + 1 - p
  {
    if p >= end then Decoded(true, acc, p)
    else
      var step := DecodeStep(c, p, end);
      if step.consumed == 0 then Decoded(false, acc, p)
      else Decode(c, p + step.consumed, end, acc + step.utf8)
  }

  datatype StringResult = StringResult(ok: bool, str: bytes, offset: nat)

  /** parse_string at offset `off`. On failure the offset is where the second pass stopped. */
  function ParseString(c: bytes, off: nat): (r: StringResult)
    requires off < |c|
    ensures off < r.offset <= |c|
    ensures !r.ok ==> r.str == []
  {
    if c[off] != QUOTE then StringResult(false, [], off + 1)
    else match ScanEnd(c, off + 1)
      case None => StringResult(false, [], off + 1)
      case Some(scan) =>
        var d := Decode(c, off + 1, scan.end, []);
        if d.ok then StringResult(true, d.out, scan.end + 1) else StringResult(false, [], d.at)
  }

  /** The size the first pass asks the allocator for. */
  function Allocation(off: nat, scan: Scan): int { scan.end - off - scan.skipped + 1 }

  // ---- the output always fits, in step or not ----

  /** `room` more bytes of the allocation belong to the input from `p` on: `p` is either a position
      the first pass visited, or the second half of an escape it stepped over. */
  ghost predicate Follows(c: bytes, p: nat, end: nat, room: int) {
    p <= |c| &&
    ((exists k {:trigger Scan(end, k)} :: ScanEnd(c, p) == Some(Scan(end, k)) && room == end - p - k) ||
     (p < end < |c| && exists k {:trigger Scan(end, k)} :: ScanEnd(c, p + 1) == Some(Scan(end, k)) && room == end - p - k))
  }

  lemma OneStep(c: bytes, p: nat, end: nat, room: int) returns (room': int)
    requires Follows(c, p, end, room) && p < end && c[p] != BACKSLASH
    ensures Follows(c, p + 1, end, room') && room' <= room - 1
  {
    var k: nat :| (ScanEnd(c, p) == Some(Scan(end, k)) || (p < end < |c| && ScanEnd(c, p + 1) == Some(Scan(end, k)))) && room == end - p - k;
    room' := room - 1;
    assert ScanEnd(c, p + 1) == Some(Scan(end, k));
  }

  lemma TwoSteps(c: bytes, p: nat, end: nat, room: int) returns (room': int)
    requires Follows(c, p, end, room) && p + 2 <= end
    ensures Follows(c, p + 2, end, room') && room' <= room - 1
  {
    var k: nat :| (ScanEnd(c, p) == Some(Scan(end, k)) || (p < end < |c| && ScanEnd(c, p + 1) == Some(Scan(end, k)))) && room == end - p - k;
    if ScanEnd(c, p) == Some(Scan(end, k)) && c[p] == BACKSLASH {
      assert ScanEnd(c, p + 2) == Some(Scan(end, k - 1));
      room' := room - 1;
    } else {
      assert ScanEnd(c, p + 1) == Some(Scan(end, k));
      if c[p + 1] == BACKSLASH {
        assert ScanEnd(c, p + 3) == Some(Scan(end, k - 1));
        room' := room - 1;
      } else {
        assert ScanEnd(c, p + 2) == Some(Scan(end, k));
        room' := room - 2;
      }
    }
  }

  lemma SixSteps(c: bytes, p: nat, end: nat, room: int) returns (room': int)
    requires Follows(c, p, end, room) && p + 6 <= end
    ensures Follows(c, p + 6, end, room') && room' <= room - 3
  {
    room' := TwoSteps(c, p, end, room);
    room' := TwoSteps(c, p + 2, end, room');
    room' := TwoSteps(c, p + 4, end, room');
  }

  lemma {:induction false} DecodeFits(c: bytes, p: nat, end: nat, acc: bytes, room: int)
    requires p <= end < |c| && Follows(c, p, end, room)
    ensures |Decode(c, p, end, acc).out| <= |acc| + room
    decreases end - p
  {
    hide DecodeStep, ScanEnd, Follows;
    RoomLeft(c, p, end, room);
    if p < end {
      var step := DecodeStep(c, p, end);
      if step.consumed != 0 && p + step.consumed <= end {
        var r := StepFits(c, p, end, room);
        DecodeFits(c, p + step.consumed, end, acc + step.utf8, r);
      }
    }
  }

  lemma RoomLeft(c: bytes, p: nat, end: nat, room: int)
    requires p <= end < |c| && Follows(c, p, end, room)
    ensures 0 <= room && (p < end ==> 1 <= room)
  {
    hide ScanEnd;
    var k: nat :| (ScanEnd(c, p) == Some(Scan(end, k)) || (p < end < |c| && ScanEnd(c, p + 1) == Some(Scan(end, k)))) && room == end - p - k;
    if p < end && ScanEnd(c, p) == Some(Scan(end, k)) { SkippedLess(c, p); }
  }

  /** Each skipped byte is behind its backslash. */
  lemma {:induction false} SkippedLess(c: bytes, i: nat)
    requires i <= |c| && ScanEnd(c, i).Some? && i < ScanEnd(c, i).value.end
    ensures ScanEnd(c, i).value.skipped < ScanEnd(c, i).value.end - i
    decreases |c| - i
  {
    if c[i] != BACKSLASH && i + 1 < ScanEnd(c, i).value.end { SkippedLess(c, i + 1); }
  }

  lemma StepOfOne(c: bytes, p: nat, end: nat)
    requires p < end < |c|
    ensures DecodeStep(c, p, end).consumed == 1 ==> c[p] != BACKSLASH
  {
    hide Utf8.Encode, Utf8.ParseHex4;
  }

  /** One turn of the second loop uses up at least as much room as it writes bytes. */
  lemma StepFits(c: bytes, p: nat, end: nat, room: int) returns (room': int)
    requires p < end < |c| && Follows(c, p, end, room)
    requires DecodeStep(c, p, end).consumed != 0 && p + DecodeStep(c, p, end).consumed <= end
    ensures Follows(c, p + DecodeStep(c, p, end).consumed, end, room')
    ensures room' <= room - |DecodeStep(c, p, end).utf8|
  {
    hide DecodeStep, ScanEnd, Follows;
    var step := DecodeStep(c, p, end);
    StepOfOne(c, p, end);
    if step.consumed == 1 { room' := OneStep(c, p, end, room); }
    else if step.consumed == 2 { room' := TwoSteps(c, p, end, room); }
    else { room' := SixSteps(c, p, end, room); }
    if step.consumed == 12 { room' := SixSteps(c, p + 6, end, room'); }
  }

  /** For every input, also when the passes disagree, what the second pass writes and its
      terminator leave at least one byte of the allocation unused. */
  lemma OutputFits(c: bytes, off: nat)
    requires off < |c| && c[off] == QUOTE && ScanEnd(c, off + 1).Some?
    ensures var scan := ScanEnd(c, off + 1).value;
            |Decode(c, off + 1, scan.end, []).out| + 1 < Allocation(off, scan)
  {
    var scan := ScanEnd(c, off + 1).value;
    var room := scan.end - (off + 1) - scan.skipped;
    assert ScanEnd(c, off + 1) == Some(Scan(scan.end, scan.skipped));
    DecodeFits(c, off + 1, scan.end, [], room);
  }

  /** The second pass reads nothing past the closing quote: its result is the same in every buffer
      that agrees up to and including that quote. */
  lemma {:induction false} ReadsToQuote(c: bytes, c': bytes, p: nat, end: nat, acc: bytes)
    requires p <= end + 1 && end < |c| && end < |c'|
    requires forall i :: 0 <= i <= end ==> c[i] == c'[i]
    ensures Decode(c, p, end, acc) == Decode(c', p, end, acc)
    decreases end + 1 - p
  {
    hide DecodeStep;
    if p < end {
      SameStep(c, c', p, end);
      var step := DecodeStep(c, p, end);
      if step.consumed != 0 { ReadsToQuote(c, c', p + step.consumed, end, acc + step.utf8); }
    }
  }

  lemma SameStep(c: bytes, c': bytes, p: nat, end: nat)
    requires p < end < |c| && end < |c'|
    requires forall i :: 0 <= i <= end ==> c[i] == c'[i]
    ensures DecodeStep(c, p, end) == DecodeStep(c', p, end)
  {
    hide Utf8.Encode, HexVal, IsHex;
    if c[p] == BACKSLASH && c[p + 1] == LOWER_U && p + 6 <= end {
      assert Utf8.ParseHex4(c, p + 2) == Utf8.ParseHex4(c', p + 2);
      if p + 12 <= end { assert Utf8.ParseHex4(c, p + 8) == Utf8.ParseHex4(c', p + 8); }
    }
  }
}
