/** The request-body reader of exec_run_pipe, one byte at a time, and the encodings it reads: chunked
    coding (RFC 9112 section 7.1) and a body framed by its Content-Length. */
module BodyReader {
  import opened Bytes

  const HEADER_CAP: nat := 31

  datatype Phase = Header | Data | Trailer | Final | Done

  /** br_state, br_remaining and br_hdr. `chunked` never changes. */
  datatype Reader = Reader(chunked: bool, phase: Phase, remaining: int, header: bytes)

  /** A reader and the body bytes it has delivered. */
  datatype Fed = Fed(reader: Reader, out: bytes)

  const CHUNKED: Reader := Reader(true, Header, -1, [])

  /** The initial state of the reader for the two header fields. */
  function Start(contentLength: int, chunked: bool): Reader {
    if chunked then CHUNKED
    else if contentLength > 0 then Reader(false, Data, contentLength, [])
    else Reader(false, Done, 0, [])
  }

  /** The state after the last byte of a chunk's data. */
  function AfterData(r: Reader): Reader { r.(phase := if r.chunked then Trailer else Done) }

  /** One byte of the body stream. */
  function Feed(r: Reader, b: byte): Fed {
    match r.phase
    case Header =>
      if b == LF then
        var size := Strtol16(r.header);
        Fed(Reader(r.chunked, if size == 0 then Final else Data, size, []), [])
      else if |r.header| < HEADER_CAP then Fed(r.(header := r.header + [b]), [])
      else Fed(r, [])
    case Data =>
      var r' := r.(remaining := r.remaining - 1);
      Fed(if r'.remaining == 0 then AfterData(r') else r', [b])
    case Trailer => Fed(if b == LF then r.(phase := Header) else r, [])
    case Final => Fed(if b == LF then r.(phase := Done) else r, [])
    case Done => Fed(r, [])
  }

  function FeedAll(r: Reader, s: bytes): Fed
    decreases |s|
  {
    if s == [] then Fed(r, [])
    else
      var first := Feed(r, s[0]);
      var rest := FeedAll(first.reader, s[1..]);
      Fed(rest.reader, first.out + rest.out)
  }

  lemma {:induction false} FeedConcat(r: Reader, s: bytes, t: bytes)
    ensures FeedAll(r, s + t) ==
            Fed(FeedAll(FeedAll(r, s).reader, t).reader, FeedAll(r, s).out + FeedAll(FeedAll(r, s).reader, t).out)
    decreases |s|
  {
    if s == [] {
      assert s + t == t;
    } else {
      assert (s + t)[1..] == s[1..] + t;
      FeedConcat(Feed(r, s[0]).reader, s[1..], t);
    }
  }

  lemma {:induction false} FeedDone(r: Reader, s: bytes)
    requires r.phase == Done
    ensures FeedAll(r, s) == Fed(r, [])
    decreases |s|
  {
    if s != [] { FeedDone(r, s[1..]); }
  }

  /** A read of several data bytes at once is as good as reading them one by one. */
  lemma {:induction false} FeedData(r: Reader, data: bytes)
    requires r.phase == Data && 0 < |data| <= r.remaining
    ensures var r' := r.(remaining := r.remaining - |data|);
            FeedAll(r, data) == Fed(if r'.remaining == 0 then AfterData(r') else r', data)
    decreases |data|
  {
    hide Strtol16;
    if |data| == 1 {
      assert data == [data[0]];
      assert FeedAll(Feed(r, data[0]).reader, data[1..]).out == [];
    } else {
      FeedData(r.(remaining := r.remaining - 1), data[1..]);
      assert [data[0]] + data[1..] == data;
    }
  }

  /** The same for a negative count, which never reaches zero. */
  lemma {:induction false} FeedOverdue(r: Reader, data: bytes)
    requires r.phase == Data && r.remaining < 0
    ensures FeedAll(r, data) == Fed(r.(remaining := r.remaining - |data|), data)
    decreases |data|
  {
    hide Strtol16;
    if data != [] {
      FeedOverdue(r.(remaining := r.remaining - 1), data[1..]);
      assert [data[0]] + data[1..] == data;
    }
  }

  lemma FeedAnyData(r: Reader, data: bytes)
    requires r.phase == Data && r.remaining != 0 && data != [] && (r.remaining > 0 ==> |data| <= r.remaining)
    ensures var r' := r.(remaining := r.remaining - |data|);
            FeedAll(r, data) == Fed(if r'.remaining == 0 then AfterData(r') else r', data)
  {
    hide FeedAll;
    if r.remaining > 0 { FeedData(r, data); } else { FeedOverdue(r, data); }
  }

  // ---- size lines ----

  /** The conversion `(int)` of a long. */
  function ToInt(v: int): int { (v + 0x8000_0000) % 0x1_0000_0000 - 0x8000_0000 }

  /** A negative count whose conversion to int is positive. */
  predicate Wraps(v: int) { v < 0 && ToInt(v) > 0 }

  /** No size line that `s` completes parses to a number that wraps. */
  ghost predicate Honest(r: Reader, s: bytes)
    decreases |s|
  {
    s == [] ||
    (!(r.phase == Header && s[0] == LF && Wraps(Strtol16(r.header))) && Honest(Feed(r, s[0]).reader, s[1..]))
  }

  lemma {:induction false} HonestConcat(r: Reader, s: bytes, t: bytes)
    ensures Honest(r, s + t) <==> Honest(r, s) && Honest(FeedAll(r, s).reader, t)
    decreases |s|
  {
    if s == [] {
      assert s + t == t;
    } else {
      assert (s + t)[1..] == s[1..] + t;
      HonestConcat(Feed(r, s[0]).reader, s[1..], t);
    }
  }

  /** A reader that asks for no more data than is due. */
  ghost predicate Sound(r: Reader) {
    |r.header| <= HEADER_CAP && (r.phase == Data ==> r.remaining != 0 && !Wraps(r.remaining))
  }

  /** A byte of framing leaves a sound reader. */
  lemma FeedSound(r: Reader, b: byte)
    requires Sound(r) && r.phase != Data && Honest(r, [b])
    ensures Sound(Feed(r, b).reader)
  {}

  /** How many hexadecimal digits stand at the front. */
  function HexCount(s: bytes): (k: nat)
    ensures k <= |s| && (forall i :: 0 <= i < k ==> IsHex(s[i])) && (k < |s| ==> !IsHex(s[k]))
  {
    if s == [] || !IsHex(s[0]) then 0 else 1 + HexCount(s[1..])
  }

  /** A chunk-size line of RFC 9112 without its line feed: at least one hexadecimal digit in either
      case, leading zeros allowed, an optional extension, and the carriage return. */
  ghost predicate SizeLine(line: bytes, n: nat) {
    var k := HexCount(line);
    1 <= k < |line| && line[|line| - 1] == CR && LF !in line && HexRun(line, 0) == n &&
    (k + 1 == |line| || line[k] == 59 || line[k] == SPACE || line[k] == TAB)
  }

  /** Whether the reader, which keeps 31 characters of a line and converts them to a long, can tell
      the size: not more than 31 digits, or the size is zero anyway. */
  predicate Legible(line: bytes, n: nat) { n <= LONG_MAX && (HexCount(line) <= HEADER_CAP || n == 0) }

  function Take(s: bytes, n: nat): bytes { if |s| <= n then s else s[..n] }

  lemma {:induction false} HexRunStops(digits: bytes, t: bytes, acc: nat)
    requires forall i :: 0 <= i < |digits| ==> IsHex(digits[i])
    requires t == [] || !IsHex(t[0])
    ensures HexRun(digits + t, acc) == HexRun(digits, acc)
    decreases |digits|
  {
    if digits == [] {
      assert digits + t == t;
    } else {
      assert (digits + t)[1..] == digits[1..] + t;
      HexRunStops(digits[1..], t, acc * 16 + HexVal(digits[0]));
    }
  }

  lemma {:induction false} HexRunConcat(s: bytes, t: bytes, acc: nat)
    requires forall i :: 0 <= i < |s| ==> IsHex(s[i])
    ensures HexRun(s + t, acc) == HexRun(t, HexRun(s, acc))
    decreases |s|
  {
    if s == [] {
      assert s + t == t;
    } else {
      assert (s + t)[1..] == s[1..] + t;
      HexRunConcat(s[1..], t, acc * 16 + HexVal(s[0]));
    }
  }

  lemma {:induction false} HexRunGrows(s: bytes, acc: nat)
    ensures HexRun(s, acc) >= acc
    ensures s != [] && IsHex(s[0]) && acc > 0 ==> HexRun(s, acc) > acc
    decreases |s|
  {
    if s != [] && IsHex(s[0]) { HexRunGrows(s[1..], acc * 16 + HexVal(s[0])); }
  }

  /** Dropping digits keeps the value only if it is zero. */
  lemma PrefixValue(line: bytes, k: nat)
    requires k < HexCount(line)
    ensures HexRun(line[..k], 0) <= HexRun(line, 0)
    ensures HexRun(line[..k], 0) == HexRun(line, 0) <==> HexRun(line, 0) == 0
  {
    var s, t := line[..k], line[k..];
    assert line == s + t && IsHex(t[0]);
    HexRunConcat(s, t, 0);
    HexRunGrows(t, HexRun(s, 0));
  }

  lemma StrtolOfDigits(s: bytes)
    requires HexCount(s) >= 1 && (|s| > 1 ==> s[1] != 120 && s[1] != 88)
    ensures Strtol16(s) == Min(HexRun(s, 0), LONG_MAX)
  {
    assert IsHex(s[0]);
  }

  /** What the reader makes of a size line: its size, exactly if the line is legible. */
  lemma SizeLineValue(line: bytes, n: nat)
    requires SizeLine(line, n)
    ensures Strtol16(Take(line, HEADER_CAP)) == n <==> Legible(line, n)
    ensures 0 <= Strtol16(Take(line, HEADER_CAP)) <= n && LF !in line
  {
    hide Strtol16;
    var k, kept := HexCount(line), Take(line, HEADER_CAP);
    assert IsHex(kept[0]) && HexCount(kept) >= 1;
    assert |kept| > 1 ==> kept[1] == line[1] && (k > 1 ==> IsHex(line[1]));
    StrtolOfDigits(kept);
    if k > HEADER_CAP {
      PrefixValue(line, HEADER_CAP);
    } else if |line| > HEADER_CAP {
      var digits, t := line[..k], line[k..];
      assert line == digits + t && kept == digits + kept[k..];
      HexRunStops(digits, t, 0);
      HexRunStops(digits, kept[k..], 0);
    }
  }

  lemma {:induction false} FeedLine(r: Reader, line: bytes)
    requires r.phase == Header && |r.header| <= HEADER_CAP && LF !in line
    ensures FeedAll(r, line) == Fed(r.(header := Take(r.header + line, HEADER_CAP)), []) && Honest(r, line)
    decreases |line|
  {
    hide Strtol16, Wraps, Take;
    KeepsPrefix(r.header, line);
    if line != [] {
      assert line[0] in line;
      var r' := Feed(r, line[0]).reader;
      assert forall b :: b in line[1..] ==> b in line;
      FeedLine(r', line[1..]);
    }
  }

  /** Characters past the 31st are not kept. */
  lemma KeepsPrefix(header: bytes, line: bytes)
    requires |header| <= HEADER_CAP
    ensures line == [] ==> Take(header + line, HEADER_CAP) == header
    ensures line != [] && |header| < HEADER_CAP ==> header + [line[0]] + line[1..] == header + line
    ensures line != [] && |header| == HEADER_CAP ==> Take(header + line, HEADER_CAP) == Take(header + line[1..], HEADER_CAP)
  {
    if |header| == HEADER_CAP {
      assert (header + line)[..HEADER_CAP] == header;
      if line != [] { assert (header + line[1..])[..HEADER_CAP] == header; }
    } else if line != [] {
      assert header + [line[0]] + line[1..] == header + line;
    }
  }

  /** The reader that is due `n` bytes of data, or past the last chunk. */
  function Due(chunked: bool, n: int): Reader { Reader(chunked, if n == 0 then Final else Data, n, []) }

  /** A complete size line, read in any header state with an empty buffer: the reader is due the
      chunk's size exactly if the line is legible, and otherwise less. */
  lemma FeedSizeLine(r: Reader, line: bytes, n: nat)
    requires r.phase == Header && r.header == [] && SizeLine(line, n)
    ensures FeedAll(r, line + [LF]) == Fed(Due(r.chunked, n), []) <==> Legible(line, n)
    ensures FeedAll(r, line + [LF]) == Fed(Due(r.chunked, Strtol16(Take(line, HEADER_CAP))), [])
    ensures 0 <= Strtol16(Take(line, HEADER_CAP)) <= n
    ensures Honest(r, line + [LF])
  {
    hide SizeLine, Legible, Strtol16, Take;
    SizeLineValue(line, n);
    FeedLine(r, line);
    assert [] + line == line;
    FeedConcat(r, line, [LF]);
    HonestConcat(r, line, [LF]);
    var r' := FeedAll(r, line).reader;
    assert FeedAll(r', [LF]) == Fed(Feed(r', LF).reader, []);
    assert Honest(r', [LF]);
  }

  // ---- chunked bodies ----

  /** One chunk: its size line without the line feed, and its data. */
  datatype Chunk = Chunk(line: bytes, data: bytes)

  ghost predicate WellFormedChunk(c: Chunk) { 0 < |c.data| && SizeLine(c.line, |c.data|) }

  predicate LegibleChunk(c: Chunk) { Legible(c.line, |c.data|) }

  function ChunkText(c: Chunk): bytes { c.line + [LF] + c.data + [CR, LF] }

  function ChunksText(cs: seq<Chunk>): bytes {
    if cs == [] then [] else ChunkText(cs[0]) + ChunksText(cs[1..])
  }

  function ChunksData(cs: seq<Chunk>): bytes {
    if cs == [] then [] else cs[0].data + ChunksData(cs[1..])
  }

  /** A chunked body: chunks, the line of the last chunk, trailer fields, and the final CRLF. */
  datatype Body = Body(chunks: seq<Chunk>, lastLine: bytes, trailer: bytes)

  ghost predicate WellFormedBody(b: Body) {
    (forall i :: 0 <= i < |b.chunks| ==> WellFormedChunk(b.chunks[i])) && SizeLine(b.lastLine, 0)
  }

  predicate LegibleBody(b: Body) { forall i :: 0 <= i < |b.chunks| ==> LegibleChunk(b.chunks[i]) }

  function BodyText(b: Body): bytes { ChunksText(b.chunks) + (b.lastLine + [LF] + (b.trailer + [CR, LF])) }

  lemma FeedChunk(r: Reader, c: Chunk)
    requires r.chunked && r.phase == Header && r.header == [] && WellFormedChunk(c) && LegibleChunk(c)
    ensures FeedAll(r, ChunkText(c)) == Fed(Reader(true, Header, 0, []), c.data)
    ensures Honest(r, ChunkText(c))
  {
    hide FeedAll, Honest, SizeLine, Legible, Strtol16;
    var line := c.line + [LF];
    FeedSizeLine(r, c.line, |c.data|);
    var r1 := Due(true, |c.data|);
    FeedData(r1, c.data);
    DataHonest(r1, c.data);
    var r2 := Reader(true, Trailer, 0, []);
    CrLf(r2);
    FeedConcat(r, line, c.data);
    FeedConcat(r, line + c.data, [CR, LF]);
    HonestConcat(r, line, c.data);
    HonestConcat(r, line + c.data, [CR, LF]);
    assert [] + c.data + [] == c.data;
  }

  /** How many bytes at least the reader spends before it delivers the next one. */
  function Toll(r: Reader): nat {
    match r.phase
    case Trailer => 3
    case Header => if r.header == [] then 2 else 1
    case _ => 0
  }

  /** Outside chunk data the reader spends bytes: at least a line feed, a digit and a line feed lie
      between the end of one chunk's data and the next. */
  lemma {:induction false} FramingCosts(r: Reader, s: bytes)
    requires r.phase != Header ==> r.header == []
    ensures |FeedAll(r, s).out| <= Max(0, |s| - Toll(r))
    ensures r.phase == Final || r.phase == Done ==> FeedAll(r, s).out == []
    decreases |s|
  {
    if s != [] {
      TollPaid(r, s[0]);
      hide Feed, Toll;
      FramingCosts(Feed(r, s[0]).reader, s[1..]);
    }
  }

  lemma TollPaid(r: Reader, b: byte)
    requires r.phase != Header ==> r.header == []
    ensures var f := Feed(r, b);
            (f.reader.phase != Header ==> f.reader.header == []) &&
            (Toll(r) == 0 ==> |f.out| <= 1) && (Toll(r) > 0 ==> f.out == []) &&
            (Toll(f.reader) + 1 >= Toll(r) || f.reader.phase == Final) &&
            (r.phase == Final || r.phase == Done ==> f.out == [] && (f.reader.phase == Final || f.reader.phase == Done))
  {
    hide Strtol16;
    assert Strtol16([]) == 0 by { NoDigits(); }
  }

  lemma NoDigits()
    ensures Strtol16([]) == 0
  {}

  /** A chunk decodes to its data exactly if its size line is legible; otherwise bytes are lost. */
  lemma ChunkSurvives(r: Reader, c: Chunk)
    requires r.chunked && r.phase == Header && r.header == [] && WellFormedChunk(c)
    ensures FeedAll(r, ChunkText(c)).out == c.data <==> LegibleChunk(c)
  {
    hide FeedAll, Honest, SizeLine, Legible, Strtol16, Take;
    if LegibleChunk(c) {
      FeedChunk(r, c);
    } else {
      FeedSizeLine(r, c.line, |c.data|);
      var v := Strtol16(Take(c.line, HEADER_CAP));
      var first, rest := c.data[..v], c.data[v..] + [CR, LF];
      assert ChunkText(c) == (c.line + [LF]) + (first + rest);
      FeedConcat(r, c.line + [LF], first + rest);
      if v == 0 {
        FramingCosts(Due(true, 0), first + rest);
      } else {
        FeedData(Due(true, v), first);
        FeedConcat(Due(true, v), first, rest);
        FramingCosts(Reader(true, Trailer, 0, []), rest);
      }
    }
  }

  /** A chunk of which only zeros are kept ends the body: its data and all that follows is lost. */
  lemma CutOff(before: seq<Chunk>, c: Chunk, rest: bytes)
    requires forall i :: 0 <= i < |before| ==> WellFormedChunk(before[i]) && LegibleChunk(before[i])
    requires WellFormedChunk(c) && Strtol16(Take(c.line, HEADER_CAP)) == 0
    ensures FeedAll(CHUNKED, ChunksText(before) + (ChunkText(c) + rest)).out == ChunksData(before)
    ensures FeedAll(CHUNKED, ChunksText(before) + (ChunkText(c) + rest)).reader.phase == Done
  {
    hide FeedAll, Honest, SizeLine, Legible, LegibleChunk, Strtol16, Take, ChunksText;
    FeedChunks(CHUNKED, before);
    var r := FeedAll(CHUNKED, ChunksText(before)).reader;
    FeedSizeLine(r, c.line, |c.data|);
    var tail := c.data + [CR, LF] + rest;
    assert ChunkText(c) + rest == (c.line + [LF]) + tail;
    assert tail[|c.data| + 1] == LF;
    FinalLine(Due(true, 0), tail);
    FeedConcat(r, c.line + [LF], tail);
    FeedConcat(CHUNKED, ChunksText(before), (c.line + [LF]) + tail);
    assert ChunksData(before) + ([] + []) == ChunksData(before);
  }

  function Zeros(k: nat): (s: bytes)
    ensures |s| == k && forall i :: 0 <= i < k ==> s[i] == ZERO
  {
    seq(k, i => ZERO)
  }

  lemma {:induction false} LeadingZeros(k: nat, t: bytes)
    ensures HexRun(Zeros(k) + t, 0) == HexRun(t, 0)
    ensures HexCount(Zeros(k) + t) == k + HexCount(t)
  {
    if k == 0 {
      assert Zeros(0) + t == t;
    } else {
      assert (Zeros(k) + t)[1..] == Zeros(k - 1) + t;
      LeadingZeros(k - 1, t);
    }
  }

  /** An instance: five bytes announced with 31 leading zeros are lost, with all that follows. */
  lemma FiveBytesLost(data: bytes, rest: bytes)
    requires |data| == 5
    ensures WellFormedChunk(Chunk(Zeros(31) + [53, CR], data))
    ensures FeedAll(CHUNKED, ChunkText(Chunk(Zeros(31) + [53, CR], data)) + rest).out == []
    ensures FeedAll(CHUNKED, ChunkText(Chunk(Zeros(31) + [53, CR], data)) + rest).reader.phase == Done
  {
    hide FeedAll, Strtol16;
    var line := Zeros(31) + [53, CR];
    var c := Chunk(line, data);
    LeadingZeros(31, [53, CR]);
    assert [53, CR][1..] == [CR];
    assert Take(line, HEADER_CAP) == Zeros(31) + [];
    LeadingZeros(31, []);
    StrtolOfDigits(Zeros(31) + []);
    CutOff([], c, rest);
    assert ChunksText([]) + (ChunkText(c) + rest) == ChunkText(c) + rest;
  }

  lemma {:induction false} DataHonest(r: Reader, data: bytes)
    requires r.phase == Data && |data| <= r.remaining
    ensures Honest(r, data)
    decreases |data|
  {
    if |data| == 1 {
      assert Honest(Feed(r, data[0]).reader, data[1..]);
    } else if |data| > 1 {
      DataHonest(Feed(r, data[0]).reader, data[1..]);
    }
  }

  lemma CrLf(r: Reader)
    requires r.phase == Trailer || r.phase == Final
    ensures FeedAll(r, [CR, LF]) == Fed(r.(phase := if r.phase == Trailer then Header else Done), [])
    ensures Honest(r, [CR, LF])
  {
    assert [CR, LF][1..] == [LF] && [LF][1..] == [];
    assert FeedAll(r, [LF]) == Fed(Feed(r, LF).reader, []);
    assert Honest(r, [LF]);
  }

  lemma {:induction false} FeedChunks(r: Reader, cs: seq<Chunk>)
    requires r.chunked && r.phase == Header && r.header == []
    requires forall i :: 0 <= i < |cs| ==> WellFormedChunk(cs[i]) && LegibleChunk(cs[i])
    ensures var f := FeedAll(r, ChunksText(cs));
            f.out == ChunksData(cs) && f.reader.chunked && f.reader.phase == Header && f.reader.header == []
    ensures Honest(r, ChunksText(cs))
    decreases |cs|
  {
    hide FeedAll, Honest, WellFormedChunk, LegibleChunk, ChunkText;
    if cs == [] {
      NothingFed(r);
    } else {
      FeedChunk(r, cs[0]);
      var r' := Reader(true, Header, 0, []);
      FeedChunks(r', cs[1..]);
      FeedConcat(r, ChunkText(cs[0]), ChunksText(cs[1..]));
      HonestConcat(r, ChunkText(cs[0]), ChunksText(cs[1..]));
    }
  }

  lemma NothingFed(r: Reader)
    ensures FeedAll(r, []) == Fed(r, []) && Honest(r, [])
  {}

  /** The reader decodes every well-formed chunked body with legible size lines to its data and is
      then done; trailer fields are never data. */
  lemma FeedBody(b: Body)
    requires WellFormedBody(b) && LegibleBody(b)
    ensures FeedAll(CHUNKED, BodyText(b)).out == ChunksData(b.chunks)
    ensures FeedAll(CHUNKED, BodyText(b)).reader.phase == Done
    ensures Honest(CHUNKED, BodyText(b))
  {
    hide FeedAll, Honest, SizeLine, ChunksText, LegibleChunk, Strtol16, Take;
    var chunks, last, tail := ChunksText(b.chunks), b.lastLine + [LF], b.trailer + [CR, LF];
    FeedChunks(CHUNKED, b.chunks);
    var r1 := FeedAll(CHUNKED, chunks).reader;
    FeedSizeLine(r1, b.lastLine, 0);
    var r2 := FeedAll(r1, last).reader;
    FinalLine(r2, tail);
    FeedConcat(r1, last, tail);
    HonestConcat(r1, last, tail);
    FeedConcat(CHUNKED, chunks, last + tail);
    HonestConcat(CHUNKED, chunks, last + tail);
    assert ChunksData(b.chunks) + ([] + []) == ChunksData(b.chunks);
  }

  /** Everything from the last size line on is skipped up to the first line feed. */
  lemma {:induction false} FinalLine(r: Reader, s: bytes)
    requires r.phase == Final && LF in s
    ensures FeedAll(r, s).out == [] && FeedAll(r, s).reader.phase == Done && Honest(r, s)
    decreases |s|
  {
    if s[0] == LF {
      FeedDone(Feed(r, LF).reader, s[1..]);
      DoneHonest(Feed(r, LF).reader, s[1..]);
    } else {
      FinalLine(r, s[1..]);
    }
  }

  lemma {:induction false} DoneHonest(r: Reader, s: bytes)
    requires r.phase == Done
    ensures Honest(r, s)
    decreases |s|
  {
    if s != [] { DoneHonest(r, s[1..]); }
  }

  /** A body with Content-Length n is its first n bytes. */
  lemma FeedLength(n: nat, s: bytes)
    requires 0 < n <= |s|
    ensures FeedAll(Start(n, false), s).out == s[..n]
    ensures FeedAll(Start(n, false), s).reader.phase == Done
    ensures Honest(Start(n, false), s)
  {
    hide FeedAll, Honest;
    var r := Start(n, false);
    assert s == s[..n] + s[n..];
    FeedData(r, s[..n]);
    DataHonest(r, s[..n]);
    var r' := FeedAll(r, s[..n]).reader;
    FeedDone(r', s[n..]);
    DoneHonest(r', s[n..]);
    FeedConcat(r, s[..n], s[n..]);
    HonestConcat(r, s[..n], s[n..]);
    assert s[..n] + [] == s[..n];
  }

  // ---- the chunks this program itself writes ----

  /** A chunk as exec_run_pipe and send_chunk frame it: `%zx`, CRLF, the data, CRLF. */
  function Frame(data: bytes): bytes { HexText(|data|) + [CR, LF] + data + [CR, LF] }

  const LAST_CHUNK: bytes := [ZERO, CR, LF, CR, LF]

  function Frames(ds: seq<bytes>): bytes {
    if ds == [] then [] else Frames(ds[..|ds| - 1]) + Frame(ds[|ds| - 1])
  }

  function Joined(ds: seq<bytes>): bytes {
    if ds == [] then [] else Joined(ds[..|ds| - 1]) + ds[|ds| - 1]
  }

  lemma FramesSnoc(ds: seq<bytes>, d: bytes)
    ensures Frames(ds + [d]) == Frames(ds) + Frame(d)
  {
    assert (ds + [d])[..|ds|] == ds;
  }

  lemma OwnSizeLine(n: nat)
    requires n <= LONG_MAX
    ensures SizeLine(HexText(n) + [CR], n) && Legible(HexText(n) + [CR], n)
  {
    HexRunOfText(n, [CR]);
    HexTextCount(n);
    assert LONG_MAX < Pow16(16) by {
      assert Pow16(4) == 0x1_0000;
      assert Pow16(8) == 0x1_0000_0000;
      assert Pow16(12) == 0x1_0000_0000_0000;
    }
    HexTextLength(n, 16);
  }

  lemma HexTextCount(n: nat)
    ensures HexCount(HexText(n) + [CR]) == |HexText(n)|
  {
    var s := HexText(n) + [CR];
    assert s[|HexText(n)|] == CR;
    assert forall i :: 0 <= i < |HexText(n)| ==> s[i] == HexText(n)[i];
  }

  lemma FeedFrame(r: Reader, data: bytes)
    requires r.chunked && r.phase == Header && r.header == [] && 0 < |data| <= LONG_MAX
    ensures FeedAll(r, Frame(data)) == Fed(Reader(true, Header, 0, []), data)
  {
    hide FeedAll, Honest, SizeLine, Legible;
    var c := Chunk(HexText(|data|) + [CR], data);
    OwnSizeLine(|data|);
    FeedChunk(r, c);
    assert HexText(|data|) + [CR] + [LF] == HexText(|data|) + [CR, LF];
    assert ChunkText(c) == Frame(data);
  }

  lemma {:induction false} FeedFrames(ds: seq<bytes>)
    requires forall i :: 0 <= i < |ds| ==> 0 < |ds[i]| <= LONG_MAX
    ensures var f := FeedAll(CHUNKED, Frames(ds));
            f.out == Joined(ds) && f.reader.chunked && f.reader.phase == Header && f.reader.header == []
    decreases |ds|
  {
    hide FeedAll, Frame;
    if ds == [] {
      NothingFed(CHUNKED);
    } else {
      var front, d := ds[..|ds| - 1], ds[|ds| - 1];
      FeedFrames(front);
      FeedFrame(FeedAll(CHUNKED, Frames(front)).reader, d);
      FeedConcat(CHUNKED, Frames(front), Frame(d));
    }
  }

  /** The program's own reader takes the program's own chunked output back apart. */
  lemma FeedFramesAndLast(ds: seq<bytes>)
    requires forall i :: 0 <= i < |ds| ==> 0 < |ds[i]| <= LONG_MAX
    ensures FeedAll(CHUNKED, Frames(ds) + LAST_CHUNK).out == Joined(ds)
    ensures FeedAll(CHUNKED, Frames(ds) + LAST_CHUNK).reader.phase == Done
  {
    hide FeedAll, Frames, SizeLine, Legible, Strtol16, Take;
    FeedFrames(ds);
    var r := FeedAll(CHUNKED, Frames(ds)).reader;
    OwnSizeLine(0);
    assert HexText(0) + [CR] + [LF] == [ZERO, CR, LF];
    FeedSizeLine(r, HexText(0) + [CR], 0);
    var r' := FeedAll(r, [ZERO, CR, LF]).reader;
    CrLf(r');
    assert LAST_CHUNK == [ZERO, CR, LF] + [CR, LF];
    FeedConcat(r, [ZERO, CR, LF], [CR, LF]);
    FeedConcat(CHUNKED, Frames(ds), LAST_CHUNK);
    assert Joined(ds) + ([] + []) == Joined(ds);
  }
}
