/** The query of the pipe endpoint: how adb-termux.sh builds it and how handle_exec_pipe takes it
    apart again. */
module PipeQuery {
  import opened Bytes
  import Utf8

  const AMP: byte := 38
  const PERCENT: byte := 37
  const EQ: byte := 61
  const CMD_CAP: nat := 4095
  const MAX_ENV: nat := 256
  const ENV_SIZE: nat := 256

  const COMMAND: bytes := [99, 111, 109, 109, 97, 110, 100, 61]
  const ENV: bytes := [101, 110, 118, 95]
  const RAW: bytes := [114, 97, 119, 61, 49]

  // ---- the shell side ----

  predicate Unreserved(b: byte) {
    IsDigit(b) || 65 <= b <= 90 || 97 <= b <= 122 || b == DOT || b == 95 || b == 126 || b == MINUS
  }

  function HexUpper(v: nat): (b: byte)
    requires v < 16
    ensures IsHex(b) && HexVal(b) == v
  {
    if v < 10 then 48 + v else 55 + v
  }

  /** A character of a bash string in a UTF-8 locale: a code point, and never NUL. */
  type rune = c: int | 0 < c <= 0x10FFFF && !(0xD800 <= c < 0xE000) witness 1

  type text = seq<rune>

  predicate Ascii(s: text) { forall i :: 0 <= i < |s| ==> s[i] < 128 }

  /** The bytes of the string, as a command should arrive. */
  function Utf8Text(s: text): bytes {
    if s == [] then [] else Utf8.Encode(s[0]) + Utf8Text(s[1..])
  }

  /** `%X`. */
  function HexUpperText(n: nat): (s: bytes)
    ensures |s| >= 1 && (n >= 16 ==> |s| >= 2) && forall i :: 0 <= i < |s| ==> IsHex(s[i])
  {
    if n < 16 then [HexUpper(n)] else HexUpperText(n / 16) + [HexUpper(n % 16)]
  }

  function EncodeByte(b: byte): (s: bytes)
    ensures |s| == 1 || |s| == 3
  {
    if Unreserved(b) then [b]
    else if b == SPACE then [PLUS]
    else [PERCENT, HexUpper(b / 16), HexUpper(b % 16)]
  }

  /** One turn of urlencode's loop. `%02X` of `'c` prints the code point, not the bytes. */
  function EncodeChar(c: rune): (s: bytes)
    ensures s != []
  {
    if c < 128 then EncodeByte(c) else [PERCENT] + HexUpperText(c)
  }

  function Encode(s: text): bytes {
    if s == [] then [] else EncodeChar(s[0]) + Encode(s[1..])
  }

  /** Bash's `echo` takes a single argument made of a dash and the letters n, e and E for options
      and prints nothing of it. */
  predicate EchoOption(s: seq<int>) {
    |s| >= 2 && s[0] == MINUS && forall i :: 1 <= i < |s| ==> s[i] == 110 || s[i] == 101 || s[i] == 69
  }

  /** `$(urlencode "$s")`: the encoding is handed over through echo. */
  function Captured(s: text): bytes { if EchoOption(Encode(s)) then [] else Encode(s) }

  /** urlencode: the loop over the characters, then echo. */
  method UrlEncode(s: text) returns (out: bytes)
    ensures out == Captured(s)
  {
    out := [];
    var i := 0;
    assert s[..0] == [];
    while i < |s|
      invariant 0 <= i <= |s|
      invariant out == Encode(s[..i])
    {
      EncodeSnoc(s[..i], s[i]);
      assert s[..i + 1] == s[..i] + [s[i]];
      if s[i] >= 128 {
        out := out + ([PERCENT] + HexUpperText(s[i]));
      } else if Unreserved(s[i]) {
        out := out + [s[i]];
      } else if s[i] == SPACE {
        out := out + [PLUS];
      } else {
        var c: byte := s[i];
        out := out + [PERCENT, HexUpper(c / 16), HexUpper(c % 16)];
      }
      i := i + 1;
    }
    assert s[..|s|] == s;
    if EchoOption(out) { out := []; }
  }

  lemma {:induction false} EncodeSnoc(s: text, c: rune)
    ensures Encode(s + [c]) == Encode(s) + EncodeChar(c)
  {
    if s == [] {
      assert Encode([c]) == EncodeChar(c) + Encode([]);
    } else {
      assert (s + [c])[1..] == s[1..] + [c];
      EncodeSnoc(s[1..], c);
    }
  }

  /** Position of the first `b`, or the length. */
  function Find(s: seq<int>, b: int): (k: nat)
    ensures k <= |s| && (forall i :: 0 <= i < k ==> s[i] != b) && (k < |s| ==> s[k] == b)
  {
    if s == [] || s[0] == b then 0 else 1 + Find(s[1..], b)
  }

  /** `${kv%%=*}` and `${kv#*=}`: without an equals sign both are the whole word. */
  function KeyOf(kv: text): text { kv[..Find(kv, EQ)] }

  function ValueOf(kv: text): text { if Find(kv, EQ) < |kv| then kv[Find(kv, EQ) + 1..] else kv }

  function EnvSegment(kv: text): bytes { ENV + Captured(KeyOf(kv)) + [EQ] + Captured(ValueOf(kv)) }

  function EnvQuery(kvs: seq<text>): bytes {
    if kvs == [] then [] else EnvQuery(kvs[..|kvs| - 1]) + [AMP] + EnvSegment(kvs[|kvs| - 1])
  }

  /** The query of build_pipe_query, with raw=1 appended when asked for. */
  function Query(cmd: text, kvs: seq<text>, raw: bool): bytes {
    COMMAND + Captured(cmd) + EnvQuery(kvs) + (if raw then [AMP] + RAW else [])
  }

  /** build_pipe_query, and the caller's raw flag. */
  method BuildPipeQuery(cmd: text, kvs: seq<text>, raw: bool) returns (query: bytes)
    ensures query == Query(cmd, kvs, raw)
  {
    hide Captured, EnvQuery, EnvSegment, KeyOf, ValueOf;
    var c := UrlEncode(cmd);
    query := COMMAND + c;
    var i := 0;
    EnvQueryNone();
    assert kvs[..0] == [] && query + [] == query;
    while i < |kvs|
      invariant 0 <= i <= |kvs|
      invariant query == COMMAND + Captured(cmd) + EnvQuery(kvs[..i])
    {
      var segment := BuildEnvSegment(kvs[i]);
      EnvQuerySnoc(kvs[..i], kvs[i]);
      assert kvs[..i + 1] == kvs[..i] + [kvs[i]];
      query := query + ([AMP] + segment);
      i := i + 1;
    }
    assert kvs[..|kvs|] == kvs;
    if raw { query := query + ([AMP] + RAW); } else { assert query + [] == query; }
  }

  method BuildEnvSegment(kv: text) returns (segment: bytes)
    ensures segment == EnvSegment(kv)
  {
    var key := UrlEncode(KeyOf(kv));
    var value := UrlEncode(ValueOf(kv));
    segment := ENV + key + [EQ] + value;
  }

  lemma EnvQueryNone()
    ensures EnvQuery([]) == []
  {}

  lemma EnvQuerySnoc(kvs: seq<text>, kv: text)
    ensures EnvQuery(kvs + [kv]) == EnvQuery(kvs) + ([AMP] + EnvSegment(kv))
  {
    assert (kvs + [kv])[..|kvs|] == kvs;
  }

  // ---- the server side ----

  /** What the segment loop has found: the encoded command, the raw flag, the environment. */
  datatype Found = Found(cmd: bytes, raw: bool, env: seq<(bytes, bytes)>)

  predicate StartsWith(s: bytes, prefix: bytes) { |s| >= |prefix| && s[..|prefix|] == prefix }

  /** An environment pair is stored if there is room and both halves fit their slots. */
  function StoreEnv(env: seq<(bytes, bytes)>, key: bytes, value: bytes): seq<(bytes, bytes)> {
    if |env| < MAX_ENV && |key| < ENV_SIZE && |value| < ENV_SIZE then env + [(key, value)] else env
  }

  /** One segment between ampersands. */
  function Segment(f: Found, seg: bytes): Found {
    if StartsWith(seg, COMMAND) && |seg| > 8 then f.(cmd := seg[8..])
    else if seg == RAW then f.(raw := true)
    else if StartsWith(seg, ENV) && |f.env| < MAX_ENV then
      var k := Find(seg[4..], EQ);
      if k < |seg| - 4 then f.(env := StoreEnv(f.env, seg[4..4 + k], seg[4 + k + 1..])) else f
    else f
  }

  /** The segment loop. */
  function Segments(f: Found, q: bytes): Found
    decreases |q|
  {
    if q == [] then f
    else
      var k := Find(q, AMP);
      var f' := Segment(f, q[..k]);
      if k < |q| then Segments(f', q[k + 1..]) else f'
  }

  /** One character: a percent sign with two characters behind it is a byte whatever they are. */
  function DecodeFirst(s: bytes): (r: (byte, nat))
    requires s != []
    ensures 1 <= r.1 <= |s|
  {
    if s[0] == PERCENT && |s| > 2 then (Strtol16([s[1], s[2]]) % 256, 3)
    else if s[0] == PLUS then (SPACE, 1)
    else (s[0], 1)
  }

  /** The decoding loop, which stops when `cap` bytes are written. */
  function Decode(s: bytes, cap: nat): bytes
    decreases cap
  {
    if s == [] || cap == 0 then []
    else [DecodeFirst(s).0] + Decode(s[DecodeFirst(s).1..], cap - 1)
  }

  /** What handle_exec_pipe runs, or the error for a missing command. */
  datatype Request = Missing | Request(command: bytes, raw: bool, env: seq<(bytes, bytes)>)

  function Handled(query: bytes): Request {
    var f := Segments(Found([], false, []), query);
    if f.cmd == [] then Missing else Request(Decode(f.cmd, CMD_CAP), f.raw, f.env)
  }

  /** handle_exec_pipe up to the call of exec_run_pipe. */
  method HandleExecPipe(query: bytes) returns (r: Request)
    ensures r == Handled(query)
  {
    hide Segments, Decode, Segment;
    var found := Found([], false, []);
    var q := query;
    while q != []
      invariant Segments(found, q) == Segments(Found([], false, []), query)
      decreases |q|
    {
      SegmentsStep(found, q);
      var segLen := Find(q, AMP);
      found := Segment(found, q[..segLen]);
      q := if segLen < |q| then q[segLen + 1..] else [];
    }
    SegmentsNone(found);
    if |found.cmd| == 0 { return Missing; }
    var command := UrlDecode(found.cmd);
    return Request(command, found.raw, found.env);
  }

  lemma SegmentsStep(f: Found, q: bytes)
    requires q != []
    ensures Segments(f, q) == Segments(Segment(f, q[..Find(q, AMP)]), if Find(q, AMP) < |q| then q[Find(q, AMP) + 1..] else [])
  {}

  lemma SegmentsNone(f: Found)
    ensures Segments(f, []) == f
  {}

  /** The decoding loop into the 4096-byte command buffer. */
  method UrlDecode(cmd: bytes) returns (decoded: bytes)
    ensures decoded == Decode(cmd, CMD_CAP)
  {
    hide Decode, DecodeFirst;
    var buf := new byte[4096];
    var i, ci := 0, 0;
    ghost var whole := Decode(cmd, CMD_CAP);
    assert cmd[0..] == cmd && buf[..0] == [] && [] + whole == whole;
    while i < |cmd| && ci < CMD_CAP
      invariant 0 <= i <= |cmd| && 0 <= ci <= CMD_CAP
      invariant buf[..ci] + Decode(cmd[i..], CMD_CAP - ci) == whole
      decreases |cmd| - i
    {
      DecodeStep(cmd, i, CMD_CAP - ci);
      ghost var before := buf[..ci];
      var step := 1;
      if cmd[i] == PERCENT && i + 2 < |cmd| {
        buf[ci] := Strtol16([cmd[i + 1], cmd[i + 2]]) % 256;
        step := 3;
      } else if cmd[i] == PLUS {
        buf[ci] := SPACE;
      } else {
        buf[ci] := cmd[i];
      }
      assert buf[..ci + 1] == before + [buf[ci]];
      assert before + ([buf[ci]] + Decode(cmd[i + step..], CMD_CAP - ci - 1)) ==
             buf[..ci + 1] + Decode(cmd[i + step..], CMD_CAP - ci - 1);
      i, ci := i + step, ci + 1;
    }
    DecodeEnd(cmd[i..], CMD_CAP - ci);
    assert buf[..ci] + [] == buf[..ci];
    return buf[..ci];
  }

  lemma DecodeStep(cmd: bytes, i: nat, cap: nat)
    requires i < |cmd| && cap > 0
    ensures var step := if cmd[i] == PERCENT && i + 2 < |cmd| then 3 else 1;
            var b := if step == 3 then Strtol16([cmd[i + 1], cmd[i + 2]]) % 256 else if cmd[i] == PLUS then SPACE else cmd[i];
            Decode(cmd[i..], cap) == [b] + Decode(cmd[i + step..], cap - 1)
  {
    hide Strtol16;
    var step := DecodeFirst(cmd[i..]).1;
    assert cmd[i..][step..] == cmd[i + step..];
  }

  lemma DecodeEnd(s: bytes, cap: nat)
    requires s == [] || cap == 0
    ensures Decode(s, cap) == []
  {}

  // ---- encode, then decode ----

  lemma HexPair(b: byte)
    ensures Strtol16([HexUpper(b / 16), HexUpper(b % 16)]) == b
  {
    var s := [HexUpper(b / 16), HexUpper(b % 16)];
    assert s[1..] == [HexUpper(b % 16)] && s[1..][1..] == [];
    assert HexRun(s, 0) == HexRun(s[1..], b / 16) == HexRun([], b / 16 * 16 + b % 16);
    assert SkipBlanks(s) == s;
  }

  lemma DecodeOne(b: byte, more: bytes)
    ensures DecodeFirst(EncodeByte(b) + more) == (b, |EncodeByte(b)|)
  {
    HexPair(b);
  }

  /** The decoder gives back ASCII text, up to its 4095 bytes. */
  lemma {:induction false} DecodeEncode(s: text, cap: nat)
    requires Ascii(s)
    ensures Decode(Encode(s), cap) == s[..Min(|s|, cap)]
    decreases |s|
  {
    hide EncodeByte;
    if s != [] && cap > 0 {
      var e, more := EncodeChar(s[0]), Encode(s[1..]);
      DecodeOne(s[0], more);
      assert (e + more)[|e|..] == more;
      DecodeEncode(s[1..], cap - 1);
      assert s[..Min(|s|, cap)] == [s[0]] + s[1..][..Min(|s| - 1, cap - 1)];
    }
  }

  lemma {:induction false} Utf8OfAscii(s: text)
    requires Ascii(s)
    ensures Utf8Text(s) == s
  {
    if s != [] { Utf8OfAscii(s[1..]); }
  }

  // ---- characters that are not ASCII ----

  /** How many bytes of `s` are above 127. */
  function High(s: bytes): nat {
    if s == [] then 0 else (if s[0] >= 128 then 1 else 0) + High(s[1..])
  }

  lemma {:induction false} HighConcat(s: bytes, t: bytes)
    ensures High(s + t) == High(s) + High(t)
  {
    if s == [] {
      assert s + t == t;
    } else {
      assert (s + t)[1..] == s[1..] + t;
      HighConcat(s[1..], t);
    }
  }

  function Wide(s: text): nat {
    if s == [] then 0 else (if s[0] >= 128 then 1 else 0) + Wide(s[1..])
  }

  lemma {:induction false} WideIsNotAscii(s: text)
    ensures Ascii(s) <==> Wide(s) == 0
  {
    if s != [] { WideIsNotAscii(s[1..]); }
  }

  lemma HighOfEncoding(c: rune)
    ensures c >= 128 ==> High(Utf8.Encode(c)) >= 2
  {
    var e := Utf8.Encode(c);
    if c >= 128 {
      assert e[0] >= 128 && e[1] >= 128;
      assert High(e) == 1 + High(e[1..]) && High(e[1..]) == 1 + High(e[1..][1..]);
    }
  }

  /** UTF-8 has at least two high bytes for each character that is not ASCII. */
  lemma {:induction false} Utf8IsHigh(s: text)
    ensures High(Utf8Text(s)) >= 2 * Wide(s)
  {
    hide Utf8.Encode;
    if s != [] {
      HighOfEncoding(s[0]);
      HighConcat(Utf8.Encode(s[0]), Utf8Text(s[1..]));
      Utf8IsHigh(s[1..]);
    }
  }

  /** Hexadecimal digits behind the first two are decoded as they stand, and are low. */
  lemma {:induction false} DecodeDigits(ds: bytes, more: bytes, cap: nat) returns (left: nat)
    requires forall i :: 0 <= i < |ds| ==> IsHex(ds[i])
    ensures High(Decode(ds + more, cap)) == High(Decode(more, left))
    decreases |ds|
  {
    if ds == [] {
      left := cap;
      assert ds + more == more;
    } else if cap == 0 {
      left := 0;
    } else {
      assert (ds + more)[1..] == ds[1..] + more;
      left := DecodeDigits(ds[1..], more, cap - 1);
      var rest := Decode(ds[1..] + more, cap - 1);
      assert Decode(ds + more, cap) == [ds[0]] + rest;
      HighConcat([ds[0]], rest);
      assert High([ds[0]]) == 0;
    }
  }

  /** The decoded text has at most one high byte for each of them. */
  lemma {:induction false} DecodedIsLow(s: text, cap: nat)
    ensures High(Decode(Encode(s), cap)) <= Wide(s)
    decreases |s|
  {
    hide EncodeByte, EncodeChar, Decode, DecodeFirst, High;
    if s == [] || cap == 0 {
      assert High(Decode(Encode(s), cap)) == 0 by { NoneHigh(Encode(s), cap); }
    } else {
      var more := Encode(s[1..]);
      if s[0] < 128 {
        NarrowDecoded(s[0], more, cap);
        DecodedIsLow(s[1..], cap - 1);
      } else {
        var left := WideDecoded(s[0], more, cap);
        DecodedIsLow(s[1..], left);
      }
    }
  }

  lemma NarrowDecoded(c: rune, more: bytes, cap: nat)
    requires c < 128 && cap > 0
    ensures High(Decode(EncodeChar(c) + more, cap)) == High(Decode(more, cap - 1))
  {
    hide EncodeByte;
    DecodeOne(c, more);
    FirstDecoded(EncodeByte(c), more, c, cap);
  }

  lemma ThreeTaken(s: bytes, more: bytes)
    requires |s| == 3 && s[0] == PERCENT
    ensures DecodeFirst(s + more).1 == 3
  {
    hide Strtol16;
  }

  lemma WideDecoded(c: rune, more: bytes, cap: nat) returns (left: nat)
    requires c >= 128 && cap > 0
    ensures High(Decode(EncodeChar(c) + more, cap)) <= 1 + High(Decode(more, left))
  {
    hide High, Decode;
    left := EscapeTaken(HexUpperText(c), more, cap);
  }

  /** A percent sign and two digits are one byte, whatever digits follow. */
  lemma EscapeTaken(ds: bytes, more: bytes, cap: nat) returns (left: nat)
    requires |ds| >= 2 && cap > 0 && forall i :: 0 <= i < |ds| ==> IsHex(ds[i])
    ensures High(Decode([PERCENT] + ds + more, cap)) <= 1 + High(Decode(more, left))
  {
    hide *;
    var two, rest := [PERCENT, ds[0], ds[1]], ds[2..];
    Regroup(ds, more);
    ThreeTaken(two, rest + more);
    FirstDecoded(two, rest + more, DecodeFirst(two + (rest + more)).0, cap);
    forall i | 0 <= i < |rest| ensures IsHex(rest[i]) { assert rest[i] == ds[i + 2]; }
    left := DecodeDigits(rest, more, cap - 1);
  }

  lemma Regroup(ds: bytes, more: bytes)
    requires |ds| >= 2
    ensures [PERCENT] + ds + more == [PERCENT, ds[0], ds[1]] + (ds[2..] + more)
  {}

  lemma NoneHigh(s: bytes, cap: nat)
    requires s == [] || cap == 0
    ensures High(Decode(s, cap)) == 0
  {}

  lemma FirstDecoded(e: bytes, more: bytes, b: byte, cap: nat)
    requires e != [] && cap > 0 && DecodeFirst(e + more) == (b, |e|)
    ensures Decode(e + more, cap) == [b] + Decode(more, cap - 1)
    ensures High(Decode(e + more, cap)) == (if b >= 128 then 1 else 0) + High(Decode(more, cap - 1))
  {
    hide DecodeFirst;
    assert (e + more)[|e|..] == more;
    var rest := Decode(more, cap - 1);
    assert ([b] + rest)[1..] == rest;
  }

  /** So a command with such a character never arrives as it was. */
  lemma WideIsLost(s: text, cap: nat)
    requires !Ascii(s)
    ensures Decode(Encode(s), cap) != Utf8Text(s)
  {
    WideIsNotAscii(s);
    Utf8IsHigh(s);
    DecodedIsLow(s, cap);
  }

  /** Encoded text has no separator in it. */
  lemma {:induction false} EncodeSafe(s: text)
    ensures AMP !in Encode(s) && EQ !in Encode(s)
  {
    if s != [] {
      EncodeSafe(s[1..]);
      CharSafe(s[0]);
    }
  }

  lemma CharSafe(c: rune)
    ensures AMP !in EncodeChar(c) && EQ !in EncodeChar(c)
  {
    if c >= 128 {
      var ds := HexUpperText(c);
      assert forall i :: 0 <= i < |ds| ==> IsHex(ds[i]);
    }
  }

  lemma FindBehind(s: bytes, b: byte, t: bytes)
    requires b !in s
    ensures Find(s + [b] + t, b) == |s|
  {
    var u := s + [b] + t;
    assert u[|s|] == b;
    assert forall i :: 0 <= i < |s| ==> u[i] == s[i];
    var k := Find(u, b);
    assert k <= |s|;
  }

  lemma FindNone(s: bytes, b: byte)
    requires b !in s
    ensures Find(s, b) == |s|
  {}

  lemma {:induction false} SegmentsFirst(f: Found, seg: bytes, rest: bytes)
    requires AMP !in seg
    ensures Segments(f, seg + [AMP] + rest) == Segments(Segment(f, seg), rest)
  {
    FindBehind(seg, AMP, rest);
    var q := seg + [AMP] + rest;
    assert q[..|seg|] == seg && q[|seg| + 1..] == rest;
  }

  lemma SegmentsLast(f: Found, seg: bytes)
    requires AMP !in seg && seg != []
    ensures Segments(f, seg) == Segment(f, seg)
  {
    FindNone(seg, AMP);
    assert seg[..|seg|] == seg;
  }

  /** The environment the server ends up with. */
  function EnvOf(kvs: seq<text>): seq<(bytes, bytes)> {
    if kvs == [] then []
    else StoreEnv(EnvOf(kvs[..|kvs| - 1]), Captured(KeyOf(kvs[|kvs| - 1])), Captured(ValueOf(kvs[|kvs| - 1])))
  }

  lemma CapturedSafe(s: text)
    ensures AMP !in Captured(s) && EQ !in Captured(s)
  {
    EncodeSafe(s);
  }

  lemma EnvSegmentSafe(kv: text)
    ensures AMP !in EnvSegment(kv)
  {
    hide Captured;
    CapturedSafe(KeyOf(kv));
    CapturedSafe(ValueOf(kv));
  }

  /** An env_ segment stores its pair and touches nothing else. */
  lemma EnvSegmentStores(f: Found, kv: text)
    ensures Segment(f, EnvSegment(kv)) == f.(env := StoreEnv(f.env, Captured(KeyOf(kv)), Captured(ValueOf(kv))))
  {
    hide Captured;
    var seg, key, value := EnvSegment(kv), Captured(KeyOf(kv)), Captured(ValueOf(kv));
    assert seg[0] == 101;
    assert seg[..4] == ENV;
    assert !StartsWith(seg, COMMAND) by { assert seg[..1][0] == 101; }
    assert seg[4..] == key + [EQ] + value;
    CapturedSafe(KeyOf(kv));
    FindBehind(key, EQ, value);
    assert seg[4..4 + |key|] == key && seg[4 + |key| + 1..] == value;
  }

  /** A further segment behind a query is handled last. */
  lemma {:induction false} SegmentsAppend(f: Found, q: bytes, seg: bytes)
    requires q != [] && q[|q| - 1] != AMP && AMP !in seg && seg != []
    ensures Segments(f, q + ([AMP] + seg)) == Segment(Segments(f, q), seg)
    decreases |q|
  {
    hide Segment;
    var k := Find(q, AMP);
    var first := q[..k];
    if k < |q| {
      var rest := q[k + 1..];
      assert AMP !in first;
      assert q == first + [AMP] + rest;
      assert q + ([AMP] + seg) == first + [AMP] + (rest + ([AMP] + seg));
      SegmentsFirst(f, first, rest);
      SegmentsFirst(f, first, rest + ([AMP] + seg));
      SegmentsAppend(Segment(f, first), rest, seg);
    } else {
      assert first == q;
      assert q + ([AMP] + seg) == q + [AMP] + seg;
      SegmentsFirst(f, q, seg);
      SegmentsLast(f, q);
      SegmentsLast(Segment(f, q), seg);
    }
  }

  lemma {:induction false} SegmentsEnv(q: bytes, kvs: seq<text>)
    requires StartsWith(q, COMMAND) && AMP !in q
    ensures var whole := q + EnvQuery(kvs);
            whole != [] && whole[|whole| - 1] != AMP &&
            Segments(Found([], false, []), whole) == Segment(Found([], false, []), q).(env := EnvOf(kvs))
    decreases |kvs|
  {
    hide Segments, Segment, EnvSegment, StoreEnv, Captured, KeyOf, ValueOf;
    var f0 := Found([], false, []);
    if kvs == [] {
      assert q + EnvQuery(kvs) == q;
      assert q[|q| - 1] in q;
      SegmentsLast(f0, q);
      CommandSegment(f0, q);
    } else {
      var front, kv := kvs[..|kvs| - 1], kvs[|kvs| - 1];
      SegmentsEnv(q, front);
      EnvSegmentSafe(kv);
      EnvSegmentNonEmpty(kv);
      SegmentsAppend(f0, q + EnvQuery(front), EnvSegment(kv));
      assert q + EnvQuery(kvs) == (q + EnvQuery(front)) + ([AMP] + EnvSegment(kv));
      EnvSegmentStores(Segment(f0, q).(env := EnvOf(front)), kv);
    }
  }

  lemma EnvSegmentNonEmpty(kv: text)
    ensures |EnvSegment(kv)| > 0
  {}

  /** The command segment sets the command if there is one, and nothing else. */
  lemma CommandSegment(f: Found, seg: bytes)
    requires StartsWith(seg, COMMAND)
    ensures Segment(f, seg) == if |seg| > 8 then f.(cmd := seg[8..]) else f
  {
    assert seg[0] == seg[..8][0] == 99;
    assert seg[..4][0] == 99;
  }

  // ---- what survives ----

  predicate AllUnreserved(s: seq<int>) { forall i :: 0 <= i < |s| ==> 0 <= s[i] < 128 && Unreserved(s[i]) }

  /** Unreserved characters, and they alone, encode to themselves. */
  lemma {:induction false} EncodeUnreserved(s: text)
    requires AllUnreserved(s)
    ensures Encode(s) == s
  {
    if s != [] { EncodeUnreserved(s[1..]); }
  }

  lemma {:induction false} EncodeGrows(s: text)
    ensures |Encode(s)| >= |s|
  {
    if s != [] { EncodeGrows(s[1..]); }
  }

  lemma {:induction false} OnlyUnreserved(s: text)
    requires Encode(s) == s
    ensures AllUnreserved(s)
  {
    if s != [] {
      var e, more := EncodeChar(s[0]), Encode(s[1..]);
      EncodeGrows(s[1..]);
      assert |e| == 1;
      assert (e + more)[0] == e[0] && (e + more)[1..] == more;
      OnlyUnreserved(s[1..]);
    }
  }

  lemma {:induction false} EncodedUnreserved(s: text)
    requires AllUnreserved(Encode(s))
    ensures Encode(s) == s
    decreases |s|
  {
    if s != [] {
      var e, more := EncodeChar(s[0]), Encode(s[1..]);
      assert Encode(s)[0] == e[0] && Unreserved(Encode(s)[0]);
      forall i | 0 <= i < |more| ensures Unreserved(more[i]) && more[i] < 128 { assert Encode(s)[|e| + i] == more[i]; }
      EncodedUnreserved(s[1..]);
    }
  }

  /** Encoding neither hides nor makes an echo option: those characters encode to themselves. */
  lemma EchoOptionEncoded(s: text)
    ensures EchoOption(Encode(s)) <==> EchoOption(s)
  {
    if EchoOption(s) { EncodeUnreserved(s); }
    if EchoOption(Encode(s)) { EncodedUnreserved(s); }
  }

  lemma {:induction false} EncodeNonEmpty(s: text)
    requires s != []
    ensures Encode(s) != []
  {}

  /** What the server makes of every query the shell builds: an empty command, or one that echo
      takes for options, is refused; of every other command the decoding arrives; the raw flag and
      the environment arrive whatever follows the command. */
  lemma QueryHandled(cmd: text, kvs: seq<text>, raw: bool)
    ensures Handled(Query(cmd, kvs, raw)) ==
            if cmd == [] || EchoOption(cmd) then Missing else Request(Decode(Encode(cmd), CMD_CAP), raw, EnvOf(kvs))
  {
    hide Segments, Segment, EnvQuery, EnvOf, Encode, Decode, EchoOption;
    var f0, seg := Found([], false, []), COMMAND + Captured(cmd);
    EchoOptionEncoded(cmd);
    if cmd == [] { NothingCaptured(); } else { EncodeNonEmpty(cmd); }
    CapturedSafe(cmd);
    assert seg[..8] == COMMAND && seg[8..] == Captured(cmd);
    SegmentsEnv(seg, kvs);
    CommandSegment(f0, seg);
    var whole := seg + EnvQuery(kvs);
    var f1 := Segments(f0, whole);
    if raw {
      SegmentsAppend(f0, whole, RAW);
      RawSegment(f1);
      assert Query(cmd, kvs, raw) == whole + ([AMP] + RAW);
    } else {
      assert Query(cmd, kvs, raw) == whole;
    }
  }

  lemma NothingCaptured()
    ensures Captured([]) == []
  {}

  lemma RawSegment(f: Found)
    ensures Segment(f, RAW) == f.(raw := true)
  {}

  /** The command arrives as it was exactly if there is one, all its characters are ASCII, echo does
      not take it for options, and it has at most 4095 bytes. */
  lemma CommandSurvives(cmd: text, kvs: seq<text>, raw: bool)
    ensures var r := Handled(Query(cmd, kvs, raw));
            (r.Request? && r.command == Utf8Text(cmd)) <==> (cmd != [] && Ascii(cmd) && !EchoOption(cmd) && |cmd| <= CMD_CAP)
  {
    hide Handled, Query, EchoOption, EnvOf, Encode, Decode, Utf8Text;
    QueryHandled(cmd, kvs, raw);
    if Ascii(cmd) {
      DecodeEncode(cmd, CMD_CAP);
      Utf8OfAscii(cmd);
      assert |cmd| <= CMD_CAP ==> cmd[..|cmd|] == cmd;
    } else {
      WideIsLost(cmd, CMD_CAP);
    }
  }

  /** The command `-n` is lost on the way. */
  lemma DashNIsLost(kvs: seq<text>, raw: bool)
    ensures Handled(Query([MINUS, 110], kvs, raw)) == Missing
  {
    QueryHandled([MINUS, 110], kvs, raw);
  }

  /** The command of the one character U+00E9, two bytes in UTF-8, arrives as the byte E9. */
  lemma AccentIsMangled(kvs: seq<text>, raw: bool)
    ensures Utf8Text([0xE9]) == [0xC3, 0xA9]
    ensures Handled(Query([0xE9], kvs, raw)) == Request([0xE9], raw, EnvOf(kvs))
  {
    QueryHandled([0xE9], kvs, raw);
    Accent();
    hide *;
  }

  lemma Accent()
    ensures Utf8Text([0xE9]) == [0xC3, 0xA9] && Decode(Encode([0xE9]), CMD_CAP) == [0xE9]
  {
    hide Decode, DecodeFirst;
    var accent: text := [0xE9];
    assert accent[1..] == [];
    assert HexUpperText(0xE9) == HexUpperText(14) + [57] == [69, 57];
    assert Encode(accent) == [PERCENT, 69, 57];
    assert [PERCENT, 69, 57] + [] == [PERCENT, 69, 57];
    assert DecodeFirst([PERCENT, 69, 57]) == (0xE9, 3) by { EscapeDecoded(0xE9); }
    FirstDecoded([PERCENT, 69, 57], [], 0xE9, CMD_CAP);
    assert Decode([], CMD_CAP - 1) == [] by { DecodeEnd([], CMD_CAP - 1); }
  }

  lemma EscapeDecoded(b: byte)
    ensures DecodeFirst([PERCENT, HexUpper(b / 16), HexUpper(b % 16)]) == (b, 3)
  {
    HexPair(b);
  }

  /** A half of an environment pair arrives as it is exactly if it is made of unreserved characters
      and echo does not take it for options. */
  lemma EnvUnchanged(s: text)
    ensures Captured(s) == s <==> AllUnreserved(s) && !EchoOption(s)
  {
    EchoOptionEncoded(s);
    if AllUnreserved(s) { EncodeUnreserved(s); }
    if Captured(s) == s && !EchoOption(s) { OnlyUnreserved(s); }
  }
}
