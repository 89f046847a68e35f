/** The WebSocket framer and streaming deframer of test.js (RFC 6455 section 5.2): frames cut
    anywhere by the network come out whole, once and in order. */
module WebSocket {
  import opened Bytes

  const MAX_SAFE: nat := 0x20_0000_0000_0000
  const TEXT: byte := 0x81

  // ---- numbers and masks ----

  function Pow256(k: nat): nat { if k == 0 then 1 else 256 * Pow256(k - 1) }

  /** `k` bytes, most significant first. */
  function BigEndian(n: nat, k: nat): (s: bytes)
    ensures |s| == k
  {
    if k == 0 then [] else BigEndian(n / 256, k - 1) + [n % 256]
  }

  function FromBigEndian(s: bytes): nat {
    if s == [] then 0 else FromBigEndian(s[..|s| - 1]) * 256 + s[|s| - 1]
  }

  lemma {:induction false} BigEndianValue(n: nat, k: nat)
    requires n < Pow256(k)
    ensures FromBigEndian(BigEndian(n, k)) == n
  {
    if k > 0 {
      BigEndianValue(n / 256, k - 1);
      assert BigEndian(n, k)[..k - 1] == BigEndian(n / 256, k - 1);
    }
  }

  function Pow2(k: nat): nat { if k == 0 then 1 else 2 * Pow2(k - 1) }

  /** Exclusive or of the low `k` bits. */
  function XorBits(k: nat, a: nat, b: nat): (x: nat)
    ensures x < Pow2(k)
  {
    if k == 0 then 0 else (if a % 2 == b % 2 then 0 else 1) + 2 * XorBits(k - 1, a / 2, b / 2)
  }

  function Xor(a: byte, b: byte): byte {
    assert Pow2(8) == 256 by { assert Pow2(4) == 16; }
    XorBits(8, a, b)
  }

  lemma {:induction false} XorBitsTwice(k: nat, a: nat, b: nat)
    requires a < Pow2(k)
    ensures XorBits(k, XorBits(k, a, b), b) == a
  {
    if k > 0 {
      var x := XorBits(k, a, b);
      assert x / 2 == XorBits(k - 1, a / 2, b / 2);
      assert x % 2 == if a % 2 == b % 2 then 0 else 1;
      XorBitsTwice(k - 1, a / 2, b / 2);
    }
  }

  lemma XorTwice(a: byte, b: byte)
    ensures Xor(Xor(a, b), b) == a
  {
    assert Pow2(8) == 256 by { assert Pow2(4) == 16; }
    XorBitsTwice(8, a, b);
  }

  /** Masking and unmasking: byte i with key byte i mod 4 (section 5.3). */
  function Masked(p: bytes, key: bytes): (s: bytes)
    requires |key| == 4
    ensures |s| == |p| && forall i :: 0 <= i < |p| ==> s[i] == Xor(p[i], key[i % 4])
  {
    seq(|p|, i requires 0 <= i < |p| => Xor(p[i], key[i % 4]))
  }

  lemma MaskTwice(p: bytes, key: bytes)
    requires |key| == 4
    ensures Masked(Masked(p, key), key) == p
  {
    hide Xor;
    var m := Masked(Masked(p, key), key);
    forall i | 0 <= i < |p| ensures m[i] == p[i] { XorTwice(p[i], key[i % 4]); }
  }

  // ---- frames ----

  /** A text message on the wire; _sendFrame sends without a key, a browser's peer may send with. */
  datatype Message = Message(payload: bytes, key: bytes)

  ghost predicate Sendable(m: Message) { |m.payload| < MAX_SAFE && (m.key == [] || |m.key| == 4) }

  ghost predicate AllSendable(ms: seq<Message>) { forall i :: 0 <= i < |ms| ==> Sendable(ms[i]) }

  /** The length field: 7 bits, or 126 and 16 bits, or 127 and 64 bits. */
  function LengthField(n: nat, maskBit: nat): bytes
    requires maskBit == 0 || maskBit == 128
  {
    if n < 126 then [maskBit + n]
    else if n < 65536 then [maskBit + 126] + BigEndian(n, 2)
    else [maskBit + 127] + BigEndian(n, 8)
  }

  function FrameText(m: Message): bytes
    requires m.key == [] || |m.key| == 4
  {
    [TEXT] + LengthField(|m.payload|, if m.key == [] then 0 else 128) +
    (m.key + (if m.key == [] then m.payload else Masked(m.payload, m.key)))
  }

  /** What the head of the buffer announces. */
  datatype Header = Header(opcode: nat, masked: bool, offset: nat, length: nat)

  /** The header part of _onData's loop: None while it is incomplete. */
  function ReadHeader(b: bytes): (r: Option<Header>)
    ensures r.Some? ==> 2 <= r.value.offset <= |b|
  {
    if |b| < 2 then None
    else
      var opcode, masked, n := b[0] % 16, b[1] >= 128, b[1] % 128;
      if n == 126 then (if |b| < 4 then None else Some(Header(opcode, masked, 4, FromBigEndian(b[2..4]))))
      else if n == 127 then (if |b| < 10 then None else Some(Header(opcode, masked, 10, FromBigEndian(b[2..10]))))
      else Some(Header(opcode, masked, 2, n))
  }

  datatype Frame = Frame(opcode: nat, payload: bytes, size: nat)

  /** The first frame in the buffer, once it is complete. */
  function NextFrame(b: bytes): (r: Option<Frame>)
    ensures r.Some? ==> 2 <= r.value.size <= |b|
  {
    match ReadHeader(b)
    case None => None
    case Some(h) =>
      var start := h.offset + (if h.masked then 4 else 0);
      if |b| < start + h.length then None
      else
        var p := b[start..start + h.length];
        Some(Frame(h.opcode, if h.masked then Masked(p, b[h.offset..h.offset + 4]) else p, start + h.length))
  }

  /** The receiving side: the bytes kept, the text payloads delivered, whether it hung up. */
  datatype Receiver = Receiver(buffer: bytes, delivered: seq<bytes>, closed: bool)

  const FRESH: Receiver := Receiver([], [], false)

  /** The loop of _onData. */
  function Drain(r: Receiver): Receiver
    decreases |r.buffer|
  {
    match NextFrame(r.buffer)
    case None => r
    case Some(f) =>
      var rest := r.buffer[f.size..];
      if f.opcode == 8 then Receiver(rest, r.delivered, true)
      else Drain(Receiver(rest, if f.opcode == 1 then r.delivered + [f.payload] else r.delivered, r.closed))
  }

  /** One data event; a destroyed socket has no more of them. */
  function Receive(r: Receiver, data: bytes): Receiver {
    if r.closed then r else Drain(r.(buffer := r.buffer + data))
  }

  function ReceiveAll(r: Receiver, events: seq<bytes>): Receiver
    decreases |events|
  {
    if events == [] then r else ReceiveAll(Receive(r, events[0]), events[1..])
  }

  function Concat(events: seq<bytes>): bytes {
    if events == [] then [] else events[0] + Concat(events[1..])
  }

  // ---- as test.js runs it ----

  class CDPSocket {
    var buffer: bytes
    var delivered: seq<bytes>
    var closed: bool
    /** What socket.write was given. */
    var written: bytes

    constructor ()
      ensures State() == FRESH && written == []
    {
      buffer, delivered, closed, written := [], [], false, [];
    }

    ghost function State(): Receiver
      reads this
    {
      Receiver(buffer, delivered, closed)
    }

    /** _onData, with the payloads logged instead of parsed. */
    method OnData(data: bytes)
      requires !closed
      modifies this`buffer, this`delivered, this`closed
      ensures State() == Receive(old(State()), data)
    {
      hide Drain, NextFrame;
      buffer := buffer + data;
      ghost var whole := Drain(State());
      while |buffer| >= 2
        invariant !closed && Drain(State()) == whole
        decreases |buffer|
      {
        DrainStep(State());
        var f := FirstFrame(buffer);
        if f.None? { return; }
        buffer := buffer[f.value.size..];
        if f.value.opcode == 1 {
          delivered := delivered + [f.value.payload];
        } else if f.value.opcode == 8 {
          closed := true;
          return;
        }
      }
      DrainStep(State());
    }

    /** The part of _onData's loop that waits for a whole frame and cuts it out of the buffer. */
    static method FirstFrame(buffer: bytes) returns (f: Option<Frame>)
      requires |buffer| >= 2
      ensures f == NextFrame(buffer)
    {
      hide Masked, FromBigEndian;
      var opcode := buffer[0] % 16;
      var masked := buffer[1] >= 128;
      var payloadLen: nat := buffer[1] % 128;
      var offset := 2;
      if payloadLen == 126 {
        if |buffer| < 4 { return None; }
        payloadLen := FromBigEndian(buffer[2..4]);
        offset := 4;
      } else if payloadLen == 127 {
        if |buffer| < 10 { return None; }
        payloadLen := FromBigEndian(buffer[2..10]);
        offset := 10;
      }
      var maskLen := if masked then 4 else 0;
      if |buffer| < offset + maskLen + payloadLen { return None; }
      var mask := if masked then buffer[offset..offset + 4] else [];
      offset := offset + maskLen;
      var payload := buffer[offset..offset + payloadLen];
      if masked { payload := Unmask(payload, mask); }
      return Some(Frame(opcode, payload, offset + payloadLen));
    }

    /** The unmasking loop. */
    static method Unmask(payload: bytes, mask: bytes) returns (p: bytes)
      requires |mask| == 4
      ensures p == Masked(payload, mask)
    {
      hide Xor;
      p := payload;
      var i := 0;
      while i < |p|
        invariant 0 <= i <= |p| == |payload|
        invariant forall k :: 0 <= k < i ==> p[k] == Xor(payload[k], mask[k % 4])
        invariant forall k :: i <= k < |p| ==> p[k] == payload[k]
      {
        p := p[i := Xor(p[i], mask[i % 4])];
        i := i + 1;
      }
    }

    /** _sendFrame. */
    method SendFrame(payload: bytes)
      requires |payload| < MAX_SAFE
      modifies this`written
      ensures written == old(written) + FrameText(Message(payload, []))
    {
      hide FrameText;
      var frame := BuildFrame(payload);
      written := written + frame[..];
    }

    /** Allocate the frame, fill the header, copy the payload behind it. */
    static method BuildFrame(payload: bytes) returns (frame: array<byte>)
      requires |payload| < MAX_SAFE
      ensures frame[..] == FrameText(Message(payload, []))
    {
      hide BigEndian, Masked;
      var n := |payload|;
      var header := if n < 126 then 2 else if n < 65536 then 4 else 10;
      frame := new byte[header + n];
      frame[0] := TEXT;
      frame[1] := if n < 126 then n else if n < 65536 then 126 else 127;
      if n >= 126 {
        ghost var two := frame[..2];
        WriteBigEndian(frame, 2, n, header - 2);
        assert frame[..header] == frame[..2] + frame[2..header] == two + BigEndian(n, header - 2);
      }
      assert frame[..header] == [TEXT] + LengthField(n, 0);
      var i := 0;
      while i < n
        invariant 0 <= i <= n
        invariant frame[..header + i] == [TEXT] + LengthField(n, 0) + payload[..i]
      {
        frame[header + i] := payload[i];
        assert frame[..header + (i + 1)] == frame[..header + i] + [payload[i]];
        assert payload[..i + 1] == payload[..i] + [payload[i]];
        i := i + 1;
      }
      assert payload[..n] == payload && [] + payload == payload;
    }

    /** writeUInt16BE and writeBigUInt64BE. */
    static method WriteBigEndian(frame: array<byte>, at: nat, n: nat, k: nat)
      requires at + k <= frame.Length
      modifies frame
      ensures frame[at..at + k] == BigEndian(n, k) && frame[..at] == old(frame[..at])
    {
      var i, rest := k, n;
      assert frame[at + k..at + k] == [];
      while i > 0
        invariant 0 <= i <= k
        invariant BigEndian(rest, i) + frame[at + i..at + k] == BigEndian(n, k)
        invariant frame[..at] == old(frame[..at])
      {
        ghost var low := frame[at + i..at + k];
        frame[at + i - 1] := rest % 256;
        assert frame[at + i - 1..at + k] == [rest % 256] + low;
        assert BigEndian(rest / 256, i - 1) + ([rest % 256] + low) == BigEndian(rest, i) + low;
        i, rest := i - 1, rest / 256;
      }
    }
  }

  lemma DrainStep(r: Receiver)
    ensures Drain(r) ==
            match NextFrame(r.buffer)
            case None => r
            case Some(f) =>
              if f.opcode == 8 then Receiver(r.buffer[f.size..], r.delivered, true)
              else Drain(Receiver(r.buffer[f.size..], if f.opcode == 1 then r.delivered + [f.payload] else r.delivered, r.closed))
    ensures |r.buffer| < 2 ==> NextFrame(r.buffer) == None
    ensures NextFrame(r.buffer).Some? ==> 2 <= NextFrame(r.buffer).value.size <= |r.buffer|
  {}

  // ---- any split of the stream ----

  lemma {:induction false} HeaderStable(b: bytes, more: bytes)
    requires ReadHeader(b).Some?
    ensures ReadHeader(b + more) == ReadHeader(b)
  {
    assert |b| >= 4 ==> (b + more)[2..4] == b[2..4];
    assert |b| >= 10 ==> (b + more)[2..10] == b[2..10];
  }

  /** A complete frame is read the same whatever follows it. */
  lemma FrameStable(b: bytes, more: bytes)
    requires NextFrame(b).Some?
    ensures NextFrame(b + more) == NextFrame(b)
  {
    hide ReadHeader;
    HeaderStable(b, more);
    var h := ReadHeader(b).value;
    var start := h.offset + (if h.masked then 4 else 0);
    assert (b + more)[start..start + h.length] == b[start..start + h.length];
    assert h.masked ==> (b + more)[h.offset..h.offset + 4] == b[h.offset..h.offset + 4];
  }

  /** Draining early changes nothing: what a later event adds is decoded as if it had been there. */
  lemma {:induction false} DrainEarly(r: Receiver, more: bytes)
    ensures var t := Drain(r);
            !t.closed ==> Drain(r.(buffer := r.buffer + more)) == Drain(t.(buffer := t.buffer + more))
    decreases |r.buffer|
  {
    hide NextFrame;
    if NextFrame(r.buffer).Some? {
      FrameStable(r.buffer, more);
      var f := NextFrame(r.buffer).value;
      FrameSize(r.buffer);
      assert (r.buffer + more)[f.size..] == r.buffer[f.size..] + more;
      if f.opcode != 8 {
        var r' := Receiver(r.buffer[f.size..], if f.opcode == 1 then r.delivered + [f.payload] else r.delivered, r.closed);
        DrainEarly(r', more);
      }
    }
  }

  lemma FrameSize(b: bytes)
    requires NextFrame(b).Some?
    ensures 2 <= NextFrame(b).value.size <= |b|
  {}

  /** For any way of cutting any stream into events, the same payloads are delivered and the
      receiver is closed or open as one event with the whole stream would have left it; if open, it
      keeps the same bytes. (A closed one keeps what its last event held beyond the close frame.) */
  lemma {:induction false} SplitInvariant(r: Receiver, events: seq<bytes>)
    requires Drain(r) == r
    ensures var a, b := ReceiveAll(r, events), Receive(r, Concat(events));
            a.delivered == b.delivered && a.closed == b.closed && (!a.closed ==> a == b)
    decreases |events|
  {
    hide Drain;
    if events == [] {
      assert r.buffer + [] == r.buffer;
    } else {
      var first, rest := events[0], events[1..];
      var r1, t := r.(buffer := r.buffer + first), Receive(r, first);
      assert r1.buffer + Concat(rest) == r.buffer + Concat(events);
      if r.closed || t.closed {
        ClosedForGood(t, rest);
        if !r.closed { DrainClosed(r1, Concat(rest)); }
      } else {
        DrainTwice(r1);
        SplitInvariant(t, rest);
        DrainEarly(r1, Concat(rest));
      }
    }
  }

  lemma {:induction false} ClosedForGood(r: Receiver, events: seq<bytes>)
    requires r.closed
    ensures ReceiveAll(r, events) == r
    decreases |events|
  {
    if events != [] { ClosedForGood(r, events[1..]); }
  }

  lemma {:induction false} DrainTwice(r: Receiver)
    ensures !Drain(r).closed ==> Drain(Drain(r)) == Drain(r)
    decreases |r.buffer|
  {
    hide NextFrame;
    if NextFrame(r.buffer).Some? {
      FrameSize(r.buffer);
      var f := NextFrame(r.buffer).value;
      if f.opcode != 8 {
        DrainTwice(Receiver(r.buffer[f.size..], if f.opcode == 1 then r.delivered + [f.payload] else r.delivered, r.closed));
      }
    }
  }

  // ---- frames sent are messages received ----

  function Stream(ms: seq<Message>): bytes
    requires AllSendable(ms)
  {
    if ms == [] then [] else FrameText(ms[0]) + Stream(ms[1..])
  }

  function PayloadsOf(ms: seq<Message>): seq<bytes> {
    if ms == [] then [] else [ms[0].payload] + PayloadsOf(ms[1..])
  }

  /** The header of a frame, in all three length forms, with anything behind it. */
  lemma HeaderOfFrame(n: nat, masked: bool, more: bytes)
    requires n < MAX_SAFE
    ensures var field := LengthField(n, if masked then 128 else 0);
            ReadHeader([TEXT] + field + more) == Some(Header(1, masked, 1 + |field|, n))
  {
    hide BigEndian, FromBigEndian, ReadHeader;
    var mask := if masked then 128 else 0;
    if n < 126 {
      FieldHeader(mask + n, [], more);
      assert [TEXT] + [mask + n] + more == [TEXT, mask + n] + ([] + more);
    } else if n < 65536 {
      var field := BigEndian(n, 2);
      assert Pow256(2) == 65536;
      BigEndianValue(n, 2);
      FieldHeader(mask + 126, field, more);
      assert [TEXT] + ([mask + 126] + field) + more == [TEXT, mask + 126] + (field + more);
    } else {
      var field := BigEndian(n, 8);
      assert MAX_SAFE <= Pow256(8) by { assert Pow256(4) == 0x1_0000_0000; }
      BigEndianValue(n, 8);
      FieldHeader(mask + 127, field, more);
      assert [TEXT] + ([mask + 127] + field) + more == [TEXT, mask + 127] + (field + more);
    }
  }

  /** The two fixed bytes, the extended length they call for, and anything behind it. */
  lemma FieldHeader(second: byte, field: bytes, more: bytes)
    requires |field| == if second % 128 == 126 then 2 else if second % 128 == 127 then 8 else 0
    ensures ReadHeader([TEXT, second] + (field + more)) ==
            Some(Header(1, second >= 128, 2 + |field|, if field == [] then second % 128 else FromBigEndian(field)))
  {
    hide FromBigEndian;
    var b := [TEXT, second] + (field + more);
    assert b[0] == TEXT && b[1] == second;
    assert b[2..2 + |field|] == field;
  }

  /** A sent frame is read back as a text frame with its payload. */
  lemma NextOfFrame(m: Message, more: bytes)
    requires Sendable(m)
    ensures NextFrame(FrameText(m) + more) == Some(Frame(1, m.payload, |FrameText(m)|))
  {
    hide ReadHeader, LengthField, Masked, NextFrame;
    var masked := m.key != [];
    var head := [TEXT] + LengthField(|m.payload|, if masked then 128 else 0);
    var body := if masked then Masked(m.payload, m.key) else m.payload;
    MaskedLength(m.payload, m.key);
    assert FrameText(m) + more == head + (m.key + body + more);
    HeaderOfFrame(|m.payload|, masked, m.key + body + more);
    NextFromParts(head, m.key, body, more);
    if masked { MaskTwice(m.payload, m.key); }
  }

  /** A frame taken apart at its header. */
  lemma NextFromParts(head: bytes, key: bytes, body: bytes, more: bytes)
    requires key == [] || |key| == 4
    requires |head| >= 2 && ReadHeader(head + (key + body + more)) == Some(Header(1, key != [], |head|, |body|))
    ensures NextFrame(head + (key + body + more)) ==
            Some(Frame(1, if key != [] then Masked(body, key) else body, |head| + |key| + |body|))
  {
    hide ReadHeader, Masked;
    var b := head + (key + body + more);
    var start := |head| + |key|;
    assert b[start..start + |body|] == body;
    assert key != [] ==> b[|head|..|head| + 4] == key;
  }

  lemma MaskedLength(p: bytes, key: bytes)
    ensures |key| == 4 ==> |Masked(p, key)| == |p|
  {}

  lemma {:induction false} DrainStream(delivered: seq<bytes>, ms: seq<Message>, tail: bytes)
    requires AllSendable(ms)
    ensures Drain(Receiver(Stream(ms) + tail, delivered, false)) == Drain(Receiver(tail, delivered + PayloadsOf(ms), false))
    decreases |ms|
  {
    hide NextFrame, FrameText;
    if ms == [] {
      assert [] + tail == tail && delivered + [] == delivered;
    } else {
      var f := FrameText(ms[0]);
      var rest := Stream(ms[1..]) + tail;
      assert Stream(ms) + tail == f + rest;
      NextOfFrame(ms[0], rest);
      assert (f + rest)[|f|..] == rest;
      DrainStream(delivered + [ms[0].payload], ms[1..], tail);
      assert delivered + [ms[0].payload] + PayloadsOf(ms[1..]) == delivered + PayloadsOf(ms);
    }
  }

  /** An incomplete frame stays in the buffer. */
  lemma PartialFrame(m: Message, part: bytes)
    requires Sendable(m) && |part| < |FrameText(m)| && part == FrameText(m)[..|part|]
    ensures NextFrame(part) == None
  {
    hide NextFrame, FrameText;
    var rest := FrameText(m)[|part|..];
    assert part + rest == FrameText(m) + [];
    NextOfFrame(m, []);
    if NextFrame(part).Some? {
      FrameStable(part, rest);
      FrameSize(part);
    }
  }

  /** The deframer's contract: whatever has arrived of a stream of frames, cut anywhere, exactly
      the payloads of the complete frames have been delivered, in order and once each, and exactly
      the bytes of the incomplete one are kept. */
  lemma DeliversExactly(ms: seq<Message>, next: Message, part: bytes, events: seq<bytes>)
    requires AllSendable(ms) && Sendable(next)
    requires |part| < |FrameText(next)| && part == FrameText(next)[..|part|]
    requires Concat(events) == Stream(ms) + part
    ensures ReceiveAll(FRESH, events) == Receiver(part, PayloadsOf(ms), false)
  {
    hide NextFrame, FrameText, Stream;
    DrainStream([], ms, part);
    PartialFrame(next, part);
    assert [] + PayloadsOf(ms) == PayloadsOf(ms);
    assert FRESH.buffer + Concat(events) == Stream(ms) + part;
    EmptyDrains();
    StaysOpen(FRESH, events);
    SplitInvariant(FRESH, events);
  }

  lemma EmptyDrains()
    ensures Drain(FRESH) == FRESH
  {}

  /** If the whole stream does not close the receiver, no cutting of it does. */
  lemma StaysOpen(r: Receiver, events: seq<bytes>)
    requires !r.closed && Drain(r) == r && !Receive(r, Concat(events)).closed
    ensures !ReceiveAll(r, events).closed
  {
    hide Drain;
    SplitInvariant(r, events);
  }

  /** Nothing behind a close frame is looked at. */
  lemma {:induction false} DrainClosed(r: Receiver, more: bytes)
    requires !r.closed && Drain(r).closed
    ensures Drain(r.(buffer := r.buffer + more)).closed
    ensures Drain(r.(buffer := r.buffer + more)).delivered == Drain(r).delivered
    decreases |r.buffer|
  {
    hide NextFrame;
    if NextFrame(r.buffer).Some? {
      FrameStable(r.buffer, more);
      FrameSize(r.buffer);
      var f := NextFrame(r.buffer).value;
      assert (r.buffer + more)[f.size..] == r.buffer[f.size..] + more;
      if f.opcode != 8 {
        DrainClosed(Receiver(r.buffer[f.size..], if f.opcode == 1 then r.delivered + [f.payload] else r.delivered, false), more);
      }
    }
  }
}
