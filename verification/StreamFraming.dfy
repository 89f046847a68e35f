/** The chunk writers of src/handler.c: what a stream of command output looks like on the wire. */
module StreamFraming {
  import opened Bytes
  import opened BodyReader

  const BUF: nat := 4096
  const DATA_PREFIX: bytes := [100, 97, 116, 97, 58, 32]
  const STDERR_PREFIX: bytes := [91, 83, 84, 68, 69, 82, 82, 93, 32]

  /** The TLS stream; a blocking SSL_write takes everything. */
  class Ssl {
    var sent: bytes

    constructor ()
      ensures sent == []
    {
      sent := [];
    }

    method Write(data: bytes)
      modifies this
      ensures sent == old(sent) + data
    {
      sent := sent + data;
    }
  }

  /** send_chunk. */
  method SendChunk(ssl: Ssl, data: bytes)
    modifies ssl
    ensures ssl.sent == old(ssl.sent) + Frame(data)
  {
    ghost var before := ssl.sent;
    ssl.Write(HexText(|data|) + [CR, LF]);
    if |data| > 0 { ssl.Write(data); }
    ssl.Write([CR, LF]);
    assert ssl.sent == before + (HexText(|data|) + [CR, LF]) + data + [CR, LF];
  }

  /** send_chunk_final. */
  method SendChunkFinal(ssl: Ssl)
    modifies ssl
    ensures ssl.sent == old(ssl.sent) + LAST_CHUNK
  {
    ssl.Write([ZERO, CR, LF, CR, LF]);
  }

  function Prefix(isStderr: bool): bytes { if isStderr then STDERR_PREFIX else [] }

  /** The largest piece of output one event carries. */
  function MaxPiece(isStderr: bool): nat { BUF - (6 + |Prefix(isStderr)| + 2 + 1) }

  /** The output cut into pieces. */
  function Pieces(data: bytes, max: nat): seq<bytes>
    requires max > 0
    decreases |data|
  {
    if data == [] then []
    else if |data| <= max then [data]
    else [data[..max]] + Pieces(data[max..], max)
  }

  /** One server-sent event: `%.*s` prints a piece up to a NUL. */
  function Event(isStderr: bool, piece: bytes): bytes {
    DATA_PREFIX + Prefix(isStderr) + CText(piece) + [LF, LF]
  }

  function Events(isStderr: bool, pieces: seq<bytes>): seq<bytes> {
    if pieces == [] then [] else [Event(isStderr, pieces[0])] + Events(isStderr, pieces[1..])
  }

  lemma {:induction false} CTextShort(s: bytes)
    ensures |CText(s)| <= |s|
  {
    if s != [] { CTextShort(s[1..]); }
  }

  /** stream_callback: every piece becomes one chunk. The check for an event that does not fit the
      4096-byte buffer never fires, so the loop always runs to the end of the data. */
  method StreamCallback(ssl: Ssl, data: bytes, isStderr: bool)
    modifies ssl
    ensures ssl.sent == old(ssl.sent) + Frames(Events(isStderr, Pieces(data, MaxPiece(isStderr))))
  {
    hide Frame, Frames, Events, Pieces, CText;
    var maxPiece := MaxPiece(isStderr);
    ghost var all := Events(isStderr, Pieces(data, maxPiece));
    ghost var done: seq<bytes> := [];
    var offset := 0;
    assert data[0..] == data && [] + all == all;
    NoFrames(isStderr, maxPiece);
    while offset < |data|
      invariant 0 <= offset <= |data|
      invariant done + Events(isStderr, Pieces(data[offset..], maxPiece)) == all
      invariant ssl.sent == old(ssl.sent) + Frames(done)
    {
      var piece := |data| - offset;
      if piece > maxPiece { piece := maxPiece; }
      ghost var rest := data[offset..];
      assert rest[..piece] == data[offset..offset + piece];
      assert rest[piece..] == data[offset + piece..];
      FirstPiece(rest, piece, maxPiece, isStderr);
      CTextShort(data[offset..offset + piece]);
      var event := Event(isStderr, data[offset..offset + piece]);
      assert |event| <= 6 + |Prefix(isStderr)| + piece + 2;
      if |event| >= BUF { break; }
      SendChunk(ssl, event);
      FramesSnoc(done, event);
      assert done + ([event] + Events(isStderr, Pieces(data[offset + piece..], maxPiece))) ==
             (done + [event]) + Events(isStderr, Pieces(data[offset + piece..], maxPiece));
      done := done + [event];
      offset := offset + piece;
    }
    assert data[offset..] == [] && done + [] == done;
  }

  lemma NoFrames(isStderr: bool, max: nat)
    requires max > 0
    ensures Frames([]) == [] && Events(isStderr, Pieces([], max)) == []
  {}

  lemma FirstPiece(rest: bytes, piece: nat, max: nat, isStderr: bool)
    requires rest != [] && max > 0 && piece == Min(|rest|, max)
    ensures Events(isStderr, Pieces(rest, max)) ==
            [Event(isStderr, rest[..piece])] + Events(isStderr, Pieces(rest[piece..], max))
  {
    if |rest| <= max {
      assert rest[..piece] == rest && rest[piece..] == [];
      assert [rest][1..] == [];
    } else {
      assert ([rest[..max]] + Pieces(rest[max..], max))[1..] == Pieces(rest[max..], max);
    }
  }

  // ---- what the client gets ----

  /** The client's side: the text of an event between its field name and its blank line. */
  function Payload(isStderr: bool, event: bytes): bytes {
    var skip := 6 + |Prefix(isStderr)|;
    if |event| < skip + 2 then [] else event[skip..|event| - 2]
  }

  function Payloads(isStderr: bool, events: seq<bytes>): bytes {
    if events == [] then [] else Payload(isStderr, events[0]) + Payloads(isStderr, events[1..])
  }

  /** NUL-free output arrives whole and in order: the payloads of the events are the data. */
  lemma {:induction false} PayloadsAreData(isStderr: bool, data: bytes, max: nat)
    requires NulFree(data) && max > 0
    ensures Payloads(isStderr, Events(isStderr, Pieces(data, max))) == data
    decreases |data|
  {
    hide Pieces, Events, Event, Payload, Payloads;
    if data == [] {
      NoFrames(isStderr, max);
      assert Payloads(isStderr, []) == [] by { NoPayloads(isStderr); }
    } else {
      var piece := Min(|data|, max);
      var first, rest := data[..piece], data[piece..];
      FirstPiece(data, piece, max, isStderr);
      PayloadOfEvent(isStderr, first);
      PayloadsAreData(isStderr, rest, max);
      PayloadsCons(isStderr, Event(isStderr, first), Events(isStderr, Pieces(rest, max)));
      assert first + rest == data;
    }
  }

  lemma NoPayloads(isStderr: bool)
    ensures Payloads(isStderr, []) == []
  {}

  lemma PayloadsCons(isStderr: bool, event: bytes, events: seq<bytes>)
    ensures Payloads(isStderr, [event] + events) == Payload(isStderr, event) + Payloads(isStderr, events)
  {
    assert ([event] + events)[1..] == events;
  }

  /** The field name, the prefix and the blank line come off again. */
  lemma PayloadOfEvent(isStderr: bool, piece: bytes)
    requires NulFree(piece)
    ensures Payload(isStderr, Event(isStderr, piece)) == piece
  {
    CTextWhole(piece);
    var front := DATA_PREFIX + Prefix(isStderr);
    assert Event(isStderr, piece) == front + piece + [LF, LF];
    assert |front| == 6 + |Prefix(isStderr)|;
    assert (front + piece + [LF, LF])[|front|..|front| + |piece|] == piece;
  }

  lemma {:induction false} EventsNonEmpty(isStderr: bool, pieces: seq<bytes>)
    requires forall i :: 0 <= i < |pieces| ==> |pieces[i]| <= BUF
    ensures forall i :: 0 <= i < |Events(isStderr, pieces)| ==> 0 < |Events(isStderr, pieces)[i]| <= 2 * BUF
  {
    if pieces != [] {
      EventsNonEmpty(isStderr, pieces[1..]);
      CTextShort(pieces[0]);
    }
  }

  lemma {:induction false} PiecesShort(data: bytes, max: nat)
    requires 0 < max <= BUF
    ensures forall i :: 0 <= i < |Pieces(data, max)| ==> |Pieces(data, max)[i]| <= BUF
    decreases |data|
  {
    if |data| > max { PiecesShort(data[max..], max); }
  }

  /** A whole response of one callback and the final chunk is a chunked body that the program's own
      reader decodes to the events, every size line matching its chunk. */
  lemma StreamDecodes(isStderr: bool, data: bytes)
    ensures var events := Events(isStderr, Pieces(data, MaxPiece(isStderr)));
            var f := FeedAll(CHUNKED, Frames(events) + LAST_CHUNK);
            f.out == Joined(events) && f.reader.phase == Done
  {
    hide FeedAll, Frames, Joined;
    var pieces := Pieces(data, MaxPiece(isStderr));
    PiecesShort(data, MaxPiece(isStderr));
    EventsNonEmpty(isStderr, pieces);
    FeedFramesAndLast(Events(isStderr, pieces));
  }
}
