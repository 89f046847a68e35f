/** What every run of the pump keeps, whatever the environment does. */
module PumpRuns {
  import opened Bytes
  import opened BodyReader
  import opened PumpModel

  // ---- the body on its way to the child ----

  /** What the child has received and what waits for it are, together and in order, the decoding of
      the body bytes consumed so far, and unless SSL failed the reader is where byte-by-byte reading
      would have it. */
  ghost predicate BodyInv(r0: Reader, i: Inbound) {
    (if i.broken then i.reader.phase == Done else i.reader == FeedAll(r0, i.consumed).reader) &&
    i.written + i.stdinBuf == FeedAll(r0, i.consumed).out &&
    (i.bodyEof <==> i.reader.phase == Done) &&
    (i.reader.phase == Data ==> i.reader.remaining != 0)
  }

  /** A read never delivers more than is due. */
  lemma DeliveryWithin(i: Inbound, r: SslRead)
    requires i.reader.phase == Data && i.reader.remaining > 0 && |i.stdinBuf| < STDIN_CAP
    ensures |Delivery(r, Asked(i))| <= i.reader.remaining
  {}

  lemma TakeByteKeeps(r0: Reader, i: Inbound, b: byte)
    requires BodyInv(r0, i) && i.reader.phase != Done && i.reader.phase != Data
    ensures BodyInv(r0, TakeByte(i, b))
  {
    hide FeedAll, Strtol16;
    FeedConcat(r0, i.consumed, [b]);
    FeedOne(i.reader, b);
    assert i.written + i.stdinBuf + [] == i.written + i.stdinBuf;
  }

  lemma FeedOne(r: Reader, b: byte)
    ensures FeedAll(r, [b]) == Feed(r, b)
  {
    assert [b][1..] == [];
    assert Feed(r, b).out + [] == Feed(r, b).out;
  }

  lemma TakeDataKeeps(r0: Reader, i: Inbound, data: bytes)
    requires BodyInv(r0, i) && i.reader.phase == Data && data != []
    requires i.reader.remaining > 0 ==> |data| <= i.reader.remaining
    ensures BodyInv(r0, TakeData(i, data))
  {
    hide FeedAll;
    FeedConcat(r0, i.consumed, data);
    FeedAnyData(i.reader, data);
    assert i.written + (i.stdinBuf + data) == (i.written + i.stdinBuf) + data;
  }

  lemma ReadBodyKeeps(r0: Reader, i: Inbound, r: SslRead)
    requires BodyInv(r0, i)
    ensures BodyInv(r0, ReadBody(i, r))
  {
    hide FeedAll, Feed, TakeByte, TakeData, Asked;
    if Reads(i) {
      if i.reader.phase == Data && i.reader.remaining > 0 { DeliveryWithin(i, r); }
      var data := Delivery(r, if i.reader.phase == Data then Asked(i) else 1);
      if data != [] {
        if i.reader.phase == Data { TakeDataKeeps(r0, i, data); } else { TakeByteKeeps(r0, i, data[0]); }
      }
    }
  }

  lemma FeedChildFrame(i: Inbound, w: PipeWrite)
    ensures FeedChild(i, w).consumed == i.consumed
  {}

  lemma ReadBodyGrows(i: Inbound, r: SslRead) returns (more: bytes)
    ensures ReadBody(i, r).consumed == i.consumed + more
  {
    hide Feed, Asked, Take;
    more := ReadBody(i, r).consumed[|i.consumed|..];
  }

  lemma FeedChildKeeps(r0: Reader, i: Inbound, w: PipeWrite)
    requires BodyInv(r0, i)
    ensures BodyInv(r0, FeedChild(i, w))
  {
    hide FeedAll;
    if w.Wrote? {
      var k := Min(w.n, |i.stdinBuf|);
      assert i.written + i.stdinBuf[..k] + i.stdinBuf[k..] == i.written + i.stdinBuf;
    }
  }

  // ---- closing the child's stdin ----

  /** At every loop head: a body that has ended with nothing left to hand over has had its stdin
      closed, and stdin is closed early only after a failed write. */
  ghost predicate CloseInv(i: Inbound) {
    (i.bodyEof <==> i.reader.phase == Done) &&
    (i.bodyEof && i.stdinBuf == [] ==> i.stdinClosed) &&
    (i.stdinClosed && !i.pipeFailed ==> i.bodyEof && i.stdinBuf == [])
  }

  /** CloseInv while the body of the loop runs. */
  ghost predicate OpenInv(i: Inbound) {
    (i.bodyEof <==> i.reader.phase == Done) && (i.stdinClosed && !i.pipeFailed ==> i.bodyEof && i.stdinBuf == [])
  }

  lemma ReadBodyOpen(i: Inbound, r: SslRead)
    requires OpenInv(i)
    ensures OpenInv(ReadBody(i, r))
  {
    hide Feed, Asked, Take;
  }

  lemma FeedChildOpen(i: Inbound, w: PipeWrite)
    requires OpenInv(i) && !i.stdinClosed
    ensures OpenInv(FeedChild(i, w))
  {}

  lemma CloseStdinCloses(i: Inbound)
    requires OpenInv(i)
    ensures CloseInv(CloseStdin(i))
  {}

  // ---- the output ----

  /** What SSL accepted and what is queued are, together and in order, the frames of the stdout
      reads that fitted; the queue is within its bound. */
  ghost predicate QueueInv(o: Outbound) {
    o.sent + o.queue == Frames(Kept(o.outputs)) &&
    |o.queue| <= QUEUE_CAP &&
    forall k :: 0 <= k < |o.outputs| ==> 0 < |o.outputs[k].data| <= READ_CAP
  }

  lemma WriteOutputKeeps(o: Outbound, w: SslWrite)
    requires QueueInv(o)
    ensures QueueInv(WriteOutput(o, w))
  {
    hide Frames, Kept;
    if w.Sent? {
      var k := Taken(w.n, |o.queue|);
      assert o.sent + o.queue[..k] + o.queue[k..] == o.sent + o.queue;
    }
  }

  lemma KeptSnoc(rs: seq<Read>, r: Read)
    ensures Kept(rs + [r]) == if r.kept then Kept(rs) + [r.data] else Kept(rs)
  {
    assert (rs + [r])[..|rs|] == rs;
  }

  lemma QueueOutputKeeps(o: Outbound, data: bytes)
    requires QueueInv(o) && 0 < |data| <= READ_CAP
    ensures QueueInv(QueueOutput(o, data))
  {
    hide Frames, Kept, Frame;
    KeptSnoc(o.outputs, Read(data, true));
    KeptSnoc(o.outputs, Read(data, false));
    FramesSnoc(Kept(o.outputs), data);
    assert o.sent + (o.queue + Frame(data)) == o.sent + o.queue + Frame(data);
  }

  // ---- one iteration ----

  lemma IterateBody(r0: Reader, p: Pump, e: Env)
    requires BodyInv(r0, p.inb)
    ensures BodyInv(r0, Iterate(p, e).inb)
  {
    hide FeedAll, ReadBody, FeedChild, QueueOutput, WriteOutput, ReadWants, SslInSet;
    if !NothingToPoll(p, e) && e.poll == Ready {
      var q := SslPart(p, e);
      ReadBodyKeeps(r0, p.inb, e.sslRead);
      FeedChildKeeps(r0, q.inb, e.pipeWrite);
    }
  }

  lemma IterateClose(p: Pump, e: Env)
    requires CloseInv(p.inb)
    ensures OpenInv(Iterate(p, e).inb) && (!Iterate(p, e).stopped ==> CloseInv(Iterate(p, e).inb))
  {
    hide ReadBody, FeedChild, QueueOutput, WriteOutput, ReadWants, SslInSet;
    if !NothingToPoll(p, e) && e.poll == Ready {
      var q := SslPart(p, e);
      ReadBodyOpen(p.inb, e.sslRead);
      if !q.inb.stdinClosed { FeedChildOpen(q.inb, e.pipeWrite); }
      CloseStdinCloses(q.inb);
      CloseStdinCloses(if q.inb.stdinClosed then q.inb else FeedChild(q.inb, e.pipeWrite));
    }
  }

  lemma IterateQueue(p: Pump, e: Env)
    requires QueueInv(p.outb)
    ensures QueueInv(Iterate(p, e).outb)
  {
    hide QueueInv, ReadBody, FeedChild, QueueOutput, WriteOutput, ReadWants, SslInSet;
    if !NothingToPoll(p, e) && e.poll == Ready {
      WriteOutputKeeps(p.outb, e.sslWrite);
      var data := PipeBytes(e.outRead);
      if data != [] { QueueOutputKeeps(SslPart(p, e).outb, data); }
    }
  }

  lemma ConsumedGrows(p: Pump, e: Env) returns (more: bytes)
    ensures Iterate(p, e).inb.consumed == p.inb.consumed + more
  {
    hide ReadBody, FeedChild, QueueOutput, WriteOutput, ReadWants, SslInSet;
    more := ReadBodyGrows(p.inb, e.sslRead);
    if Iterate(p, e).inb.consumed != p.inb.consumed + more { more := []; }
    FeedChildFrame(SslPart(p, e).inb, e.pipeWrite);
    assert p.inb.consumed + [] == p.inb.consumed;
  }

  // ---- whole runs ----

  /** What holds at the loop head and after the loop. */
  ghost predicate RunInv(p: Pump) {
    QueueInv(p.outb) && OpenInv(p.inb) && (!p.stopped ==> CloseInv(p.inb))
  }

  lemma {:induction false} RunKeeps(p: Pump, es: seq<Env>)
    requires RunInv(p)
    ensures RunInv(Run(p, es))
    decreases |es|
  {
    hide QueueInv, OpenInv, CloseInv, Iterate;
    if es != [] && Running(p) {
      IterateQueue(p, es[0]);
      IterateClose(p, es[0]);
      RunKeeps(Iterate(p, es[0]), es[1..]);
    }
  }

  lemma {:induction false} RunGrows(p: Pump, es: seq<Env>) returns (more: bytes)
    ensures Run(p, es).inb.consumed == p.inb.consumed + more
    decreases |es|
  {
    hide Iterate;
    if es != [] && Running(p) {
      var first := ConsumedGrows(p, es[0]);
      var rest := RunGrows(Iterate(p, es[0]), es[1..]);
      more := first + rest;
      assert p.inb.consumed + first + rest == p.inb.consumed + more;
    } else {
      more := [];
      assert p.inb.consumed + [] == p.inb.consumed;
    }
  }

  lemma {:induction false} RunBody(r0: Reader, p: Pump, es: seq<Env>)
    requires BodyInv(r0, p.inb)
    ensures BodyInv(r0, Run(p, es).inb)
    decreases |es|
  {
    hide BodyInv, Iterate;
    if es != [] && Running(p) {
      IterateBody(r0, p, es[0]);
      RunBody(r0, Iterate(p, es[0]), es[1..]);
    }
  }

  lemma InitHolds(contentLength: int, chunked: bool)
    ensures RunInv(Init(contentLength, chunked))
    ensures BodyInv(Start(contentLength, chunked), Init(contentLength, chunked).inb)
  {}

  /** In every run, for any split of reads and any partial writes, the child's input followed by the
      buffer is the decoding of what was consumed. */
  lemma ChildGetsBody(contentLength: int, chunked: bool, es: seq<Env>)
    ensures var i := Run(Init(contentLength, chunked), es).inb;
            i.written + i.stdinBuf == FeedAll(Start(contentLength, chunked), i.consumed).out
  {
    hide Init, Run, FeedAll;
    InitHolds(contentLength, chunked);
    RunBody(Start(contentLength, chunked), Init(contentLength, chunked), es);
  }

  /** Once a run has closed the child's stdin without a failed write or a failed read, the child
      has received the whole decoded body; for a stream that starts with a well-formed chunked body
      that is exactly its data. */
  lemma ClosedMeansDelivered(b: Body, beyond: bytes, es: seq<Env>)
    requires WellFormedBody(b) && LegibleBody(b)
    requires var i := Run(Init(-1, true), es).inb;
             i.consumed <= BodyText(b) + beyond && i.stdinClosed && !i.pipeFailed && !i.broken
    ensures Run(Init(-1, true), es).inb.written == ChunksData(b.chunks)
  {
    hide Init, Run, FeedAll, BodyText, WellFormedBody, LegibleBody;
    var i := Run(Init(-1, true), es).inb;
    var all := BodyText(b) + beyond;
    FeedBody(b);
    FeedConcat(CHUNKED, BodyText(b), beyond);
    var after := FeedAll(CHUNKED, BodyText(b)).reader;
    FeedDone(after, beyond);
    var rest := all[|i.consumed|..];
    assert all == i.consumed + rest;
    ChildGetsBody(-1, true, es);
    InitHolds(-1, true);
    RunKeeps(Init(-1, true), es);
    RunBody(CHUNKED, Init(-1, true), es);
    FeedConcat(CHUNKED, i.consumed, rest);
    FeedDone(i.reader, rest);
    assert i.written + [] == i.written;
    assert ChunksData(b.chunks) + [] == ChunksData(b.chunks);
    assert FeedAll(CHUNKED, i.consumed).out + [] == FeedAll(CHUNKED, i.consumed).out;
  }

  /** The same for a body of Content-Length n. */
  lemma ClosedMeansDeliveredLength(n: nat, stream: bytes, es: seq<Env>)
    requires 0 < n <= |stream|
    requires var i := Run(Init(n, false), es).inb;
             i.consumed <= stream && i.stdinClosed && !i.pipeFailed && !i.broken
    ensures Run(Init(n, false), es).inb.written == stream[..n]
  {
    hide Init, Run, FeedAll;
    var r0 := Start(n, false);
    var i := Run(Init(n, false), es).inb;
    FeedLength(n, stream);
    var rest := stream[|i.consumed|..];
    assert stream == i.consumed + rest;
    InitHolds(n, false);
    RunKeeps(Init(n, false), es);
    RunBody(r0, Init(n, false), es);
    FeedConcat(r0, i.consumed, rest);
    FeedDone(i.reader, rest);
    assert i.written + [] == i.written;
    assert FeedAll(r0, i.consumed).out + [] == FeedAll(r0, i.consumed).out;
  }

  lemma {:induction false} KeptNonEmpty(rs: seq<Read>)
    requires forall k :: 0 <= k < |rs| ==> 0 < |rs[k].data| <= READ_CAP
    ensures forall k :: 0 <= k < |Kept(rs)| ==> 0 < |Kept(rs)[k]| <= READ_CAP
  {
    if rs != [] { KeptNonEmpty(rs[..|rs| - 1]); }
  }

  /** In every run that ends without an SSL error, what the client is sent is a chunked body that
      this program's own reader decodes to the stdout reads that fitted, in order, and is then
      done. This also describes the model's runs past the stdin buffer's bound, where C gives the
      program no meaning; StdinBound says which runs those are. */
  lemma OutputDecodes(contentLength: int, chunked: bool, es: seq<Env>)
    ensures var o := Run(Init(contentLength, chunked), es).outb;
            var f := FeedAll(CHUNKED, FinalOutput(o));
            f.out == Joined(Kept(o.outputs)) && f.reader.phase == Done && |o.queue| <= QUEUE_CAP
  {
    hide Init, Run, FeedAll, Frames, Kept, Joined, OpenInv, CloseInv;
    InitHolds(contentLength, chunked);
    RunKeeps(Init(contentLength, chunked), es);
    var o := Run(Init(contentLength, chunked), es).outb;
    KeptNonEmpty(o.outputs);
    FeedFramesAndLast(Kept(o.outputs));
  }

  lemma IterateOutputs(p: Pump, e: Env)
    ensures var o, arrived, data := p.outb.outputs, SslPart(p, e).outb.queue, PipeBytes(e.outRead);
            Iterate(p, e).outb.outputs == o ||
            (data != [] && Iterate(p, e).outb.outputs == o + [Read(data, |arrived| + |Frame(data)| <= QUEUE_CAP)])
  {
    hide ReadBody, FeedChild, CloseStdin, ReadWants, SslInSet, StdinInSet, Frame, PipeBytes;
  }

  lemma {:induction false} OutputsGrow(p: Pump, es: seq<Env>)
    ensures |p.outb.outputs| <= |Run(p, es).outb.outputs|
    ensures Run(p, es).outb.outputs[..|p.outb.outputs|] == p.outb.outputs
    decreases |es|
  {
    hide Iterate, Running;
    if es != [] && Running(p) {
      IterateOutputs(p, es[0]);
      OutputsGrow(Iterate(p, es[0]), es[1..]);
      var q := Iterate(p, es[0]).outb.outputs;
      assert q[..|p.outb.outputs|] == p.outb.outputs;
      assert Run(p, es).outb.outputs[..|q|][..|p.outb.outputs|] == Run(p, es).outb.outputs[..|p.outb.outputs|];
    }
  }

  /** In every run, read number `k` of stdout is what iteration `j` delivered, and it was kept if and
      only if its frame fitted the queue as that iteration's SSL_write had left it. */
  lemma {:induction false} DroppedOnlyWhenFull(p: Pump, es: seq<Env>, k: nat) returns (j: nat)
    requires |p.outb.outputs| <= k < |Run(p, es).outb.outputs|
    ensures j < |es| && Running(Run(p, es[..j])) && |Run(p, es[..j]).outb.outputs| == k
    ensures var arrived, data := SslPart(Run(p, es[..j]), es[j]).outb.queue, PipeBytes(es[j].outRead);
            Run(p, es).outb.outputs[k] == Read(data, |arrived| + |Frame(data)| <= QUEUE_CAP)
    decreases |es|
  {
    hide Iterate, Running, SslPart, PipeBytes, Frame;
    IterateOutputs(p, es[0]);
    var q := Iterate(p, es[0]);
    if |q.outb.outputs| <= k {
      var i := DroppedOnlyWhenFull(q, es[1..], k);
      j := i + 1;
      assert es[..j] == [es[0]] + es[1..][..i];
      assert es[..j][1..] == es[1..][..i];
    } else {
      j := 0;
      assert es[..0] == [];
      OutputsGrow(q, es[1..]);
      assert Run(p, es).outb.outputs[..|q.outb.outputs|][k] == q.outb.outputs[k];
    }
  }

  /** When the pump finds nothing to poll, only the child's exit is outstanding: waiting for it and
      leaving the loop loses nothing. */
  lemma NothingToPollMeansAlmostDone(contentLength: int, chunked: bool, es: seq<Env>, e: Env)
    requires var p := Run(Init(contentLength, chunked), es); Running(p) && NothingToPoll(p, e)
    ensures var p := Run(Init(contentLength, chunked), es);
            !p.child.exited && Finished(p.(child := p.child.(exited := true)))
    ensures var p := Run(Init(contentLength, chunked), es); e.exited.Some? ==> Finished(Iterate(p, e))
  {
    hide Init, Run, QueueInv;
    InitHolds(contentLength, chunked);
    RunKeeps(Init(contentLength, chunked), es);
  }
}
