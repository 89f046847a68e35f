/** The 65536-byte stdin buffer of exec_run_pipe: which runs respect it, exactly, and one that does
    not. A C program that writes past the buffer has no defined behaviour; the model goes on with a
    longer buffer, so that the first step past the bound can be named. */
module StdinBound {
  import opened Bytes
  import opened BodyReader
  import opened PumpModel
  import opened PumpRuns

  /** The length asked for is at most the free space, whenever data would be read. */
  ghost predicate WithinSpace(i: Inbound) {
    i.reader.phase == Data && |i.stdinBuf| < STDIN_CAP ==> Asked(i) <= STDIN_CAP - |i.stdinBuf|
  }

  /** Every iteration of the run asks for no more than is free. */
  ghost predicate Respectful(p: Pump, es: seq<Env>)
    decreases |es|
  {
    es == [] || !Running(p) || (WithinSpace(p.inb) && Respectful(Iterate(p, es[0]), es[1..]))
  }

  // ---- one read ----

  /** Data reads keep the buffer inside its 65536 bytes, whatever arrives, exactly when the length
      asked for is at most the free space; a remaining count that does not wrap guarantees it. */
  lemma DataReadBound(i: Inbound)
    requires i.reader.phase == Data && |i.stdinBuf| < STDIN_CAP
    ensures WithinSpace(i) <==> forall r: SslRead {:trigger ReadBody(i, r)} :: |ReadBody(i, r).stdinBuf| <= STDIN_CAP
    ensures !Wraps(i.reader.remaining) ==> WithinSpace(i)
  {
    if !Wraps(i.reader.remaining) { CountFits(i); }
    hide Asked, Wraps;
    if !WithinSpace(i) {
      var r := Got(seq(Asked(i), _ => 0));
      assert |ReadBody(i, r).stdinBuf| > STDIN_CAP;
    }
  }

  lemma CountFits(i: Inbound)
    requires !Wraps(i.reader.remaining)
    ensures WithinSpace(i)
  {}

  lemma ReadBodyBound(i: Inbound, r: SslRead)
    requires |i.stdinBuf| <= STDIN_CAP && WithinSpace(i)
    ensures |ReadBody(i, r).stdinBuf| <= STDIN_CAP
  {
    hide Asked, Feed;
  }

  lemma IterateBound(p: Pump, e: Env)
    requires |p.inb.stdinBuf| <= STDIN_CAP && WithinSpace(p.inb)
    ensures |Iterate(p, e).inb.stdinBuf| <= STDIN_CAP
  {
    hide WithinSpace, ReadBody, FeedChild, CloseStdin, QueueOutput, WriteOutput, ReadWants, SslInSet, NothingToPoll, StdinInSet;
    ReadBodyBound(p.inb, e.sslRead);
    var q := SslPart(p, e);
    ChildOnlyTakes(q.inb, e.pipeWrite);
    ChildOnlyTakes(FeedChild(q.inb, e.pipeWrite), e.pipeWrite);
  }

  /** The child's half leaves the reader alone and only empties the buffer. */
  lemma ChildOnlyTakes(i: Inbound, w: PipeWrite)
    ensures FeedChild(i, w).reader == CloseStdin(i).reader == i.reader && |FeedChild(i, w).stdinBuf| <= |i.stdinBuf|
    ensures FeedChild(i, w).consumed == CloseStdin(i).consumed == i.consumed && CloseStdin(i).stdinBuf == i.stdinBuf
  {}

  // ---- whole runs ----

  lemma {:induction false} RunBound(p: Pump, es: seq<Env>)
    requires |p.inb.stdinBuf| <= STDIN_CAP && Respectful(p, es)
    ensures |Run(p, es).inb.stdinBuf| <= STDIN_CAP
    decreases |es|
  {
    hide Iterate, WithinSpace;
    if es != [] && Running(p) {
      IterateBound(p, es[0]);
      RunBound(Iterate(p, es[0]), es[1..]);
    }
  }

  lemma {:induction false} RunConcat(p: Pump, es: seq<Env>, fs: seq<Env>)
    ensures Run(p, es + fs) == Run(Run(p, es), fs)
    decreases |es|
  {
    hide Iterate, Running;
    if es == [] {
      assert es + fs == fs;
    } else if Running(p) {
      assert (es + fs)[1..] == es[1..] + fs;
      RunConcat(Iterate(p, es[0]), es[1..], fs);
    }
  }

  /** A read that gets all it asks for while the child takes nothing. */
  function Reading(data: bytes): Env {
    Env(true, Ready, true, false, false, false, false, Got(data), Sent(0), Again, Ended, Ended, None)
  }

  lemma ReadsAll(p: Pump)
    requires Running(p) && !WithinSpace(p.inb)
    ensures var e := Reading(seq(Asked(p.inb), _ => 0)); |Run(p, [e]).inb.stdinBuf| > STDIN_CAP
  {
    hide Asked;
    var data: bytes := seq(Asked(p.inb), _ => 0);
    var q := Iterate(p, Reading(data));
    assert Run(p, [Reading(data)]) == Run(q, []) by { assert [Reading(data)][1..] == []; }
    assert q.inb == CloseStdin(ReadBody(p.inb, Got(data)));
  }

  /** A run that asks for more than is free can be turned into one that overfills the buffer. */
  lemma {:induction false} Overfills(p: Pump, es: seq<Env>) returns (fs: seq<Env>)
    requires !Respectful(p, es)
    ensures |Run(p, fs).inb.stdinBuf| > STDIN_CAP
    decreases |es|
  {
    hide Iterate, WithinSpace;
    if !WithinSpace(p.inb) {
      fs := [Reading(seq(if Asked(p.inb) > 0 then Asked(p.inb) else 0, _ => 0))];
      assert Asked(p.inb) > 0 by { hide *; AsksTooMuch(p.inb); }
      ReadsAll(p);
    } else {
      var more := Overfills(Iterate(p, es[0]), es[1..]);
      fs := [es[0]] + more;
      assert fs[1..] == more;
    }
  }

  lemma AsksTooMuch(i: Inbound)
    requires !WithinSpace(i)
    ensures Asked(i) > 0
  {}

  /** The bound holds in all runs exactly if all runs ask for no more than is free. */
  lemma BoundExactly(p: Pump)
    requires |p.inb.stdinBuf| <= STDIN_CAP
    ensures (forall es :: |Run(p, es).inb.stdinBuf| <= STDIN_CAP) <==> (forall es :: Respectful(p, es))
  {
    hide Run, Respectful;
    if es :| !Respectful(p, es) {
      var fs := Overfills(p, es);
      assert |Run(p, fs).inb.stdinBuf| > STDIN_CAP;
    } else {
      forall es ensures |Run(p, es).inb.stdinBuf| <= STDIN_CAP { RunBound(p, es); }
    }
  }

  // ---- size lines that do not wrap ----

  lemma TakeByteSound(i: Inbound, b: byte)
    requires Sound(i.reader) && i.reader.phase != Data && Honest(i.reader, [b])
    ensures Sound(TakeByte(i, b).reader)
  {
    FeedSound(i.reader, b);
  }

  /** A body step keeps the reader sound when it is honest about the bytes it takes. */
  lemma ReadBodySound(r0: Reader, i: Inbound, r: SslRead)
    requires BodyInv(r0, i) && Sound(i.reader) && Honest(r0, ReadBody(i, r).consumed)
    ensures Sound(ReadBody(i, r).reader)
  {
    hide FeedAll, Honest, Feed, Asked, Strtol16, Wraps;
    if Reads(i) {
      if i.reader.phase == Data {
        PositiveIfDelivered(i, r);
      } else {
        var data := Delivery(r, 1);
        if data != [] {
          assert data == [data[0]];
          HonestConcat(r0, i.consumed, data);
          TakeByteSound(i, data[0]);
        }
      }
    }
  }

  lemma PositiveIfDelivered(i: Inbound, r: SslRead)
    requires i.reader.phase == Data && Sound(i.reader) && |i.stdinBuf| < STDIN_CAP
    ensures Delivery(r, Asked(i)) != [] ==> 0 < |Delivery(r, Asked(i))| <= i.reader.remaining
    ensures forall v :: v >= 0 ==> !Wraps(v)
  {}

  lemma IterateSound(r0: Reader, p: Pump, e: Env)
    requires BodyInv(r0, p.inb) && Sound(p.inb.reader) && Honest(r0, Iterate(p, e).inb.consumed)
    ensures Sound(Iterate(p, e).inb.reader)
  {
    hide FeedAll, Honest, Sound, ReadBody, FeedChild, CloseStdin, QueueOutput, WriteOutput, ReadWants, SslInSet, BodyInv;
    if !NothingToPoll(p, e) && e.poll == Ready {
      var q := SslPart(p, e);
      ChildOnlyTakes(q.inb, e.pipeWrite);
      ChildOnlyTakes(FeedChild(q.inb, e.pipeWrite), e.pipeWrite);
      if q.inb != p.inb { ReadBodySound(r0, p.inb, e.sslRead); }
    }
  }

  lemma SoundFits(i: Inbound)
    requires Sound(i.reader)
    ensures WithinSpace(i)
  {
    if i.reader.phase == Data { CountFits(i); }
  }

  lemma {:induction false} HonestRespects(r0: Reader, p: Pump, es: seq<Env>)
    requires BodyInv(r0, p.inb) && Sound(p.inb.reader) && Honest(r0, Run(p, es).inb.consumed)
    ensures Respectful(p, es)
    decreases |es|
  {
    hide BodyInv, Sound, Honest, Iterate, WithinSpace;
    if es != [] && Running(p) {
      var q := Iterate(p, es[0]);
      var more := RunGrows(q, es[1..]);
      HonestConcat(r0, q.inb.consumed, more);
      SoundFits(p.inb);
      IterateSound(r0, p, es[0]);
      IterateBody(r0, p, es[0]);
      HonestRespects(r0, q, es[1..]);
    }
  }

  lemma SoundStart(contentLength: int, chunked: bool)
    ensures Sound(Init(contentLength, chunked).inb.reader) && Init(contentLength, chunked).inb.stdinBuf == []
  {}

  /** In every run in which no size line gives a count that wraps, the buffer never exceeds its
      65536 bytes. */
  lemma BufferBound(contentLength: int, chunked: bool, es: seq<Env>)
    requires Honest(Start(contentLength, chunked), Run(Init(contentLength, chunked), es).inb.consumed)
    ensures Respectful(Init(contentLength, chunked), es)
    ensures |Run(Init(contentLength, chunked), es).inb.stdinBuf| <= STDIN_CAP
  {
    hide Init, Run, FeedAll, Honest, Respectful, Sound, BodyInv;
    InitHolds(contentLength, chunked);
    SoundStart(contentLength, chunked);
    HonestRespects(Start(contentLength, chunked), Init(contentLength, chunked), es);
    RunBound(Init(contentLength, chunked), es);
  }

  /** So for every run that reads from a well-formed body with legible size lines, and from every
      body with a Content-Length. */
  lemma WellFormedRespects(b: Body, beyond: bytes, es: seq<Env>)
    requires WellFormedBody(b) && LegibleBody(b) && Run(Init(-1, true), es).inb.consumed <= BodyText(b) + beyond
    ensures Respectful(Init(-1, true), es) && |Run(Init(-1, true), es).inb.stdinBuf| <= STDIN_CAP
  {
    hide Init, Run, FeedAll, Honest, BodyText, WellFormedBody, LegibleBody, Respectful;
    var consumed, all := Run(Init(-1, true), es).inb.consumed, BodyText(b) + beyond;
    FeedBody(b);
    HonestConcat(CHUNKED, BodyText(b), beyond);
    DoneHonest(FeedAll(CHUNKED, BodyText(b)).reader, beyond);
    assert all == consumed + all[|consumed|..];
    HonestConcat(CHUNKED, consumed, all[|consumed|..]);
    BufferBound(-1, true, es);
  }

  // ---- negative counts ----

  /** A negative count respects the buffer for good: it asks for at most one byte or what is free,
      or the buffer is full and the child takes nothing any more. */
  ghost predicate Harmless(i: Inbound) {
    ToInt(i.reader.remaining) <= Max(1, STDIN_CAP - |i.stdinBuf|) || (i.stdinClosed && |i.stdinBuf| == STDIN_CAP)
  }

  /** The body has ended or its last count is negative and harmless. */
  ghost predicate Overdue(i: Inbound) {
    |i.stdinBuf| <= STDIN_CAP &&
    (i.reader.phase == Done || (i.reader.phase == Data && i.reader.remaining < 0 && Harmless(i)))
  }

  lemma CountOff(v: int, n: nat)
    requires v < 0 && n <= Max(0, ToInt(v))
    ensures ToInt(v - n) == ToInt(v) - n
  {}

  lemma ReadBodyOverdue(i: Inbound, r: SslRead)
    requires Overdue(i)
    ensures Overdue(ReadBody(i, r))
  {
    if Reads(i) {
      assert Asked(i) == ToInt(i.reader.remaining);
      hide ToInt, Asked;
      var data := Delivery(r, Asked(i));
      CountOff(i.reader.remaining, |data|);
    }
  }

  lemma FeedChildOverdue(i: Inbound, w: PipeWrite)
    requires Overdue(i) && !i.stdinClosed
    ensures Overdue(FeedChild(i, w))
  {
    hide ToInt;
  }

  lemma IterateOverdue(p: Pump, e: Env)
    requires Overdue(p.inb)
    ensures Overdue(Iterate(p, e).inb)
  {
    hide Overdue, ReadBody, FeedChild, QueueOutput, WriteOutput, ReadWants, SslInSet;
    if !NothingToPoll(p, e) && e.poll == Ready {
      ReadBodyOverdue(p.inb, e.sslRead);
      var q := SslPart(p, e);
      if !q.inb.stdinClosed { FeedChildOverdue(q.inb, e.pipeWrite); }
      CloseStdinOverdue(q.inb);
      CloseStdinOverdue(FeedChild(q.inb, e.pipeWrite));
    }
  }

  lemma CloseStdinOverdue(i: Inbound)
    ensures Overdue(i) ==> Overdue(CloseStdin(i))
  {}

  /** A negative count that asks for no more than is free never overfills the buffer. */
  lemma {:induction false} RunOverdue(p: Pump, es: seq<Env>)
    requires Overdue(p.inb)
    ensures |Run(p, es).inb.stdinBuf| <= STDIN_CAP
    decreases |es|
  {
    hide Iterate;
    if es != [] && Running(p) {
      IterateOverdue(p, es[0]);
      RunOverdue(Iterate(p, es[0]), es[1..]);
    }
  }

  /** The child takes one byte and nothing else happens. */
  const DRAINING: Env := Env(false, Ready, false, false, true, false, false, ReadWantsRead, Sent(0), Wrote(1), Ended, Ended, None)

  lemma DrainsOne(p: Pump)
    requires Running(p) && !p.inb.stdinClosed && |p.inb.stdinBuf| == STDIN_CAP
    ensures var q := Iterate(p, DRAINING);
            Running(q) && q.inb.reader == p.inb.reader && |q.inb.stdinBuf| == STDIN_CAP - 1 && Run(p, [DRAINING]) == q
  {
    var q := Iterate(p, DRAINING);
    assert Run(p, [DRAINING]) == Run(q, []) by { assert [DRAINING][1..] == []; }
  }

  /** Exactly which negative counts respect the buffer: with one due, every continuation keeps the
      65536-byte bound if and only if its conversion to int is at most the free space, or at most
      one byte when the buffer is full, or the full buffer can no longer drain. */
  lemma NegativeCount(p: Pump)
    requires Running(p) && p.inb.reader.phase == Data && p.inb.reader.remaining < 0 && |p.inb.stdinBuf| <= STDIN_CAP
    ensures (forall es :: |Run(p, es).inb.stdinBuf| <= STDIN_CAP) <==> Harmless(p.inb)
  {
    AskedIsCount(p.inb);
    hide Run, Running, Harmless;
    if Harmless(p.inb) {
      forall es ensures |Run(p, es).inb.stdinBuf| <= STDIN_CAP { RunOverdue(p, es); }
    } else if |p.inb.stdinBuf| < STDIN_CAP {
      var e := TooMuch(p);
      assert |Run(p, [e]).inb.stdinBuf| > STDIN_CAP;
    } else {
      HarmlessWhenFull(p.inb);
      DrainsOne(p);
      var q := Iterate(p, DRAINING);
      AskedIsCount(q.inb);
      var e := TooMuch(q);
      RunConcat(p, [DRAINING], [e]);
      assert |Run(p, [DRAINING] + [e]).inb.stdinBuf| > STDIN_CAP;
    }
  }

  lemma HarmlessWhenFull(i: Inbound)
    requires !Harmless(i) && |i.stdinBuf| == STDIN_CAP
    ensures !i.stdinClosed && ToInt(i.reader.remaining) > 1
  {}

  lemma AskedIsCount(i: Inbound)
    ensures i.reader.remaining < 0 && |i.stdinBuf| < STDIN_CAP ==> Asked(i) == ToInt(i.reader.remaining)
    ensures |i.stdinBuf| < STDIN_CAP ==> (Harmless(i) <==> ToInt(i.reader.remaining) <= STDIN_CAP - |i.stdinBuf|)
  {}

  lemma TooMuch(p: Pump) returns (e: Env)
    requires Running(p) && p.inb.reader.phase == Data && |p.inb.stdinBuf| < STDIN_CAP && Asked(p.inb) > STDIN_CAP - |p.inb.stdinBuf|
    ensures |Run(p, [e]).inb.stdinBuf| > STDIN_CAP
  {
    hide Asked;
    e := Reading(seq(Asked(p.inb), _ => 0));
    ReadsAll(p);
  }

  // ---- a negative count behind legible chunks ----

  /** The bytes consumed are the stream's, as far as it goes. */
  ghost predicate Along(consumed: bytes, stream: bytes) {
    if |consumed| <= |stream| then stream[..|consumed|] == consumed else consumed[..|stream|] == stream
  }

  /** Well-formed legible chunks, and a further size line without its line feed. */
  function Ahead(cs: seq<Chunk>, line: bytes): bytes { ChunksText(cs) + line }

  ghost predicate LegibleChunks(cs: seq<Chunk>) {
    forall k :: 0 <= k < |cs| ==> WellFormedChunk(cs[k]) && LegibleChunk(cs[k])
  }

  lemma FeedAhead(cs: seq<Chunk>, line: bytes)
    requires LegibleChunks(cs) && LF !in line && Strtol16(Take(line, HEADER_CAP)) != 0
    ensures FeedAll(CHUNKED, Ahead(cs, line)).reader.phase == Header && FeedAll(CHUNKED, Ahead(cs, line)).out == ChunksData(cs)
    ensures FeedAll(CHUNKED, Ahead(cs, line) + [LF]) == Fed(Reader(true, Data, Strtol16(Take(line, HEADER_CAP)), []), ChunksData(cs))
  {
    hide FeedAll, Strtol16, Take, Honest, WellFormedChunk, LegibleChunk, ChunksText;
    FeedChunks(CHUNKED, cs);
    var r := FeedAll(CHUNKED, ChunksText(cs)).reader;
    FeedLine(r, line);
    FeedConcat(CHUNKED, ChunksText(cs), line);
    assert [] + line == line && ChunksData(cs) + [] == ChunksData(cs);
    FeedConcat(CHUNKED, Ahead(cs, line), [LF]);
    FeedOne(FeedAll(CHUNKED, Ahead(cs, line)).reader, LF);
  }

  /** Data that is due ends before the size line does. */
  lemma DataInside(r: Reader, t: bytes)
    requires FeedAll(r, t).reader.phase == Header && r.phase == Data && r.remaining != 0
    ensures 0 < r.remaining <= |t|
  {
    hide FeedAll;
    if r.remaining < 0 {
      FeedOverdue(r, t);
    } else if t == [] {
      NothingFed(r);
    } else if |t| < r.remaining {
      FeedData(r, t);
    }
  }

  lemma AlongPrefix(consumed: bytes, more: bytes, stream: bytes)
    requires Along(consumed + more, stream)
    ensures Along(consumed, stream)
  {
    var all := consumed + more;
    if |consumed| <= |stream| {
      forall k | 0 <= k < |consumed| ensures stream[k] == consumed[k] {
        assert all[k] == consumed[k];
        assert if |all| <= |stream| then stream[..|all|][k] == all[k] else all[..|stream|][k] == stream[k];
      }
    } else {
      assert all[..|stream|] == consumed[..|stream|];
    }
  }

  /** `ahead` leads to a size line's end, which makes a count of `v` due; it holds `d` bytes of data. */
  ghost predicate Announces(ahead: bytes, v: int, d: nat) {
    v < 0 && FeedAll(CHUNKED, ahead).reader.phase == Header &&
    FeedAll(CHUNKED, ahead + [LF]).reader == Reader(true, Data, v, []) && |FeedAll(CHUNKED, ahead + [LF]).out| == d
  }

  /** The run is still ahead of the line feed. */
  ghost predicate Inside(ahead: bytes, i: Inbound) {
    BodyInv(CHUNKED, i) && |i.stdinBuf| <= STDIN_CAP && |i.consumed| <= |ahead| && ahead[..|i.consumed|] == i.consumed
  }

  lemma InsideWithin(ahead: bytes, i: Inbound)
    requires Inside(ahead, i) && FeedAll(CHUNKED, ahead).reader.phase == Header
    ensures WithinSpace(i) && (i.reader.phase == Data ==> 0 < i.reader.remaining <= |ahead| - |i.consumed|)
  {
    hide FeedAll;
    if i.reader.phase == Data {
      var t := ahead[|i.consumed|..];
      assert ahead == i.consumed + t;
      FeedConcat(CHUNKED, i.consumed, t);
      DataInside(i.reader, t);
      CountFits(i);
    }
  }

  /** One read stays ahead of the line feed, or it is the line feed. */
  lemma ReadInside(ahead: bytes, i: Inbound, r: SslRead)
    requires Inside(ahead, i) && FeedAll(CHUNKED, ahead).reader.phase == Header
    requires Along(ReadBody(i, r).consumed, ahead + [LF])
    ensures var j := ReadBody(i, r);
            Inside(ahead, j) ||
            (BodyInv(CHUNKED, j) && !j.broken && j.consumed == ahead + [LF] && |j.stdinBuf| <= STDIN_CAP)
  {
    hide FeedAll, Feed, Asked, Strtol16, BodyInv;
    var j := ReadBody(i, r);
    InsideWithin(ahead, i);
    ReadBodyKeeps(CHUNKED, i, r);
    ReadBodyBound(i, r);
    if PumpModel.Reads(i) {
      assert !i.broken by { NotBroken(i); }
      if i.reader.phase == Data { DeliveryWithin(i, r); }
      if |j.consumed| <= |ahead| {
        assert (ahead + [LF])[..|j.consumed|] == ahead[..|j.consumed|];
      }
    }
  }

  lemma NotBroken(i: Inbound)
    requires BodyInv(CHUNKED, i) && i.reader.phase != Done
    ensures !i.broken
  {}

  /** Behind the line feed the count is due, and the buffer holds no more than the data so far. */
  lemma CountIsDue(ahead: bytes, v: int, d: nat, i: Inbound)
    requires Announces(ahead, v, d) && ToInt(v) <= Max(1, STDIN_CAP - Min(d, STDIN_CAP))
    requires BodyInv(CHUNKED, i) && !i.broken && i.consumed == ahead + [LF] && |i.stdinBuf| <= STDIN_CAP
    ensures Overdue(i)
  {
    hide FeedAll, ToInt;
    assert |i.written + i.stdinBuf| == d;
  }

  lemma IterateInside(ahead: bytes, v: int, d: nat, p: Pump, e: Env)
    requires Announces(ahead, v, d) && ToInt(v) <= Max(1, STDIN_CAP - Min(d, STDIN_CAP))
    requires Inside(ahead, p.inb) && Along(Iterate(p, e).inb.consumed, ahead + [LF])
    ensures Inside(ahead, Iterate(p, e).inb) || Overdue(Iterate(p, e).inb)
  {
    hide Announces, Inside, Overdue, ReadBody, FeedChild, CloseStdin, QueueOutput, WriteOutput, ReadWants, SslInSet, ToInt, Along, BodyInv;
    if !NothingToPoll(p, e) && e.poll == Ready {
      var q := SslPart(p, e);
      ChildOnlyTakes(q.inb, e.pipeWrite);
      ChildOnlyTakes(FeedChild(q.inb, e.pipeWrite), e.pipeWrite);
      if q.inb != p.inb {
        assert FeedAll(CHUNKED, ahead).reader.phase == Header by { Before(ahead, v, d); }
        ReadInside(ahead, p.inb, e.sslRead);
        if !Inside(ahead, q.inb) { CountIsDue(ahead, v, d, q.inb); }
      }
      ChildInside(ahead, q.inb, e.pipeWrite);
      if Overdue(q.inb) && !q.inb.stdinClosed { FeedChildOverdue(q.inb, e.pipeWrite); }
      CloseStdinOverdue(q.inb);
      CloseStdinOverdue(FeedChild(q.inb, e.pipeWrite));
      CloseInside(ahead, q.inb);
      CloseInside(ahead, FeedChild(q.inb, e.pipeWrite));
    }
  }

  lemma Before(ahead: bytes, v: int, d: nat)
    requires Announces(ahead, v, d)
    ensures FeedAll(CHUNKED, ahead).reader.phase == Header
  {}

  lemma ChildInside(ahead: bytes, i: Inbound, w: PipeWrite)
    ensures Inside(ahead, i) ==> Inside(ahead, FeedChild(i, w))
  {
    hide FeedAll, FeedChild, BodyInv;
    ChildOnlyTakes(i, w);
    if Inside(ahead, i) { FeedChildKeeps(CHUNKED, i, w); }
  }

  lemma CloseInside(ahead: bytes, i: Inbound)
    ensures Inside(ahead, i) ==> Inside(ahead, CloseStdin(i))
  {
    hide FeedAll;
  }

  lemma {:induction false} RunInside(ahead: bytes, v: int, d: nat, p: Pump, es: seq<Env>)
    requires Announces(ahead, v, d) && ToInt(v) <= Max(1, STDIN_CAP - Min(d, STDIN_CAP))
    requires Inside(ahead, p.inb) && Along(Run(p, es).inb.consumed, ahead + [LF])
    ensures |Run(p, es).inb.stdinBuf| <= STDIN_CAP
    decreases |es|
  {
    hide Announces, Overdue, Iterate, Along, ToInt, BodyInv;
    if es != [] && Running(p) {
      var q := Iterate(p, es[0]);
      var more := RunGrows(q, es[1..]);
      AlongPrefix(q.inb.consumed, more, ahead + [LF]);
      IterateInside(ahead, v, d, p, es[0]);
      if Inside(ahead, q.inb) { RunInside(ahead, v, d, q, es[1..]); } else { RunOverdue(q, es[1..]); }
    }
  }

  // ---- a run that fills the buffer ----

  /** A pump of which only the body has moved. */
  function Moved(i: Inbound): Pump {
    Pump(i, Outbound([], [], [], false), Wants(false, false), Child(false, false, false, -1), false)
  }

  /** The body is open, and the child has been given nothing before the buffer was full. */
  ghost predicate Filling(i: Inbound) {
    !i.bodyEof && !i.stdinClosed && !i.broken && !i.pipeFailed &&
    |i.stdinBuf| <= STDIN_CAP && (i.written == [] || |i.stdinBuf| == STDIN_CAP)
  }

  /** One byte is read while nothing else happens. */
  lemma ReadsByte(i: Inbound, b: byte)
    requires !i.bodyEof && i.reader.phase != Done && Feed(i.reader, b).reader.phase != Done
    requires i.reader.phase == Data ==> |i.stdinBuf| < STDIN_CAP && i.reader.remaining > 0
    ensures Iterate(Moved(i), Reading([b])) ==
            Moved(i.(reader := Feed(i.reader, b).reader, stdinBuf := i.stdinBuf + Feed(i.reader, b).out, consumed := i.consumed + [b]))
  {
    hide Strtol16;
    if i.reader.phase == Data { AsksForSome(i); } else { assert i.stdinBuf + [] == i.stdinBuf; }
    assert Delivery(Got([b]), if i.reader.phase == Data then Asked(i) else 1) == [b];
    hide Asked, Delivery;
    assert ReadBody(i, Got([b])) == if i.reader.phase == Data then TakeData(i, [b]) else TakeByte(i, b);
  }

  lemma AsksForSome(i: Inbound)
    requires |i.stdinBuf| < STDIN_CAP && i.reader.remaining > 0
    ensures Asked(i) >= 1
  {}

  /** The child takes one byte of the full buffer while nothing else happens. */
  lemma ChildTakesOne(i: Inbound)
    requires !i.bodyEof && !i.stdinClosed && |i.stdinBuf| == STDIN_CAP
    ensures Iterate(Moved(i), DRAINING) == Moved(i.(stdinBuf := i.stdinBuf[1..], written := i.written + i.stdinBuf[..1]))
  {}

  lemma RunOne(p: Pump, e: Env)
    requires Running(p)
    ensures Run(p, [e]) == Iterate(p, e)
  {
    hide Iterate;
    assert [e][1..] == [];
    assert Run(Iterate(p, e), []) == Iterate(p, e);
  }

  /** One byte arrives, the child taking one first if the buffer is full. */
  lemma Arrives(i: Inbound, b: byte) returns (es: seq<Env>, j: Inbound)
    requires Filling(i) && i.reader.phase != Done && Feed(i.reader, b).reader.phase != Done
    requires i.reader.phase == Data ==> i.reader.remaining > 0
    ensures Run(Moved(i), es) == Moved(j) && Filling(j)
    ensures j.reader == Feed(i.reader, b).reader && j.consumed == i.consumed + [b]
    ensures |j.written| + |j.stdinBuf| == |i.written| + |i.stdinBuf| + |Feed(i.reader, b).out|
  {
    var r := Feed(i.reader, b);
    assert r.out == if i.reader.phase == Data then [b] else [];
    hide Iterate, Feed;
    if i.reader.phase == Data && |i.stdinBuf| == STDIN_CAP {
      ChildTakesOne(i);
      var k := i.(stdinBuf := i.stdinBuf[1..], written := i.written + i.stdinBuf[..1]);
      ReadsByte(k, b);
      RunOne(Moved(i), DRAINING);
      RunOne(Moved(k), Reading([b]));
      RunConcat(Moved(i), [DRAINING], [Reading([b])]);
      es := [DRAINING] + [Reading([b])];
      j := k.(reader := r.reader, stdinBuf := k.stdinBuf + r.out, consumed := k.consumed + [b]);
    } else {
      ReadsByte(i, b);
      RunOne(Moved(i), Reading([b]));
      es := [Reading([b])];
      j := i.(reader := r.reader, stdinBuf := i.stdinBuf + r.out, consumed := i.consumed + [b]);
    }
  }

  /** So does everything up to the count, and what the buffer can hold of the data is in it. */
  lemma {:induction false} AllArrives(i: Inbound, t: bytes) returns (es: seq<Env>, j: Inbound)
    requires Filling(i) && FeedAll(i.reader, t).reader.phase == Header && (i.reader.phase == Data ==> i.reader.remaining != 0)
    requires FeedAll(i.reader, t + [LF]).reader.phase == Data
    ensures Run(Moved(i), es) == Moved(j) && Filling(j)
    ensures j.reader == FeedAll(i.reader, t + [LF]).reader && j.consumed == i.consumed + (t + [LF])
    ensures |j.written| + |j.stdinBuf| == |i.written| + |i.stdinBuf| + |FeedAll(i.reader, t + [LF]).out|
    decreases |t|
  {
    hide *;
    var s := t + [LF];
    StaysPositive(i.reader, t);
    FirstFed(i.reader, s);
    es, j := Arrives(i, s[0]);
    if t == [] {
      assert s == [LF];
      FeedOne(i.reader, LF);
    } else {
      assert s[0] == t[0] && s[1..] == t[1..] + [LF];
      var k := j;
      var more;
      more, j := AllArrives(k, t[1..]);
      RunConcat(Moved(i), es, more);
      es := es + more;
      assert i.consumed + [s[0]] + s[1..] == i.consumed + s;
    }
  }

  lemma FirstFed(r: Reader, s: bytes)
    requires s != []
    ensures FeedAll(r, s).reader == FeedAll(Feed(r, s[0]).reader, s[1..]).reader
    ensures |FeedAll(r, s).out| == |Feed(r, s[0]).out| + |FeedAll(Feed(r, s[0]).reader, s[1..]).out|
  {
    hide Feed;
  }

  lemma StaysPositive(r: Reader, t: bytes)
    requires FeedAll(r, t).reader.phase == Header && (r.phase == Data ==> r.remaining != 0)
    requires FeedAll(r, t + [LF]).reader.phase == Data
    ensures r.phase != Done && Feed(r, (t + [LF])[0]).reader.phase != Done
    ensures var r' := Feed(r, (t + [LF])[0]).reader; r'.phase == Data ==> r'.remaining != 0
    ensures r.phase == Data ==> r.remaining > 0
    ensures t != [] ==> FeedAll(Feed(r, t[0]).reader, t[1..]).reader.phase == Header
  {
    var s := t + [LF];
    assert FeedAll(r, s).reader == FeedAll(Feed(r, s[0]).reader, s[1..]).reader;
    hide FeedAll, Strtol16;
    if r.phase == Done { FeedDone(r, t); }
    if Feed(r, s[0]).reader.phase == Done { FeedDone(Feed(r, s[0]).reader, s[1..]); }
    if r.phase == Data { DataInside(r, t); }
  }

  // ---- exactly ----

  /** Which negative counts behind a body of legible chunks respect the buffer: all runs over such a
      stream keep the 65536 bytes if and only if the count's conversion to int is at most what the
      data so far leaves free, or at most one byte. */
  lemma CountAfterChunks(cs: seq<Chunk>, line: bytes)
    requires LegibleChunks(cs) && LF !in line && Strtol16(Take(line, HEADER_CAP)) < 0
    ensures (forall es :: Along(Run(Init(-1, true), es).inb.consumed, Ahead(cs, line) + [LF]) ==>
                            |Run(Init(-1, true), es).inb.stdinBuf| <= STDIN_CAP) <==>
            ToInt(Strtol16(Take(line, HEADER_CAP))) <= Max(1, STDIN_CAP - Min(|ChunksData(cs)|, STDIN_CAP))
  {
    hide Take, Strtol16, ToInt, Run, FeedAll, LegibleChunks, ChunksText, ChunksData, Along, Ahead;
    var v, ahead, d := Strtol16(Take(line, HEADER_CAP)), Ahead(cs, line), |ChunksData(cs)|;
    FeedAhead(cs, line);
    if ToInt(v) <= Max(1, STDIN_CAP - Min(d, STDIN_CAP)) {
      StartsInside(ahead);
      forall es | Along(Run(Init(-1, true), es).inb.consumed, ahead + [LF])
        ensures |Run(Init(-1, true), es).inb.stdinBuf| <= STDIN_CAP
      {
        RunInside(ahead, v, d, Init(-1, true), es);
      }
    } else {
      var es := FillsAndBreaks(ahead, v, d);
      assert |Run(Init(-1, true), es).inb.stdinBuf| > STDIN_CAP;
    }
  }

  lemma StartsInside(ahead: bytes)
    ensures Inside(ahead, Init(-1, true).inb)
  {
    InitHolds(-1, true);
  }

  lemma FillsAndBreaks(ahead: bytes, v: int, d: nat) returns (es: seq<Env>)
    requires Announces(ahead, v, d) && ToInt(v) > Max(1, STDIN_CAP - Min(d, STDIN_CAP))
    ensures Along(Run(Init(-1, true), es).inb.consumed, ahead + [LF]) && |Run(Init(-1, true), es).inb.stdinBuf| > STDIN_CAP
  {
    hide Run, FeedAll, ToInt, Along;
    var i := Init(-1, true).inb;
    var first, j := AllArrives(i, ahead);
    assert Init(-1, true) == Moved(i);
    assert [] + (ahead + [LF]) == ahead + [LF];
    var q := Moved(j);
    assert Running(q);
    NegativeCount(q);
    var rest :| |Run(q, rest).inb.stdinBuf| > STDIN_CAP;
    es := first + rest;
    RunConcat(Moved(i), first, rest);
    var more := RunGrows(q, rest);
    AlongMore(ahead + [LF], more);
  }

  lemma AlongMore(stream: bytes, more: bytes)
    ensures Along(stream + more, stream)
  {}

  /** In particular, a body that starts with a negative count. */
  lemma FirstLineBound(line: bytes)
    requires LF !in line && Strtol16(Take(line, HEADER_CAP)) < 0
    ensures (forall es :: Along(Run(Init(-1, true), es).inb.consumed, line + [LF]) ==>
                            |Run(Init(-1, true), es).inb.stdinBuf| <= STDIN_CAP) <==>
            ToInt(Strtol16(Take(line, HEADER_CAP))) <= STDIN_CAP
  {
    hide Take, Strtol16, ToInt, Run, Along;
    CountAfterChunks([], line);
    assert Ahead([], line) == line;
  }

  /** The size line `-80000001`: its count converts to 2147483647. */
  const LARGE_LINE: bytes := [MINUS, 56] + Zeros(6) + [49]

  function ShiftUp(acc: nat, k: nat): nat
    decreases k
  {
    if k == 0 then acc else ShiftUp(acc * 16, k - 1)
  }

  lemma {:induction false} ZerosShift(k: nat, t: bytes, acc: nat)
    ensures HexRun(Zeros(k) + t, acc) == HexRun(t, ShiftUp(acc, k))
    decreases k
  {
    if k == 0 {
      assert Zeros(0) + t == t;
    } else {
      assert (Zeros(k) + t)[1..] == Zeros(k - 1) + t;
      ZerosShift(k - 1, t, acc * 16);
    }
  }

  lemma LargeCount()
    ensures Strtol16(Take(LARGE_LINE, HEADER_CAP)) == -0x8000_0001 && LF !in LARGE_LINE
    ensures ToInt(-0x8000_0001) == 0x7fff_ffff
  {
    var s := [56] + (Zeros(6) + [49]);
    assert LARGE_LINE == [MINUS] + s && LARGE_LINE[1..] == s;
    assert s[1..] == Zeros(6) + [49];
    ZerosShift(6, [49], 8);
    assert ShiftUp(8, 6) == ShiftUp(0x8000, 3) == 0x800_0000;
    assert [49][1..] == [];
    assert HexRun([49], 0x800_0000) == HexRun([], 0x8000_0001) == 0x8000_0001;
    assert HexRun(s, 0) == 0x8000_0001;
    assert SkipBlanks(LARGE_LINE) == LARGE_LINE;
  }

  /** There is a run that overfills the buffer. */
  lemma BoundBroken() returns (es: seq<Env>)
    ensures |Run(Init(-1, true), es).inb.stdinBuf| > STDIN_CAP
  {
    hide Run, ToInt, Strtol16, Along;
    LargeCount();
    FirstLineBound(LARGE_LINE);
    es :| |Run(Init(-1, true), es).inb.stdinBuf| > STDIN_CAP;
  }
}
