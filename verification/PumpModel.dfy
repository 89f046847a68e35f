/** exec_run_pipe's event loop as a state machine: one iteration of the loop per step, with the
    environment choosing what poll, TLS, the pipes and waitpid report. Raw mode. */
module PumpModel {
  import opened Bytes
  import opened BodyReader

  const STDIN_CAP: nat := 65536
  const QUEUE_CAP: nat := 131072
  const READ_CAP: nat := 65536

  // ---- the locals of exec_run_pipe, with what has happened so far ----

  /** From the client to the child: the body reader, stdin_buf, and the child's stdin.
      `broken`: the body ended by a failing SSL_read. `pipeFailed`: a write to the child failed.
      `consumed` and `written`: the bytes taken from SSL and the bytes the child accepted. */
  datatype Inbound = Inbound(
    reader: Reader, bodyEof: bool, stdinClosed: bool, stdinBuf: bytes,
    broken: bool, pipeFailed: bool, consumed: bytes, written: bytes)

  /** One read from the child's stdout, and whether its frame fitted the output queue. */
  datatype Read = Read(data: bytes, kept: bool)

  /** From the child to the client: sse_buf, the bytes SSL accepted, and what stdout delivered. */
  datatype Outbound = Outbound(queue: bytes, sent: bytes, outputs: seq<Read>, sslError: bool)

  /** ssl_want_read and ssl_want_write. */
  datatype Wants = Wants(read: bool, write: bool)

  datatype Child = Child(stdoutDone: bool, stderrDone: bool, exited: bool, exitCode: int)

  /** `stopped`: the loop was left by `break`. */
  datatype Pump = Pump(inb: Inbound, outb: Outbound, wants: Wants, child: Child, stopped: bool)

  function Init(contentLength: int, chunked: bool): Pump {
    var r := Start(contentLength, chunked);
    var done := r.phase == Done;
    Pump(Inbound(r, done, done, [], false, false, [], []), Outbound([], [], [], false),
         Wants(false, false), Child(false, false, false, -1), false)
  }

  // ---- the environment ----

  datatype SslRead = Got(data: bytes) | ReadWantsRead | ReadWantsWrite | ReadFails
  datatype SslWrite = Sent(n: nat) | WriteWantsWrite | WriteFails
  datatype PipeWrite = Wrote(n: nat) | Again | PipeFails
  datatype PipeRead = Delivered(data: bytes) | Ended
  datatype Poll = Ready | Interrupted | PollFails

  /** What the environment does in one iteration. A descriptor's flag matters only when the
      descriptor is in the poll set; a count or a delivery is cut to what was asked for. */
  datatype Env = Env(
    pending: bool, poll: Poll, sslIn: bool, sslOut: bool, stdinOut: bool, outIn: bool, errIn: bool,
    sslRead: SslRead, sslWrite: SslWrite, pipeWrite: PipeWrite, outRead: PipeRead, errRead: PipeRead,
    exited: Option<int>)

  // ---- the poll set ----

  predicate NeedRead(i: Inbound) { !i.bodyEof && |i.stdinBuf| < STDIN_CAP }

  predicate SslInSet(p: Pump, e: Env) {
    NeedRead(p.inb) || p.outb.queue != [] || p.wants.read || p.wants.write || e.pending
  }

  predicate StdinInSet(i: Inbound) { !i.stdinClosed && i.stdinBuf != [] }

  predicate NothingToPoll(p: Pump, e: Env) {
    !SslInSet(p, e) && !StdinInSet(p.inb) && p.child.stdoutDone && p.child.stderrDone
  }

  // ---- reading the body ----

  /** How many bytes SSL_read is asked for while data is due. */
  function Asked(i: Inbound): int { ToInt(Min(i.reader.remaining, STDIN_CAP - |i.stdinBuf|)) }

  /** The body ends because SSL_read failed for good. */
  function EndBody(i: Inbound): Inbound {
    i.(bodyEof := true, reader := i.reader.(phase := Done), broken := true)
  }

  /** A byte of framing: size line, chunk end, or the line behind the last chunk. */
  function TakeByte(i: Inbound, b: byte): Inbound {
    var r := Feed(i.reader, b).reader;
    i.(reader := r, bodyEof := i.bodyEof || r.phase == Done, consumed := i.consumed + [b])
  }

  /** Data bytes straight into the stdin buffer. */
  function TakeData(i: Inbound, data: bytes): Inbound {
    var r := i.reader.(remaining := i.reader.remaining - |data|);
    var r' := if r.remaining == 0 then AfterData(r) else r;
    i.(reader := r', bodyEof := i.bodyEof || r'.phase == Done,
       stdinBuf := i.stdinBuf + data, consumed := i.consumed + data)
  }

  /** Whether SSL_read is called at all. */
  predicate Reads(i: Inbound) {
    i.reader.phase != Done && (i.reader.phase == Data ==> |i.stdinBuf| < STDIN_CAP)
  }

  /** What SSL_read delivers when `asked` bytes were asked for; empty when it does not. */
  function Delivery(r: SslRead, asked: int): bytes {
    if r.Got? && asked > 0 then Take(r.data, asked) else []
  }

  function ReadBody(i: Inbound, r: SslRead): Inbound {
    if !Reads(i) then i
    else
      var data := Delivery(r, if i.reader.phase == Data then Asked(i) else 1);
      if data == [] then (if r.ReadWantsRead? || r.ReadWantsWrite? then i else EndBody(i))
      else if i.reader.phase == Data then TakeData(i, data)
      else TakeByte(i, data[0])
  }

  function ReadWants(i: Inbound, w: Wants, r: SslRead): Wants {
    Wants(Reads(i) && r.ReadWantsRead?, w.write || (Reads(i) && r.ReadWantsWrite?))
  }

  // ---- output, the child's stdin, the child's output ----

  /** How many bytes a write that made progress took. */
  function Taken(n: nat, available: nat): nat { if n == 0 then Min(1, available) else Min(n, available) }

  function WriteOutput(o: Outbound, w: SslWrite): Outbound {
    match w
    case Sent(n) =>
      var k := Taken(n, |o.queue|);
      o.(queue := o.queue[k..], sent := o.sent + o.queue[..k])
    case WriteWantsWrite => o
    case WriteFails => o.(sslError := true)
  }

  function FeedChild(i: Inbound, w: PipeWrite): Inbound {
    match w
    case Wrote(n) =>
      var k := Min(n, |i.stdinBuf|);
      i.(stdinBuf := i.stdinBuf[k..], written := i.written + i.stdinBuf[..k])
    case Again => i
    case PipeFails => i.(stdinClosed := true, pipeFailed := true)
  }

  /** Bytes from the child's stdout: the frame is queued whole or the read is dropped whole. */
  function QueueOutput(o: Outbound, data: bytes): Outbound {
    if |o.queue| + |Frame(data)| <= QUEUE_CAP then
      o.(queue := o.queue + Frame(data), outputs := o.outputs + [Read(data, true)])
    else o.(outputs := o.outputs + [Read(data, false)])
  }

  /** A read of one of the child's pipes: its bytes, or none at the end. */
  function PipeBytes(r: PipeRead): bytes { if r.Delivered? then Take(r.data, READ_CAP) else [] }

  function CloseStdin(i: Inbound): Inbound {
    if i.bodyEof && i.stdinBuf == [] && !i.stdinClosed then i.(stdinClosed := true) else i
  }

  function Reap(c: Child, exited: Option<int>): Child {
    if !c.exited && exited.Some? then c.(exited := true, exitCode := exited.value) else c
  }

  // ---- one iteration ----

  /** The TLS half: read the body, then write the output. */
  function SslPart(p: Pump, e: Env): Pump {
    if !SslInSet(p, e) then p
    else
      var readable := e.sslIn || e.pending;
      var inb := if readable then ReadBody(p.inb, e.sslRead) else p.inb;
      var wants := if readable then ReadWants(p.inb, p.wants, e.sslRead) else p.wants;
      if e.sslOut && p.outb.queue != [] then
        p.(inb := inb, outb := WriteOutput(p.outb, e.sslWrite), wants := wants.(write := e.sslWrite.WriteWantsWrite?))
      else p.(inb := inb, wants := wants)
  }

  /** The child's half: its stdin if it was polled, its stdout and stderr, then closing stdin and
      looking for the exit. Raw mode discards what stderr delivers. */
  function ChildPart(p: Pump, polledStdin: bool, e: Env): Pump {
    var fed := if polledStdin && e.stdinOut && StdinInSet(p.inb) then FeedChild(p.inb, e.pipeWrite) else p.inb;
    var out := PipeBytes(e.outRead);
    var readOut, readErr := e.outIn && !p.child.stdoutDone, e.errIn && !p.child.stderrDone;
    var outb := if readOut && out != [] then QueueOutput(p.outb, out) else p.outb;
    var child := p.child.(stdoutDone := p.child.stdoutDone || (readOut && out == []),
                          stderrDone := p.child.stderrDone || (readErr && PipeBytes(e.errRead) == []));
    p.(inb := CloseStdin(fed), outb := outb, child := Reap(child, e.exited))
  }

  /** One iteration of the loop. */
  function Iterate(p: Pump, e: Env): Pump {
    if NothingToPoll(p, e) then p.(child := Reap(p.child, e.exited), stopped := true)
    else if e.poll == Interrupted then p
    else if e.poll == PollFails then p.(stopped := true)
    else
      var q := SslPart(p, e);
      if q.outb.sslError then q.(stopped := true) else ChildPart(q, StdinInSet(p.inb), e)
  }

  /** The loop condition. */
  predicate Running(p: Pump) {
    !p.stopped && !p.outb.sslError && !Finished(p)
  }

  /** Nothing is left to do. */
  predicate Finished(p: Pump) {
    p.child.exited && p.inb.stdinClosed && p.child.stdoutDone && p.child.stderrDone && p.outb.queue == []
  }

  /** A run: iterations until the loop ends or the environment's script does. */
  function Run(p: Pump, es: seq<Env>): Pump
    decreases |es|
  {
    if es == [] || !Running(p) then p else Run(Iterate(p, es[0]), es[1..])
  }

  /** What the client has been sent once the queue is flushed and the last chunk written. */
  function FinalOutput(o: Outbound): bytes { o.sent + o.queue + LAST_CHUNK }

  /** The stdout reads that were queued. */
  function Kept(rs: seq<Read>): seq<bytes> {
    if rs == [] then []
    else if rs[|rs| - 1].kept then Kept(rs[..|rs| - 1]) + [rs[|rs| - 1].data]
    else Kept(rs[..|rs| - 1])
  }
}
