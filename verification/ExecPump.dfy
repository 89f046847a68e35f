/** exec_run_pipe as it runs: fixed buffers shifted with memmove, counters and flags. Each part of
    the loop body computes the corresponding part of PumpModel. */
module ExecPump {
  import opened Bytes
  import opened BodyReader
  import opened PumpModel
  import opened StdinBound

  /** memcpy into a buffer. */
  method CopyIn(buf: array<byte>, at: nat, data: bytes)
    requires at + |data| <= buf.Length
    modifies buf
    ensures buf[..at + |data|] == old(buf[..at]) + data
  {
    var i := 0;
    while i < |data|
      invariant 0 <= i <= |data|
      invariant buf[..at + i] == old(buf[..at]) + data[..i]
    {
      buf[at + i] := data[i];
      assert data[..i + 1] == data[..i] + [data[i]];
      assert buf[..at + (i + 1)] == buf[..at + i] + [data[i]];
      i := i + 1;
    }
    assert data[..|data|] == data;
  }

  /** memmove(buf, buf + k, len - k). */
  method ShiftDown(buf: array<byte>, k: nat, len: nat)
    requires k <= len <= buf.Length
    modifies buf
    ensures buf[..len - k] == old(buf[k..len])
  {
    var i := 0;
    while i < len - k
      invariant 0 <= i <= len - k
      invariant forall j :: 0 <= j < i ==> buf[j] == old(buf[k + j])
      invariant forall j :: i <= j < len ==> buf[j] == old(buf[j])
    {
      buf[i] := buf[k + i];
      i := i + 1;
    }
  }

  class Pipe {
    const chunked: bool
    var brState: Phase
    var brRemaining: int
    const brHdr: array<byte>
    var brHdrLen: nat
    var bodyEof: bool
    var stdinClosed: bool
    var stdoutDone: bool
    var stderrDone: bool
    var childExited: bool
    var exitCode: int
    var sslError: bool
    const stdinBuf: array<byte>
    var stdinBufLen: nat
    const sseBuf: array<byte>
    var sseBufLen: nat
    var sslWantRead: bool
    var sslWantWrite: bool
    /** The loop was left by `break`. */
    var stopped: bool
    ghost var broken: bool
    ghost var pipeFailed: bool
    ghost var consumed: bytes
    ghost var written: bytes
    ghost var sent: bytes
    ghost var outputs: seq<Read>

    ghost predicate Valid()
      reads this`brHdrLen, this`stdinBufLen, this`sseBufLen
    {
      brHdr.Length == 32 && brHdrLen <= 31 &&
      stdinBuf.Length == STDIN_CAP && stdinBufLen <= STDIN_CAP &&
      sseBuf.Length == QUEUE_CAP && sseBufLen <= QUEUE_CAP &&
      brHdr != stdinBuf && brHdr != sseBuf && stdinBuf != sseBuf
    }

    ghost function Body(): Reader
      reads this`brState, this`brRemaining, this`brHdrLen, this`stdinBufLen, this`sseBufLen, brHdr
      requires Valid()
    {
      Reader(chunked, brState, brRemaining, brHdr[..brHdrLen])
    }

    ghost function In(): Inbound
      reads this`brState, this`brRemaining, this`brHdrLen, this`stdinBufLen, this`sseBufLen, this`bodyEof,
            this`stdinClosed, this`broken, this`pipeFailed, this`consumed, this`written, brHdr, stdinBuf
      requires Valid()
    {
      Inbound(Body(), bodyEof, stdinClosed, stdinBuf[..stdinBufLen], broken, pipeFailed, consumed, written)
    }

    ghost function Out(): Outbound
      reads this`brHdrLen, this`stdinBufLen, this`sseBufLen, this`sent, this`outputs, this`sslError, sseBuf
      requires Valid()
    {
      Outbound(sseBuf[..sseBufLen], sent, outputs, sslError)
    }

    /** The state of the model this object is in. */
    ghost function State(): Pump
      reads this, brHdr, stdinBuf, sseBuf
      requires Valid()
    {
      Pump(In(), Out(), Wants(sslWantRead, sslWantWrite), Child(stdoutDone, stderrDone, childExited, exitCode), stopped)
    }

    constructor (contentLength: int, chunked: bool)
      ensures Valid() && State() == Init(contentLength, chunked)
      ensures fresh(brHdr) && fresh(stdinBuf) && fresh(sseBuf)
    {
      this.chunked := chunked;
      brHdr := new byte[32];
      stdinBuf := new byte[STDIN_CAP];
      sseBuf := new byte[QUEUE_CAP];
      brHdrLen, stdinBufLen, sseBufLen := 0, 0, 0;
      if chunked {
        brState, brRemaining := Header, -1;
      } else if contentLength > 0 {
        brState, brRemaining := Data, contentLength;
      } else {
        brState, brRemaining := Done, 0;
      }
      bodyEof := !chunked && contentLength <= 0;
      stdinClosed := !chunked && contentLength <= 0;
      stdoutDone, stderrDone, childExited, exitCode, sslError := false, false, false, -1, false;
      sslWantRead, sslWantWrite, stopped := false, false, false;
      broken, pipeFailed, consumed, written, sent, outputs := false, false, [], [], [], [];
    }

    /** A byte of a size line, of the CRLF behind chunk data, or of the line behind the last chunk. */
    method FramingByte(c: byte)
      requires Valid() && brState != Data && brState != Done
      modifies this`brState, this`brRemaining, this`brHdrLen, this`bodyEof, this`consumed, brHdr
      ensures Valid() && In() == TakeByte(old(In()), c) && Out() == old(Out())
    {
      hide Strtol16;
      consumed := consumed + [c];
      if brState == Header {
        if c == LF {
          brRemaining := Strtol16(brHdr[..brHdrLen]);
          brHdrLen := 0;
          brState := if brRemaining == 0 then Final else Data;
        } else if brHdrLen < 31 {
          brHdr[brHdrLen] := c;
          assert brHdr[..brHdrLen + 1] == brHdr[..brHdrLen] + [c];
          brHdrLen := brHdrLen + 1;
        }
      } else if c == LF {
        if brState == Trailer {
          brState := Header;
        } else {
          brState := Done;
          bodyEof := true;
        }
      }
    }

    /** Appends body data to the stdin buffer. */
    method Fill(data: bytes)
      requires Valid() && stdinBufLen + |data| <= STDIN_CAP
      modifies this`stdinBufLen, stdinBuf
      ensures Valid() && Body() == old(Body()) && Out() == old(Out())
      ensures In() == old(In()).(stdinBuf := old(In()).stdinBuf + data)
    {
      CopyIn(stdinBuf, stdinBufLen, data);
      stdinBufLen := stdinBufLen + |data|;
    }

    /** Counts body data off the current chunk or the whole body. */
    method CountDown(n: nat)
      requires Valid() && brState == Data
      modifies this`brState, this`brRemaining, this`bodyEof
      ensures var r := old(Body()).(remaining := old(Body()).remaining - n);
              Body() == if r.remaining == 0 then AfterData(r) else r
      ensures bodyEof == (old(bodyEof) || brState == Done)
    {
      brRemaining := brRemaining - n;
      if brRemaining == 0 {
        brState := if chunked then Trailer else Done;
        if brState == Done { bodyEof := true; }
      }
    }

    /** Body data. */
    method DataBytes(data: bytes)
      requires Valid() && brState == Data && 0 < |data| && stdinBufLen + |data| <= STDIN_CAP
      modifies this`brState, this`brRemaining, this`bodyEof, this`consumed, this`stdinBufLen, stdinBuf
      ensures Valid() && In() == TakeData(old(In()), data) && Out() == old(Out())
    {
      hide Out;
      Fill(data);
      CountDown(|data|);
      consumed := consumed + data;
    }

    /** The part of the loop that reads the body. `r` is what SSL_read and SSL_get_error say. */
    method SslReadPart(r: SslRead)
      requires Valid() && WithinSpace(In())
      modifies this`brState, this`brRemaining, this`brHdrLen, this`bodyEof, this`consumed, this`stdinBufLen,
               this`broken, this`sslWantRead, this`sslWantWrite, brHdr, stdinBuf
      ensures Valid() && In() == ReadBody(old(In()), r) && Out() == old(Out())
      ensures Wants(sslWantRead, sslWantWrite) == ReadWants(old(In()), old(Wants(sslWantRead, sslWantWrite)), r)
    {
      hide TakeByte, TakeData, EndBody, Out, Delivery, ToInt, Wraps;
      DeliveryGot(r);
      sslWantRead := false;
      var space := STDIN_CAP - stdinBufLen;
      if brState == Done || (brState == Data && space == 0) { return; }
      var toRead: int := 1;
      if brState == Data {
        toRead := ToInt(if brRemaining < space then brRemaining else space);
      }
      var data := Delivery(r, toRead);
      if data != [] {
        if brState == Data { DataBytes(data); } else { FramingByte(data[0]); }
      } else if r.ReadWantsRead? {
        sslWantRead := true;
      } else if r.ReadWantsWrite? {
        sslWantWrite := true;
      } else {
        EndOfBody();
      }
    }

    /** SSL_read failed for good. */
    method EndOfBody()
      requires Valid()
      modifies this`bodyEof, this`brState, this`broken
      ensures Valid() && In() == EndBody(old(In())) && Out() == old(Out())
    {
      bodyEof, brState, broken := true, Done, true;
    }

    /** The part that writes queued output; SSL_write takes what it takes. */
    method SslWritePart(w: SslWrite)
      requires Valid() && sseBufLen > 0
      modifies this`sseBufLen, this`sent, this`sslError, this`sslWantWrite, sseBuf
      ensures Valid() && Out() == WriteOutput(old(Out()), w) && In() == old(In()) && sslWantWrite == w.WriteWantsWrite?
    {
      sslWantWrite := false;
      match w
      case Sent(n) =>
        var k := Taken(n, sseBufLen);
        assert sseBuf[..sseBufLen][k..] == sseBuf[k..sseBufLen] && sseBuf[..sseBufLen][..k] == sseBuf[..k];
        sent := sent + sseBuf[..k];
        ShiftDown(sseBuf, k, sseBufLen);
        sseBufLen := sseBufLen - k;
      case WriteWantsWrite => sslWantWrite := true;
      case WriteFails => sslError := true;
    }

    /** The part that pushes body data to the child. */
    method StdinPart(w: PipeWrite)
      requires Valid() && stdinBufLen > 0
      modifies this`stdinBufLen, this`written, this`stdinClosed, this`pipeFailed, stdinBuf
      ensures Valid() && In() == FeedChild(old(In()), w) && Out() == old(Out())
    {
      match w
      case Wrote(n) =>
        var k := Min(n, stdinBufLen);
        assert stdinBuf[..stdinBufLen][k..] == stdinBuf[k..stdinBufLen] && stdinBuf[..stdinBufLen][..k] == stdinBuf[..k];
        written := written + stdinBuf[..k];
        ShiftDown(stdinBuf, k, stdinBufLen);
        stdinBufLen := stdinBufLen - k;
      case Again =>
      case PipeFails =>
        stdinClosed, pipeFailed := true, true;
    }

    /** The part that frames what the child wrote to stdout. */
    method StdoutPart(data: bytes)
      requires Valid() && 0 < |data|
      modifies this`sseBufLen, this`outputs, sseBuf
      ensures Valid() && Out() == QueueOutput(old(Out()), data) && In() == old(In())
    {
      var hdr := HexText(|data|) + [CR, LF];
      ghost var before := sseBuf[..sseBufLen];
      if sseBufLen + |hdr| + |data| + 2 <= QUEUE_CAP {
        CopyIn(sseBuf, sseBufLen, hdr);
        CopyIn(sseBuf, sseBufLen + |hdr|, data);
        CopyIn(sseBuf, sseBufLen + |hdr| + |data|, [CR, LF]);
        assert before + hdr + data + [CR, LF] == before + Frame(data);
        sseBufLen := sseBufLen + |hdr| + |data| + 2;
        outputs := outputs + [Read(data, true)];
      } else {
        outputs := outputs + [Read(data, false)];
      }
    }

    /** The TLS half of an iteration. */
    method SslHalf(e: Env)
      requires Valid() && WithinSpace(In())
      modifies this, brHdr, stdinBuf, sseBuf
      ensures Valid() && State() == SslPart(old(State()), e)
    {
      hide ReadBody, WriteOutput, ReadWants, WithinSpace, In, Out;
      InSets();
      var needRead := !bodyEof && stdinBufLen < STDIN_CAP;
      if !(needRead || sseBufLen > 0 || sslWantRead || sslWantWrite || e.pending) { return; }
      if e.sslIn || e.pending { SslReadPart(e.sslRead); }
      InSets();
      if e.sslOut && sseBufLen > 0 { SslWritePart(e.sslWrite); }
    }

    /** The child's half of an iteration. */
    method ChildHalf(polledStdin: bool, e: Env)
      requires Valid()
      modifies this, stdinBuf, sseBuf
      ensures Valid() && State() == ChildPart(old(State()), polledStdin, e)
    {
      hide FeedChild, QueueOutput, PumpModel.CloseStdin, Reap, In, Out, PipeBytes;
      FeedPart(polledStdin, e);
      OutputPart(e);
      CloseStdin();
      WaitChild(e.exited);
    }

    /** The write to the child, if its stdin was polled and is writable. */
    method FeedPart(polledStdin: bool, e: Env)
      requires Valid()
      modifies this`stdinBufLen, this`written, this`stdinClosed, this`pipeFailed, stdinBuf
      ensures Valid() && Out() == old(Out())
      ensures In() == if polledStdin && e.stdinOut && StdinInSet(old(In())) then FeedChild(old(In()), e.pipeWrite) else old(In())
    {
      hide FeedChild, In, Out;
      InSets();
      if !stdinClosed && stdinBufLen > 0 && polledStdin && e.stdinOut { StdinPart(e.pipeWrite); }
    }

    /** The reads of stdout and stderr. */
    method OutputPart(e: Env)
      requires Valid()
      modifies this`sseBufLen, this`outputs, this`stdoutDone, this`stderrDone, sseBuf
      ensures Valid() && In() == old(In())
      ensures Out() == if e.outIn && !old(stdoutDone) && PipeBytes(e.outRead) != []
                       then QueueOutput(old(Out()), PipeBytes(e.outRead)) else old(Out())
      ensures stdoutDone == (old(stdoutDone) || (e.outIn && PipeBytes(e.outRead) == []))
      ensures stderrDone == (old(stderrDone) || (e.errIn && PipeBytes(e.errRead) == []))
    {
      hide QueueOutput, In, Out, PipeBytes;
      if !stdoutDone && e.outIn {
        var data := PipeBytes(e.outRead);
        if data != [] { StdoutPart(data); } else { stdoutDone := true; }
      }
      if !stderrDone && e.errIn && PipeBytes(e.errRead) == [] { stderrDone := true; }
    }

    /** Closing the child's stdin once the body is read and handed over. */
    method CloseStdin()
      requires Valid()
      modifies this`stdinClosed
      ensures In() == PumpModel.CloseStdin(old(In())) && Out() == old(Out())
    {
      if bodyEof && stdinBufLen == 0 && !stdinClosed { stdinClosed := true; }
    }

    /** What the flags say about the poll set. */
    lemma InSets()
      requires Valid()
      ensures forall e: Env {:trigger NothingToPoll(State(), e)} :: NothingToPoll(State(), e) <==>
                !((!bodyEof && stdinBufLen < STDIN_CAP) || sseBufLen > 0 || sslWantRead || sslWantWrite || e.pending) &&
                !(!stdinClosed && stdinBufLen > 0) && stdoutDone && stderrDone
      ensures (!stdinClosed && stdinBufLen > 0) == StdinInSet(In())
      ensures (!bodyEof && stdinBufLen < STDIN_CAP) == NeedRead(In())
      ensures (sseBufLen > 0) == (Out().queue != [])
      ensures sslError == Out().sslError
    {}

    /** waitpid. */
    method WaitChild(exited: Option<int>)
      modifies this`childExited, this`exitCode
      ensures Child(stdoutDone, stderrDone, childExited, exitCode) ==
              Reap(old(Child(stdoutDone, stderrDone, childExited, exitCode)), exited)
    {
      if !childExited && exited.Some? {
        childExited, exitCode := true, exited.value;
      }
    }

    /** One iteration of the loop. */
    method Iteration(e: Env)
      requires Valid() && WithinSpace(In())
      modifies this, brHdr, stdinBuf, sseBuf
      ensures Valid() && State() == Iterate(old(State()), e)
    {
      hide SslPart, ChildPart, WithinSpace, In, Out, NothingToPoll;
      InSets();
      var needRead := !bodyEof && stdinBufLen < STDIN_CAP;
      var needWrite := sseBufLen > 0;
      var sslPolled := needRead || needWrite || sslWantRead || sslWantWrite || e.pending;
      var stdinPolled := !stdinClosed && stdinBufLen > 0;
      if !sslPolled && !stdinPolled && stdoutDone && stderrDone {
        WaitChild(e.exited);
        Break();
        return;
      }
      if e.poll == Interrupted { return; }
      if e.poll == PollFails {
        Break();
        return;
      }
      SslHalf(e);
      InSets();
      if sslError {
        Break();
        return;
      }
      ChildHalf(stdinPolled, e);
    }

    /** Leaves the loop. */
    method Break()
      requires Valid()
      modifies this`stopped
      ensures State() == old(State()).(stopped := true)
    {
      stopped := true;
    }

    /** The loop: it does what the model's runs do, for every script of the environment in which it
        never asks for more body data than its buffer has room for. */
    method Loop(es: seq<Env>)
      requires Valid() && Respectful(State(), es)
      modifies this, brHdr, stdinBuf, sseBuf
      ensures Valid() && State() == Run(old(State()), es)
      ensures stdinBufLen <= STDIN_CAP && sseBufLen <= QUEUE_CAP
    {
      hide Run, Respectful, Iterate, WithinSpace;
      ghost var whole := Run(State(), es);
      var i := 0;
      assert es[0..] == es;
      while i < |es| && !sslError && !stopped &&
            (!childExited || !stdinClosed || !stdoutDone || !stderrDone || sseBufLen > 0)
        invariant 0 <= i <= |es| && Valid()
        invariant Run(State(), es[i..]) == whole && Respectful(State(), es[i..])
        decreases |es| - i
      {
        assert es[i..][1..] == es[i + 1..];
        Unfold(State(), es[i..]);
        Iteration(es[i]);
        i := i + 1;
      }
      Unfold(State(), es[i..]);
    }
  }

  lemma Unfold(p: Pump, es: seq<Env>)
    ensures Run(p, es) == if es == [] || !Running(p) then p else Run(Iterate(p, es[0]), es[1..])
    ensures Respectful(p, es) == (es == [] || !Running(p) || (WithinSpace(p.inb) && Respectful(Iterate(p, es[0]), es[1..])))
  {}

  lemma DeliveryGot(r: SslRead)
    ensures forall n: int :: Delivery(r, n) != [] ==> !r.ReadWantsRead? && !r.ReadWantsWrite? && n > 0
    ensures forall n: nat :: |Delivery(r, n)| <= n
  {}
}
