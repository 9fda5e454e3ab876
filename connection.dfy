/** One client connection of the non-blocking echo server: its two byte
    buffers, its readiness intent and its close intent, and the handlers
    the event loop calls when the socket is readable or writable.  The
    read() and write() system calls are not performed here: their outcome
    is a parameter of the handler that would have made the call. */
module Connections {
  import opened ByteBuffer
  import opened Framing

  /** The size of the scratch buffer handleRead reads into (64 KiB). */
  const READ_BUF_SIZE: nat := 64 * 1024

  /** What one read() into the scratch buffer can deliver. */
  type ReadChunk = s: seq<uint8> | |s| <= READ_BUF_SIZE

  /** The outcome of read(fd, buf, sizeof(buf)). */
  datatype ReadResult =
    | ReadWouldBlock              // -1 with errno EAGAIN
    | ReadFailed                  // -1 with any other errno
    | ReadReturned(data: ReadChunk) // n >= 0 bytes; n == 0 is the peer's orderly close

  /** The outcome of write(fd, outgoing.data(), outgoing.size()). */
  datatype WriteResult =
    | WriteWouldBlock  // -1 with errno EAGAIN
    | WriteFailed      // -1 with any other errno
    | Wrote(n: nat)    // the kernel accepted n bytes

  /** The output buffer after a write attempt: it loses a prefix of exactly
      the bytes the kernel accepted, and nothing when the write failed. */
  function AfterWrite(out: seq<uint8>, w: WriteResult): (r: seq<uint8>)
    ensures Suffix(r, out)
    ensures w.Wrote? ==> |out| - |r| == Min(w.n, |out|)
    ensures !w.Wrote? ==> r == out
  {
    if w.Wrote? then Consume(out, w.n) else out
  }

  /** The fields of a connection that its handlers change. */
  datatype ConnState = ConnState(wantRead: bool, wantWrite: bool, wantClose: bool,
                                 incoming: seq<uint8>, outgoing: seq<uint8>)

  /** The server asks for write readiness exactly while output is pending,
      and for read readiness otherwise. */
  predicate FollowsOutput(s: ConnState) {
    s.wantWrite == (s.outgoing != []) && s.wantRead == (s.outgoing == [])
  }

  /** The state handleWrite leaves when its write has outcome `w`: output
      only ever leaves from the front, input is untouched, a close intent
      is never withdrawn, and interest keeps following the output. */
  function WriteStep(s: ConnState, w: WriteResult): (t: ConnState)
    ensures t.incoming == s.incoming
    ensures Suffix(t.outgoing, s.outgoing)
    ensures s.wantClose ==> t.wantClose
    ensures FollowsOutput(s) ==> FollowsOutput(t)
  {
    if s.outgoing == [] then s
    else
      var t := s.(outgoing := AfterWrite(s.outgoing, w), wantClose := s.wantClose || w.WriteFailed?);
      if t.outgoing == [] then t.(wantRead := true, wantWrite := false) else t
  }

  /** handleWrite case by case: nothing to send is a no-op; a write that
      would block changes nothing; a failed write only sets the close
      intent; a write of `n` bytes drops exactly the first `n` bytes of
      output, and the flags flip to read interest exactly when the output
      becomes empty. */
  lemma WriteStepCases(s: ConnState, w: WriteResult)
    ensures var t := WriteStep(s, w);
            && (s.outgoing == [] || w.WriteWouldBlock? ==> t == s)
            && (s.outgoing != [] && w.WriteFailed? ==> t == s.(wantClose := true))
            && (s.outgoing != [] && w.Wrote? ==>
                  && t.outgoing == s.outgoing[Min(w.n, |s.outgoing|)..]
                  && t.incoming == s.incoming && t.wantClose == s.wantClose
                  && (if t.outgoing == [] then t.wantRead && !t.wantWrite
                      else t.wantRead == s.wantRead && t.wantWrite == s.wantWrite))
  {
  }

  /** The bytes one read() hands over. */
  function Received(r: ReadResult): seq<uint8> {
    if r.ReadReturned? then r.data else []
  }

  /** The state `while (processOneRequest(conn)) {}` leaves: every whole
      legal frame at the front of the input is moved, in order, behind the
      output, and a header that declares too much sets the close intent. */
  function DrainStep(s: ConnState): ConnState {
    var d := Drain(s.incoming);
    s.(incoming := d.rest, outgoing := s.outgoing + Concat(d.frames),
       wantClose := s.wantClose || d.violation)
  }

  /** The state handleRead leaves when its read has outcome `r` and the
      write it may attempt has outcome `w`. */
  function ReadStep(s: ConnState, r: ReadResult, w: WriteResult): (t: ConnState)
    ensures s.wantClose ==> t.wantClose
    ensures r.ReadFailed? || r == ReadReturned([]) ==> t.wantClose
    ensures FollowsOutput(s) ==> FollowsOutput(t)
  {
    match r
    case ReadWouldBlock => s
    case ReadFailed => s.(wantClose := true)
    case ReadReturned(data) =>
      if data == [] then s.(wantClose := true)
      else
        var u := DrainStep(s.(incoming := s.incoming + data));
        if u.outgoing == [] then u else WriteStep(u.(wantWrite := true, wantRead := false), w)
  }

  /** No byte is lost or invented by a read: the old output followed by the
      old input and the bytes just read is what was written to the socket,
      then the output still queued, then the input still buffered. */
  lemma ReadStepConserves(s: ConnState, r: ReadResult, w: WriteResult)
    ensures var t := ReadStep(s, r, w);
            Suffix(t.outgoing + t.incoming, s.outgoing + (s.incoming + Received(r)))
  {
    if r.ReadReturned? && r.data != [] {
      ReceiveConserves(s, r.data, w);
    } else {
      QueueSplit(s.outgoing + s.incoming, [], []);
    }
  }

  lemma ReceiveConserves(s: ConnState, data: seq<uint8>, w: WriteResult)
    requires data != [] && |data| <= READ_BUF_SIZE
    ensures var t := ReadStep(s, ReadReturned(data), w);
            Suffix(t.outgoing + t.incoming, s.outgoing + (s.incoming + data))
  {
    var s1 := s.(incoming := s.incoming + data);
    var d := Drain(s1.incoming);
    var u := DrainStep(s1);
    var t := ReadStep(s, ReadReturned(data), w);
    assert t == if u.outgoing == [] then u else WriteStep(u.(wantWrite := true, wantRead := false), w);
    assert t.incoming == u.incoming == d.rest;
    assert Suffix(t.outgoing, u.outgoing);
    DrainConserves(s1.incoming);
    AppendAssoc(s.outgoing, Concat(d.frames), d.rest);
    QueueSplit(u.outgoing, d.rest, t.outgoing);
  }

  /** Whatever part of a queue has not left from its front, followed by
      bytes behind the queue, is a suffix of the whole. */
  lemma QueueSplit(pending: seq<uint8>, rest: seq<uint8>, out: seq<uint8>)
    requires Suffix(out, pending)
    ensures Suffix(out + rest, pending + rest)
  {
    var all := pending + rest;
    assert all[..|all| - |out| - |rest|] == pending[..|pending| - |out|];
  }

  /** handleRead case by case: a read that would block changes nothing; a
      failed read or the peer's orderly close only sets the close intent;
      data is appended and drained, the echoes are queued behind the old
      output, and pending output switches the connection to write interest
      and is written once. */
  lemma ReadStepCases(s: ConnState, r: ReadResult, w: WriteResult)
    ensures var t := ReadStep(s, r, w);
            && (r.ReadWouldBlock? ==> t == s)
            && (r.ReadFailed? || r == ReadReturned([]) ==> t == s.(wantClose := true))
            && (r.ReadReturned? && r.data != [] ==>
                  var d := Drain(s.incoming + r.data);
                  var pending := s.outgoing + Concat(d.frames);
                  && t.incoming == d.rest
                  && (pending == [] ==>
                        t == s.(incoming := d.rest, outgoing := [],
                                wantClose := s.wantClose || d.violation))
                  && (pending != [] ==>
                        && t.outgoing == AfterWrite(pending, w)
                        && t.wantClose == (s.wantClose || d.violation || w.WriteFailed?)
                        && t.wantWrite == (t.outgoing != []) && t.wantRead == (t.outgoing == [])))
  {
  }

  /** A fresh connection that reads one whole frame echoes it: with the
      write blocked, the frame waits in the output under write interest;
      once the kernel takes all of it, the connection is idle again. */
  lemma EchoOneFrame(payload: seq<uint8>)
    requires HEADER_SIZE + |payload| <= READ_BUF_SIZE
    ensures var idle := ConnState(true, false, false, [], []);
            var f := EncodeFrame(payload);
            && ReadStep(idle, ReadReturned(f), WriteWouldBlock) == ConnState(false, true, false, [], f)
            && ReadStep(idle, ReadReturned(f), Wrote(|f|)) == idle
  {
    var f := EncodeFrame(payload);
    ClassifyFrame(f, []);
    assert f + [] == f;
    DrainFront(f, |payload|);
    assert f[HEADER_SIZE + |payload|..] == [];
    assert f[..HEADER_SIZE + |payload|] == f;
    assert Classify([]) == Incomplete;
    DrainIdle([]);
    assert [f] + [] == [f];
    ConcatSingle(f);
    assert [] + f == f;
    assert Drain(f) == Drained([f], [], false);
  }

  /** The readiness poll() reported for one client descriptor. */
  datatype Revents = Revents(readable: bool, writable: bool, error: bool)

  /** The connection state one pass of the client loop leaves: handleRead
      if poll reported it readable, then handleWrite if writable.  A close
      intent is never withdrawn, a failed read or the peer's orderly close
      on a readable connection always ends in a close intent, and interest
      keeps following the output. */
  function ServiceStep(s: ConnState, ev: Revents, r: ReadResult, wRead: WriteResult, w: WriteResult)
    : (t: ConnState)
    ensures s.wantClose ==> t.wantClose
    ensures ev.readable && (r.ReadFailed? || r == ReadReturned([])) ==> t.wantClose
    ensures FollowsOutput(s) ==> FollowsOutput(t)
  {
    var afterRead := if ev.readable then ReadStep(s, r, wRead) else s;
    if ev.writable then WriteStep(afterRead, w) else afterRead
  }

  class Connection {
    const fd: int
    var wantRead: bool
    var wantWrite: bool
    var wantClose: bool
    var incoming: seq<uint8>  // bytes read from the client, not yet framed
    var outgoing: seq<uint8>  // bytes still to be sent to the client

    /** The server asks for write readiness exactly while output is pending,
        and for read readiness otherwise. */
    /** The handler-visible state of this connection. */
    function State(): ConnState
      reads this
    {
      ConnState(wantRead, wantWrite, wantClose, incoming, outgoing)
    }

    predicate InterestFollowsOutput()
      reads this
    {
      FollowsOutput(State())
    }

    /** The connection handleAccept builds for a freshly accepted socket. */
    constructor (fd: int)
      ensures this.fd == fd
      ensures wantRead && !wantWrite && !wantClose
      ensures incoming == [] && outgoing == []
      ensures InterestFollowsOutput()
    {
      this.fd := fd;
      wantRead, wantWrite, wantClose := true, false, false;
      incoming, outgoing := [], [];
    }

    /** processOneRequest: echo the frame at the front of the input buffer,
        if a whole legal one is there. */
    method ProcessOneRequest() returns (ok: bool)
      modifies this
      ensures wantRead == old(wantRead) && wantWrite == old(wantWrite)
      ensures old(outgoing) + old(incoming) == outgoing + incoming
      ensures ok <==> Classify(old(incoming)).Complete?
      ensures Classify(old(incoming)).Incomplete? ==>
                incoming == old(incoming) && outgoing == old(outgoing) && wantClose == old(wantClose)
      ensures Classify(old(incoming)).TooLong? ==>
                incoming == old(incoming) && outgoing == old(outgoing) && wantClose
      ensures Classify(old(incoming)).Complete? ==>
                var k := HEADER_SIZE + Classify(old(incoming)).len;
                && outgoing == old(outgoing) + old(incoming)[..k]
                && incoming == old(incoming)[k..]
                && wantClose == old(wantClose)
    {
      if |incoming| < HEADER_SIZE {
        return false;
      }
      EncodeDecodeU32(incoming);
      var len: uint32 := DecodeU32(incoming);
      if len > MAX_MSG {
        wantClose := true;
        return false;
      }
      // 4 + len is computed in uint32 arithmetic; it cannot wrap because
      // len <= MAX_MSG, which the subset type makes Dafny check.
      var frameLen: uint32 := HEADER_SIZE + len;
      if |incoming| < frameLen {
        return false;
      }
      var msg := incoming[HEADER_SIZE..];
      outgoing := Append(outgoing, EncodeU32(len), HEADER_SIZE);
      outgoing := Append(outgoing, msg, len);
      assert incoming[..frameLen] == EncodeU32(len) + msg[..len];
      incoming := Consume(incoming, frameLen);
      ok := true;
    }

    /** handleWrite: one write of the whole output buffer. */
    method HandleWrite(w: WriteResult)
      modifies this
      ensures old(outgoing) == [] ==> unchanged(this)
      ensures State() == WriteStep(old(State()), w)
      ensures old(InterestFollowsOutput()) ==> InterestFollowsOutput()
    {
      if outgoing == [] {
        return;
      }
      match w
      case WriteWouldBlock =>
        return;
      case WriteFailed =>
        wantClose := true;
        return;
      case Wrote(n) =>
        outgoing := Consume(outgoing, n);
        if outgoing == [] {
          wantRead := true;
          wantWrite := false;
        }
    }

    /** handleRead: one read into the scratch buffer; on data, every whole
        frame is echoed, and pending output switches the connection to
        write interest and is written at once (with outcome `w`). */
    method HandleRead(r: ReadResult, w: WriteResult)
      modifies this
      ensures r.ReadWouldBlock? ==> unchanged(this)
      ensures old(InterestFollowsOutput()) ==> InterestFollowsOutput()
      ensures State() == ReadStep(old(State()), r, w)
    {
      match r
      case ReadWouldBlock =>
        return;
      case ReadFailed =>
        wantClose := true;
        return;
      case ReadReturned(data) =>
        if |data| == 0 {
          wantClose := true;
          return;
        }
        Receive(data, w);
    }

    /** handleRead after a read that returned bytes: buffer them, echo
        every whole frame, and write at once if output is pending. */
    method Receive(data: ReadChunk, w: WriteResult)
      requires data != []
      modifies this
      ensures State() == ReadStep(old(State()), ReadReturned(data), w)
    {
      ghost var s0 := State();
      incoming := Append(incoming, data, |data|);
      ghost var s1 := s0.(incoming := s0.incoming + data);
      assert State() == s1;
      DrainRequests();
      ghost var u := DrainStep(s1);
      assert State() == u;
      if outgoing != [] {
        wantWrite := true;
        wantRead := false;
        ghost var v := u.(wantWrite := true, wantRead := false);
        assert State() == v;
        HandleWrite(w);
        assert State() == WriteStep(v, w);
      }
    }

    /** The handlers the client loop runs for this connection when poll
        reports `ev`: handleRead if readable, then handleWrite if writable. */
    method OnReady(ev: Revents, r: ReadResult, wRead: WriteResult, w: WriteResult)
      modifies this
      ensures State() == ServiceStep(old(State()), ev, r, wRead, w)
    {
      ghost var s0 := State();
      if ev.readable {
        HandleRead(r, wRead);
      }
      ghost var s1 := State();
      assert s1 == if ev.readable then ReadStep(s0, r, wRead) else s0;
      if ev.writable {
        HandleWrite(w);
      }
    }

    /** `while (processOneRequest(conn)) {}`: echo every whole frame in the
        input buffer, in order, stopping at an incomplete frame or at a
        header that declares too much. */
    method DrainRequests()
      modifies this
      ensures var d := Drain(old(incoming));
              && incoming == d.rest
              && outgoing == old(outgoing) + Concat(d.frames)
              && wantClose == (old(wantClose) || d.violation)
      ensures wantRead == old(wantRead) && wantWrite == old(wantWrite)
      ensures State() == DrainStep(old(State()))
    {
      ghost var start := incoming;
      ghost var done: seq<seq<uint8>> := [];
      while true
        invariant DrainedSoFar(start, done, incoming)
        invariant outgoing == old(outgoing) + Concat(done)
        invariant wantClose == old(wantClose)
        invariant wantRead == old(wantRead) && wantWrite == old(wantWrite)
        decreases |incoming|
      {
        ghost var before := incoming;
        var more := ProcessOneRequest();
        if !more {
          DrainedSoFarEnd(start, done, incoming);
          break;
        }
        ghost var f := before[..HEADER_SIZE + Classify(before).len];
        DrainedSoFarStep(start, done, before, f, incoming);
        AppendAssoc(old(outgoing), Concat(done), f);
        done := done + [f];
      }
    }
  }
}
