/** The wire format: a 4-byte length header followed by that many payload
    bytes.  The header is copied with memcpy into a uint32 and never
    byte-swapped, so its meaning is the host's byte order; this model fixes a
    little-endian host.  The server echoes the same four header bytes back,
    so nothing that is proved about the echo depends on that choice. */
module Framing {
  import opened ByteBuffer

  /** An unsigned 32-bit value. */
  type uint32 = x: int | 0 <= x < 0x1_0000_0000

  const HEADER_SIZE: nat := 4

  /** MAX_MSG = 32 << 20: the largest payload a header may declare. */
  const MAX_MSG: nat := 32 * 0x10_0000

  /** The unsigned value of a little-endian byte string. */
  function LittleEndian(b: seq<uint8>): nat
  {
    if b == [] then 0 else b[0] as int + 0x100 * LittleEndian(b[1..])
  }

  /** The value memcpy copies out of the first four bytes of a buffer
      into a uint32 on a little-endian host. */
  function DecodeU32(s: seq<uint8>): (n: nat)
    requires |s| >= HEADER_SIZE
    ensures n < 0x1_0000_0000
  {
    LittleEndian4(s[..HEADER_SIZE]);
    LittleEndian(s[..HEADER_SIZE])
  }

  /** The four bytes of a uint32 in memory (the source of the echoed header). */
  function EncodeU32(n: uint32): (h: seq<uint8>)
    ensures |h| == HEADER_SIZE
    ensures LittleEndian(h) == n
  {
    var n1 := n / 0x100;
    var n2 := n1 / 0x100;
    var h: seq<uint8> := [n % 0x100, n1 % 0x100, n2 % 0x100, n2 / 0x100];
    LittleEndianBytes(n, h);
    h
  }

  /** The four bytes of a uint32, lowest first, are its little-endian form. */
  lemma LittleEndianBytes(n: uint32, h: seq<uint8>)
    requires h == [n % 0x100, (n / 0x100) % 0x100, (n / 0x100 / 0x100) % 0x100, n / 0x100 / 0x100 / 0x100]
    ensures LittleEndian(h) == n
  {
    LittleEndian4(h);
    var n1 := n / 0x100;
    var n2 := n1 / 0x100;
    assert n == n % 0x100 + 0x100 * n1;
    assert n1 == n1 % 0x100 + 0x100 * n2;
    assert n2 == n2 % 0x100 + 0x100 * (n2 / 0x100);
  }

  /** LittleEndian of four bytes, written out. */
  lemma LittleEndian4(b: seq<uint8>)
    requires |b| == HEADER_SIZE
    ensures LittleEndian(b) == b[0] as int + 0x100 * (b[1] as int + 0x100 * (b[2] as int + 0x100 * b[3] as int))
  {
    var b1 := b[1..];
    var b2 := b1[1..];
    var b3 := b2[1..];
    assert b3[1..] == [];
    assert LittleEndian(b3) == b[3] as int;
    assert LittleEndian(b2) == b[2] as int + 0x100 * b[3] as int;
    assert LittleEndian(b1) == b[1] as int + 0x100 * LittleEndian(b2);
  }

  lemma DecodeEncodeU32(n: uint32, t: seq<uint8>)
    ensures DecodeU32(EncodeU32(n) + t) == n
  {
    var h := EncodeU32(n);
    assert (h + t)[..HEADER_SIZE] == h;
  }

  lemma EncodeDecodeU32(s: seq<uint8>)
    requires |s| >= HEADER_SIZE
    ensures DecodeU32(s) < 0x1_0000_0000
    ensures EncodeU32(DecodeU32(s)) == s[..HEADER_SIZE]
  {
    LittleEndian4(s[..HEADER_SIZE]);
    var n2 := s[2] as int + 0x100 * s[3] as int;
    var n1 := s[1] as int + 0x100 * n2;
    SplitByte(s[0] as int, n1);
    SplitByte(s[1] as int, n2);
    SplitByte(s[2] as int, s[3] as int);
  }

  lemma SplitByte(lo: int, hi: int)
    requires 0 <= lo < 0x100 && 0 <= hi
    ensures (lo + 0x100 * hi) / 0x100 == hi
    ensures (lo + 0x100 * hi) % 0x100 == lo
  {
  }

  /** What processOneRequest finds at the front of the input buffer. */
  datatype Step =
    | Incomplete          // fewer than 4 bytes, or a legal header without its whole payload
    | TooLong             // the header declares more than MAX_MSG bytes
    | Complete(len: nat)  // a whole legal frame of 4 + len bytes

  function Classify(s: seq<uint8>): (st: Step)
    ensures st.Complete? ==> st.len <= MAX_MSG && HEADER_SIZE + st.len <= |s|
    ensures st.TooLong? ==> |s| >= HEADER_SIZE && DecodeU32(s) > MAX_MSG
  {
    if |s| < HEADER_SIZE then Incomplete
    else if DecodeU32(s) > MAX_MSG then TooLong
    else if |s| < HEADER_SIZE + DecodeU32(s) then Incomplete
    else Complete(DecodeU32(s))
  }

  /** A verdict reached on a buffer does not change when more bytes arrive
      behind it: only Incomplete can be revised by a later read. */
  lemma ClassifyExtend(s: seq<uint8>, t: seq<uint8>)
    requires !Classify(s).Incomplete?
    ensures Classify(s + t) == Classify(s)
  {
    assert (s + t)[..HEADER_SIZE] == s[..HEADER_SIZE];
  }

  /** A complete, legal frame: a header declaring L <= MAX_MSG and exactly
      L payload bytes. */
  predicate IsFrame(f: seq<uint8>) {
    |f| >= HEADER_SIZE && DecodeU32(f) <= MAX_MSG && |f| == HEADER_SIZE + DecodeU32(f)
  }

  /** The outbound direction: the length header immediately followed by the payload. */
  function EncodeFrame(payload: seq<uint8>): (f: seq<uint8>)
    requires |payload| <= MAX_MSG
    ensures IsFrame(f)
    ensures f[HEADER_SIZE..] == payload
  {
    var f := EncodeU32(|payload|) + payload;
    DecodeEncodeU32(|payload|, payload);
    f
  }

  /** Every legal frame is the encoding of its own payload. */
  lemma {:induction false} FrameRoundTrip(f: seq<uint8>)
    requires IsFrame(f)
    ensures EncodeFrame(f[HEADER_SIZE..]) == f
  {
    EncodeDecodeU32(f);
    assert f == f[..HEADER_SIZE] + f[HEADER_SIZE..];
  }

  /** A legal frame stands alone at the front of any buffer. */
  lemma ClassifyFrame(f: seq<uint8>, t: seq<uint8>)
    requires IsFrame(f)
    ensures Classify(f + t) == Complete(|f| - HEADER_SIZE)
    ensures (f + t)[..|f|] == f && (f + t)[|f|..] == t
  {
    assert (f + t)[..HEADER_SIZE] == f[..HEADER_SIZE];
  }

  function Concat(fs: seq<seq<uint8>>): (s: seq<uint8>)
  {
    if fs == [] then [] else fs[0] + Concat(fs[1..])
  }

  lemma {:induction false} ConcatAppend(fs: seq<seq<uint8>>, gs: seq<seq<uint8>>)
    ensures Concat(fs + gs) == Concat(fs) + Concat(gs)
  {
    if fs == [] {
      assert fs + gs == gs;
    } else {
      assert (fs + gs)[1..] == fs[1..] + gs;
      ConcatAppend(fs[1..], gs);
    }
  }

  /** The outcome of extracting frames from an input buffer until no whole
      legal frame is left at its front: the frames in order of arrival, the
      bytes left buffered, and whether the loop stopped at a header that
      declares too much. */
  datatype Drained = Drained(frames: seq<seq<uint8>>, rest: seq<uint8>, violation: bool)

  /** Repeated processOneRequest on an input buffer, until it reports that
      no whole legal frame is at the front. */
  function Drain(s: seq<uint8>): (d: Drained)
    ensures |d.rest| <= |s|
    decreases |s|
  {
    match Classify(s)
    case Incomplete => Drained([], s, false)
    case TooLong => Drained([], s, true)
    case Complete(len) =>
      var d := Drain(s[HEADER_SIZE + len..]);
      Drained([s[..HEADER_SIZE + len]] + d.frames, d.rest, d.violation)
  }

  /** The front of a buffer that classifies as Complete is a legal frame. */
  lemma FrontFrame(s: seq<uint8>, len: nat)
    requires Classify(s) == Complete(len)
    ensures IsFrame(s[..HEADER_SIZE + len])
    ensures s == s[..HEADER_SIZE + len] + s[HEADER_SIZE + len..]
  {
    assert s[..HEADER_SIZE + len][..HEADER_SIZE] == s[..HEADER_SIZE];
  }

  lemma ConcatCons(f: seq<uint8>, fs: seq<seq<uint8>>)
    ensures Concat([f] + fs) == f + Concat(fs)
  {
    assert ([f] + fs)[1..] == fs;
  }

  /** Draining loses and invents no byte: the extracted frames followed by
      the bytes left behind are exactly the buffer, in order. */
  lemma {:induction false} DrainConserves(s: seq<uint8>)
    ensures Concat(Drain(s).frames) + Drain(s).rest == s
    decreases |s|
  {
    match Classify(s)
    case Incomplete =>
      assert Concat([]) == [];
    case TooLong =>
      assert Concat([]) == [];
    case Complete(len) =>
      var k := HEADER_SIZE + len;
      var f, r := s[..k], s[k..];
      var d := Drain(r);
      assert Drain(s) == Drained([f] + d.frames, d.rest, d.violation);
      DrainConserves(r);
      FrontFrame(s, len);
      ConcatConsRest(f, d.frames, d.rest);
  }

  lemma ConcatConsRest(f: seq<uint8>, fs: seq<seq<uint8>>, rest: seq<uint8>)
    ensures Concat([f] + fs) + rest == f + (Concat(fs) + rest)
  {
    ConcatCons(f, fs);
  }

  /** Every frame that draining extracts is a complete, legal frame. */
  lemma {:induction false} DrainFramesLegal(s: seq<uint8>)
    ensures forall i :: 0 <= i < |Drain(s).frames| ==> IsFrame(Drain(s).frames[i])
    decreases |s|
  {
    match Classify(s)
    case Incomplete =>
    case TooLong =>
    case Complete(len) =>
      var k := HEADER_SIZE + len;
      DrainFramesLegal(s[k..]);
      FrontFrame(s, len);
      var fs := [s[..k]] + Drain(s[k..]).frames;
      assert Drain(s).frames == fs;
      forall i | 0 <= i < |fs|
        ensures IsFrame(fs[i])
      {
        if i > 0 { assert fs[i] == Drain(s[k..]).frames[i - 1]; }
      }
  }

  /** Draining stops exactly where the loop `while (processOneRequest(conn))`
      stops: at an incomplete frame, or at a header that declares too much,
      which is what the violation flag reports. */
  lemma {:induction false} DrainStops(s: seq<uint8>)
    ensures Drain(s).violation <==> Classify(Drain(s).rest).TooLong?
    ensures !Drain(s).violation <==> Classify(Drain(s).rest).Incomplete?
    decreases |s|
  {
    match Classify(s)
    case Incomplete =>
    case TooLong =>
    case Complete(len) =>
      DrainStops(s[HEADER_SIZE + len..]);
  }

  /** Draining a buffer after more bytes arrive continues from where
      draining its prefix stopped; a violation in the prefix is final. */
  ghost predicate DrainsAcross(s: seq<uint8>, t: seq<uint8>) {
    var d := Drain(s);
    Drain(s + t) ==
      if d.violation then Drained(d.frames, d.rest + t, true)
      else var e := Drain(d.rest + t); Drained(d.frames + e.frames, e.rest, e.violation)
  }

  lemma {:induction false} DrainAppend(s: seq<uint8>, t: seq<uint8>)
    ensures DrainsAcross(s, t)
    decreases |s|
  {
    match Classify(s)
    case Incomplete =>
      assert [] + Drain(s + t).frames == Drain(s + t).frames;
    case TooLong =>
      ClassifyExtend(s, t);
    case Complete(len) =>
      DrainAppend(s[HEADER_SIZE + len..], t);
      DrainAppendStep(s, t, len);
  }

  /** One step of DrainAppend: a whole frame at the front of `s` is the
      first frame extracted from `s + t` too. */
  lemma DrainAppendStep(s: seq<uint8>, t: seq<uint8>, len: nat)
    requires Classify(s) == Complete(len)
    requires DrainsAcross(s[HEADER_SIZE + len..], t)
    ensures DrainsAcross(s, t)
  {
    var k := HEADER_SIZE + len;
    ClassifyExtend(s, t);
    SliceAppend(s, t, k);
    DrainFront(s, len);
    DrainFront(s + t, len);
    var f, r := s[..k], s[k..];
    var d, e0 := Drain(r), Drain(r + t);
    var ds := Drain(s);
    assert ds == Drained([f] + d.frames, d.rest, d.violation);
    assert Drain(s + t) == Drained([f] + e0.frames, e0.rest, e0.violation);
    if d.violation {
      assert e0 == Drained(d.frames, d.rest + t, true);
      assert Drain(s + t) == Drained(ds.frames, ds.rest + t, true);
    } else {
      var e := Drain(d.rest + t);
      assert e0 == Drained(d.frames + e.frames, e.rest, e.violation);
      ConsAssoc(f, d.frames, e.frames);
      assert Drain(s + t) == Drained(ds.frames + e.frames, e.rest, e.violation);
    }
  }

  lemma ConsAssoc(f: seq<uint8>, fs: seq<seq<uint8>>, gs: seq<seq<uint8>>)
    ensures [f] + (fs + gs) == ([f] + fs) + gs
  {
  }

  lemma SnocAssoc(fs: seq<seq<uint8>>, f: seq<uint8>, gs: seq<seq<uint8>>)
    ensures fs + ([f] + gs) == (fs + [f]) + gs
  {
  }

  lemma ConcatSingle(f: seq<uint8>)
    ensures Concat([f]) == f
  {
    ConcatCons(f, []);
  }

  /** Draining `start` has so far extracted the frames `done`, and what
      remains to extract is what draining `cur` extracts. */
  ghost predicate DrainedSoFar(start: seq<uint8>, done: seq<seq<uint8>>, cur: seq<uint8>) {
    && Drain(start).frames == done + Drain(cur).frames
    && Drain(start).rest == Drain(cur).rest
    && Drain(start).violation == Drain(cur).violation
  }

  /** Extracting the frame at the front of `cur` advances DrainedSoFar by
      that frame. */
  lemma DrainedSoFarStep(start: seq<uint8>, done: seq<seq<uint8>>, cur: seq<uint8>,
                         f: seq<uint8>, next: seq<uint8>)
    requires DrainedSoFar(start, done, cur)
    requires Classify(cur).Complete?
    requires f == cur[..HEADER_SIZE + Classify(cur).len]
    requires next == cur[HEADER_SIZE + Classify(cur).len..]
    ensures DrainedSoFar(start, done + [f], next)
    ensures Concat(done + [f]) == Concat(done) + f
  {
    var len := Classify(cur).len;
    DrainFront(cur, len);
    SnocAssoc(done, f, Drain(next).frames);
    ConcatAppend(done, [f]);
    ConcatSingle(f);
  }

  /** Once no whole legal frame is left at the front of `cur`, the frames
      extracted so far are all the frames of `start`. */
  lemma DrainedSoFarEnd(start: seq<uint8>, done: seq<seq<uint8>>, cur: seq<uint8>)
    requires DrainedSoFar(start, done, cur)
    requires !Classify(cur).Complete?
    ensures Drain(start) == Drained(done, cur, Classify(cur).TooLong?)
  {
    DrainIdle(cur);
    assert done + [] == done;
  }

  /** Drain on a buffer that does not start with a whole legal frame. */
  lemma {:induction false} DrainIdle(s: seq<uint8>)
    requires !Classify(s).Complete?
    ensures Drain(s) == Drained([], s, Classify(s).TooLong?)
  {
  }

  /** Drain's first step on a buffer that starts with a whole frame. */
  lemma {:induction false} DrainFront(s: seq<uint8>, len: nat)
    requires Classify(s) == Complete(len)
    ensures HEADER_SIZE + len <= |s|
    ensures var d := Drain(s[HEADER_SIZE + len..]);
            Drain(s) == Drained([s[..HEADER_SIZE + len]] + d.frames, d.rest, d.violation)
  {
  }

  lemma SliceAppend(s: seq<uint8>, t: seq<uint8>, k: nat)
    requires k <= |s|
    ensures (s + t)[..k] == s[..k] && (s + t)[k..] == s[k..] + t
  {
  }

  /** The framing the connection performs when read() delivers the stream
      in chunks: each chunk is appended to the bytes left over and the
      buffer is drained; after a violation the connection is closed and no
      further chunk is read. */
  function Feed(pending: seq<uint8>, chunks: seq<seq<uint8>>): (d: Drained)
    ensures forall i :: 0 <= i < |d.frames| ==> IsFrame(d.frames[i])
    decreases |chunks|
  {
    if chunks == [] then Drained([], pending, false)
    else
      var d := Drain(pending + chunks[0]);
      DrainFramesLegal(pending + chunks[0]);
      if d.violation then d
      else
        var e := Feed(d.rest, chunks[1..]);
        var fs := d.frames + e.frames;
        assert forall i :: 0 <= i < |fs| ==> IsFrame(fs[i]) by {
          forall i | 0 <= i < |fs|
            ensures IsFrame(fs[i])
          {
            if i >= |d.frames| { assert fs[i] == e.frames[i - |d.frames|]; }
          }
        }
        Drained(fs, e.rest, e.violation)
  }

  /** Framing is split-invariant: however the stream is cut into reads, the
      same frames are extracted, in the same order, as from one read of the
      whole stream, and a violation is detected either way. */
  lemma {:induction false} FeedSplitInvariant(pending: seq<uint8>, chunks: seq<seq<uint8>>)
    requires Classify(pending).Incomplete?
    ensures var whole := Drain(pending + Concat(chunks));
            Feed(pending, chunks).frames == whole.frames
            && Feed(pending, chunks).violation == whole.violation
            && (!whole.violation ==> Feed(pending, chunks).rest == whole.rest)
    decreases |chunks|
  {
    if chunks == [] {
      assert pending + Concat(chunks) == pending;
    } else {
      var c := chunks[0];
      var tail := Concat(chunks[1..]);
      assert pending + Concat(chunks) == (pending + c) + tail;
      DrainAppend(pending + c, tail);
      var d := Drain(pending + c);
      if !d.violation {
        DrainStops(pending + c);
        FeedSplitInvariant(d.rest, chunks[1..]);
      }
    }
  }

  /** Encodes each payload in turn. */
  function EncodeFrames(ps: seq<seq<uint8>>): (fs: seq<seq<uint8>>)
    requires forall i :: 0 <= i < |ps| ==> |ps[i]| <= MAX_MSG
    ensures |fs| == |ps|
    ensures forall i :: 0 <= i < |ps| ==> fs[i] == EncodeFrame(ps[i])
  {
    if ps == [] then [] else [EncodeFrame(ps[0])] + EncodeFrames(ps[1..])
  }

  /** Pipelined frames sent back to back are all extracted, in order, with
      nothing left over: the round trip of the framing codec. */
  lemma {:induction false} DrainEncodedFrames(ps: seq<seq<uint8>>)
    requires forall i :: 0 <= i < |ps| ==> |ps[i]| <= MAX_MSG
    ensures Drain(Concat(EncodeFrames(ps))) == Drained(EncodeFrames(ps), [], false)
  {
    if ps == [] {
      assert Classify([]) == Incomplete;
    } else {
      var fs := EncodeFrames(ps);
      var f := fs[0];
      assert fs[1..] == EncodeFrames(ps[1..]);
      ClassifyFrame(f, Concat(fs[1..]));
      DrainEncodedFrames(ps[1..]);
      assert fs == [f] + fs[1..];
    }
  }

  /** Three frames sent back to back in one read are each extracted, in
      order, with nothing left over. */
  lemma {:induction false} ThreePipelinedFrames(a: seq<uint8>, b: seq<uint8>, c: seq<uint8>)
    requires |a| <= MAX_MSG && |b| <= MAX_MSG && |c| <= MAX_MSG
    ensures Drain(EncodeFrame(a) + EncodeFrame(b) + EncodeFrame(c)) ==
              Drained([EncodeFrame(a), EncodeFrame(b), EncodeFrame(c)], [], false)
  {
    var fa, fb, fc := EncodeFrame(a), EncodeFrame(b), EncodeFrame(c);
    var fs := EncodeFrames([a, b, c]);
    assert fs == [fa, fb, fc];
    DrainEncodedFrames([a, b, c]);
    ConcatSingle(fc);
    ConcatCons(fb, [fc]);
    assert [fb] + [fc] == [fb, fc];
    ConcatCons(fa, [fb, fc]);
    assert [fa] + [fb, fc] == fs;
    assert Concat(fs) == fa + (fb + fc);
    AppendAssoc(fa, fb, fc);
    assert Drain(Concat(fs)) == Drained(fs, [], false);
  }

  /** The frames "a", "bb" and "ccc" pipelined in one read. */
  lemma PipelinedScenario()
    ensures var a, b, c: seq<uint8> := [0x61], [0x62, 0x62], [0x63, 0x63, 0x63];
            Drain(EncodeFrame(a) + EncodeFrame(b) + EncodeFrame(c)) ==
              Drained([EncodeFrame(a), EncodeFrame(b), EncodeFrame(c)], [], false)
  {
    ThreePipelinedFrames([0x61], [0x62, 0x62], [0x63, 0x63, 0x63]);
  }

  /** A header that declares MAX_MSG + 1 bytes stops the drain with a
      violation at once, whatever follows it. */
  lemma OversizedHeader(t: seq<uint8>)
    ensures Drain(EncodeU32(MAX_MSG + 1) + t) == Drained([], EncodeU32(MAX_MSG + 1) + t, true)
  {
    var h := EncodeU32(MAX_MSG + 1);
    DecodeEncodeU32(MAX_MSG + 1, t);
  }
}
