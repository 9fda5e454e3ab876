/** The byte buffers of a connection.  In the server each buffer is a
    `std::vector<uint8_t>` held by value inside the connection; the two
    primitives grow it at the back (appendBuffer) and shrink it at the
    front (consumeBuffer).  A buffer is modelled as its contents, and a call
    that changes the vector in place as the new contents it leaves. */
module ByteBuffer {

  /** An unsigned 8-bit value: the element type of every buffer. */
  type uint8 = x: int | 0 <= x < 0x100

  function Min(a: nat, b: nat): nat {
    if a <= b then a else b
  }

  /** appendBuffer(buf, data, len): the contents of `buf` afterwards.
      The caller hands in a pointer to at least `len` readable bytes. */
  function Append(buf: seq<uint8>, data: seq<uint8>, len: nat): (r: seq<uint8>)
    requires len <= |data|
    ensures |r| == |buf| + len
    ensures r[..|buf|] == buf
    ensures r[|buf|..] == data[..len]
  {
    buf + data[..len]
  }

  /** consumeBuffer(buf, n): the contents of `buf` afterwards.  The count is
      clamped to the buffer's size, so the call never fails. */
  function Consume(buf: seq<uint8>, n: nat): (r: seq<uint8>)
    ensures buf == buf[..Min(n, |buf|)] + r
    ensures |r| == |buf| - Min(n, |buf|)
    ensures r == [] <==> n >= |buf|
  {
    buf[Min(n, |buf|)..]
  }

  /** `tail` is what is left of `whole` once some prefix has left from its
      front. */
  predicate Suffix(tail: seq<uint8>, whole: seq<uint8>) {
    |tail| <= |whole| && whole == whole[..|whole| - |tail|] + tail
  }

  /** The buffer is first-in first-out: consuming everything that was there
      before an append leaves exactly the appended bytes. */
  lemma AppendThenConsume(buf: seq<uint8>, data: seq<uint8>, len: nat)
    requires len <= |data|
    ensures Consume(Append(buf, data, len), |buf|) == data[..len]
  {
  }

  /** Two partial consumptions remove as much as one consumption of their
      sum (a short write followed by another write). */
  lemma ConsumeTwice(buf: seq<uint8>, m: nat, n: nat)
    ensures Consume(Consume(buf, m), n) == Consume(buf, m + n)
  {
    if m + n <= |buf| {
      assert buf[m..][n..] == buf[m + n..];
    }
  }

  /** Consuming at the front and appending at the back commute, as long as
      the consumption stays within the bytes that were already there. */
  lemma ConsumeAppendCommute(buf: seq<uint8>, n: nat, data: seq<uint8>, len: nat)
    requires n <= |buf| && len <= |data|
    ensures Consume(Append(buf, data, len), n) == Append(Consume(buf, n), data, len)
  {
    assert (buf + data[..len])[n..] == buf[n..] + data[..len];
  }

  /** Appending in two steps is appending the concatenation. */
  lemma AppendAssoc(a: seq<uint8>, b: seq<uint8>, c: seq<uint8>)
    ensures (a + b) + c == a + (b + c)
  {
  }
}
