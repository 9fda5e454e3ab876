# Echo server connection core, modelled in Dafny

This project models the per-connection part of the non-blocking echo server in
`test.cpp`. Each client connection has:

- an input buffer, holding bytes read from the socket that are not yet framed;
- an output buffer, holding bytes still to be written back;
- three intents: `wantRead`, `wantWrite` and `wantClose`.

Requests are length-prefixed frames: a 4-byte `uint32` length `L`, then `L`
payload bytes, with `L <= MAX_MSG = 32 << 20`. The server echoes every whole
frame back unchanged. The poll loop keeps one connection per file descriptor in
a table indexed by descriptor.

The model has four modules:

- `ByteBuffer` (`buffer.dfy`): `appendBuffer` and `consumeBuffer`, as
  functions on the buffer contents.
- `Framing` (`framing.dfy`):
  - the header decoding and the check `processOneRequest` makes;
  - `Drain`, a specification of the loop `while (processOneRequest(conn)) {}`;
  - the laws of that loop: conservation of bytes, frames in order, where it
    stops, split-invariance across reads, and the round trip of pipelined
    frames.
- `Connections` (`connection.dfy`): `Connection` is a class. Its buffers are
  `seq` fields that the handlers reassign.
  - `ProcessOneRequest`, `HandleWrite` and `HandleRead` are methods.
  - The drain loop is a `while` loop proved against `Drain`.
  - The outcome of each `read()`/`write()` system call is a parameter, given
    as `ReadResult` or `WriteResult`.
- `ConnectionTable` (`table.dfy`): the table as a class over
  `seq<Option<Connection>>`. It covers:
  - slot insertion with growth;
  - slot reset;
  - one pass of the client loop for one descriptor.

Two notes on the code:

- **The echoed header.** `processOneRequest` does not build a new header for
  the reply. It copies the four bytes of the decoded length, which are the
  four header bytes it received. `Framing.EncodeDecodeU32` shows that these
  bytes are the received header for every header.
- **Header byte order.** The length header is read with `memcpy` and never
  byte-swapped, so it is in host byte order. The model fixes a little-endian
  host. The echo returns the same bytes, so no echo property depends on this.

Each handler method states its new state as a pure function of its old
state: `WriteStep`, `DrainStep`, `ReadStep`, and `ServiceStep` for one pass
of the client loop. The handlers' behaviour, case by case, is then proved
about those functions as lemmas.

## Model

| member | source | states |
|---|---|---|
| `ByteBuffer.Append` | test.cpp:47-49 | The new buffer is the old buffer followed by exactly `data[0..len)`: its length is the sum, the old bytes are an unchanged prefix and the rest is the data. |
| `ByteBuffer.Consume` | test.cpp:52-54 | The buffer loses exactly its first `min(n, size)` bytes and keeps the rest in order. It becomes empty iff `n >= size`. It has no precondition, so it never fails. |
| `ByteBuffer.AppendThenConsume` | test.cpp:47-54 | The buffer is FIFO: consuming the old size after an append leaves exactly the appended bytes. |
| `ByteBuffer.ConsumeTwice` | test.cpp:52-54 | Consuming `m` bytes and then `n` bytes equals consuming `m + n` bytes, including past the end. |
| `ByteBuffer.ConsumeAppendCommute` | test.cpp:47-54 | Consuming within the old contents and appending at the back commute. |
| `Framing.DecodeU32` | test.cpp:87-88 | The value `memcpy` copies out of the first 4 bytes into a `uint32` on a little-endian host. It is always below 2^32. |
| `Framing.EncodeU32` | test.cpp:103 | The 4 in-memory bytes of a `uint32`, which the echo appends through `&len`. They are exactly 4 bytes, and their little-endian value is the number itself. |
| `Framing.DecodeEncodeU32` | test.cpp:87-103 | Writing a `uint32` out as its 4 in-memory bytes and reading them back gives the same value, whatever follows. |
| `Framing.EncodeDecodeU32` | test.cpp:87-103 | The 4 bytes of the decoded length are exactly the 4 header bytes received, so the echo of `&len` reproduces the request header. |
| `Framing.Classify` | test.cpp:85-95 | Three verdicts on the buffer front. `Complete(L)` implies `L <= MAX_MSG` and `4 + L` bytes buffered. `TooLong` implies at least 4 bytes and a declared length above `MAX_MSG`. |
| `Framing.ClassifyExtend` | test.cpp:85-95 | A `Complete` or `TooLong` verdict does not change when more bytes arrive behind the buffer; only `Incomplete` can be revised by a later read. |
| `Framing.EncodeFrame` | test.cpp:103-104 | A header followed by a payload of at most `MAX_MSG` bytes is a legal frame whose payload is that payload. |
| `Framing.FrameRoundTrip` | test.cpp:97-104 | Every legal frame is the encoding of its own payload. |
| `Framing.ClassifyFrame` | test.cpp:85-97 | A legal frame at the front of any buffer is classified `Complete` with its own length, and it splits off exactly. |
| `Framing.Drain` | test.cpp:150 | Specifies the loop `while (processOneRequest(conn)) {}` on an input buffer: the frames it echoes, in order, the bytes it leaves, and whether it stopped at an oversized header. Its own contract says only that the leftover is never longer than the input. The lemmas below prove its properties. |
| `Framing.DrainConserves` | test.cpp:106 | Draining loses and invents no byte: the extracted frames, concatenated, followed by the leftover bytes, are exactly the input buffer. |
| `Framing.DrainFramesLegal` | test.cpp:85-104 | Every extracted frame is a complete, legal frame. |
| `Framing.DrainStops` | test.cpp:150 | The drain loop stops either at a header declaring more than `MAX_MSG` (reported as a violation) or at an incomplete frame, and never with a whole legal frame at the front. |
| `Framing.DrainAppend` | test.cpp:148-150 | Draining a buffer after more bytes arrive continues where draining its prefix stopped. A violation in the prefix is final. |
| `Framing.Feed` | test.cpp:131-150 | Successive `handleRead` calls, each appending one chunk to the leftover bytes and draining, with no further read after a violation. Every frame it echoes is a complete, legal frame. |
| `Framing.FeedSplitInvariant` | test.cpp:131-150 | However the byte stream is cut into reads, the frames extracted and the violation verdict are those of one read of the whole stream, and so are the leftover bytes when there is no violation. |
| `Framing.DrainEncodedFrames` | test.cpp:150 | Back-to-back frames are all extracted, in order, with nothing left over and no violation. |
| `Framing.ThreePipelinedFrames` | test.cpp:150 | Three pipelined frames in one buffer are extracted as exactly those three frames. This is the list law `DrainEncodedFrames` applied to three payloads. |
| `Framing.PipelinedScenario` | test.cpp:150 | The concrete frames "a", "bb" and "ccc" in one read are each extracted in order. |
| `Framing.OversizedHeader` | test.cpp:89-92 | A header declaring `MAX_MSG + 1` stops the drain at once with a violation, extracts nothing and leaves the buffer as it was. |
| `Connections.AfterWrite` | test.cpp:114-122 | After a write, the output buffer loses exactly the prefix the kernel accepted, clamped to its size. A failed or would-block write removes nothing. |
| `Connections.WriteStep` | test.cpp:111-128 | The state `handleWrite` leaves. Output leaves only from its front, input is untouched, a close intent is never withdrawn, and interest keeps following the output. |
| `Connections.WriteStepCases` | test.cpp:112-127 | Empty output or a would-block write changes nothing. Another error only sets `wantClose`. A write of `n` bytes drops exactly the first `n` bytes, clamped, and the flags flip to read interest iff the output becomes empty. |
| `Connections.ReadStep` | test.cpp:131-157 | The state `handleRead` leaves. A close intent is never withdrawn, a failed read or EOF always sets it, and interest keeps following the output. |
| `Connections.ReadStepCases` | test.cpp:133-156 | Would-block changes nothing. Error or EOF only sets `wantClose`. Data: the input becomes the drain's leftover and the echoes are queued behind the old output. When output is pending, the connection turns to write interest and the output is written once, the flags then following the output. `wantClose` records a violation or a write error. |
| `Connections.ReadStepConserves` | test.cpp:131-157 | No byte is lost or invented by a read. The old output, the old input and the bytes just read, in that order, are the bytes written to the socket, then the output still queued, then the input still buffered. |
| `Connections.EchoOneFrame` | test.cpp:131-157 | A fresh connection that reads one whole frame echoes it. With the write blocked, the frame waits in the output under write interest. When the kernel takes all of it, the connection is idle again. |
| `Connections.Connection.constructor` | test.cpp:77-79 | A fresh connection has its descriptor, read interest only, no close intent and empty buffers. Interest follows output from the start. |
| `Connections.Connection.ProcessOneRequest` | test.cpp:84-108 | Returns true iff a whole legal frame is at the front. Otherwise: on fewer than 4 bytes or a partial frame, nothing changes; on a length above `MAX_MSG`, only `wantClose` is set. On success, exactly `incoming[0..4+L)` is appended to `outgoing` and removed from `incoming`. `outgoing ++ incoming` is preserved, and the read/write intents never change. |
| `Connections.Connection.HandleWrite` | test.cpp:111-128 | The new state is `WriteStep(old state, w)`. With empty output nothing changes at all, and interest-follows-output is preserved. |
| `Connections.Connection.HandleRead` | test.cpp:131-157 | The new state is `ReadStep(old state, r, w)`. Would-block changes nothing at all, and interest-follows-output is preserved. |
| `Connections.Connection.Receive` | test.cpp:148-156 | After a read that returned bytes, the new state is `ReadStep` for that read: append, drain, and write at once if output is pending. |
| `Connections.Connection.DrainRequests` | test.cpp:150 | The loop `while (processOneRequest(conn)) {}` terminates. It leaves `incoming` equal to the drain's leftover and appends the drained frames, in order, to `outgoing`. It sets `wantClose` exactly on a violation, keeps the intents, and so leaves `DrainStep(old state)`. |
| `Connections.ServiceStep` | test.cpp:229-230 | `handleRead` if readable, then `handleWrite` if writable. A close intent is never withdrawn, a failed read or EOF on a readable connection always ends in a close intent, and interest keeps following the output. |
| `Connections.Connection.OnReady` | test.cpp:229-230 | The connection's new state is `ServiceStep` of its old state: `handleRead` if poll reported it readable, then `handleWrite` if writable. |
| `ConnectionTable.Inserted` | test.cpp:217-219 | After a resize (when the descriptor does not fit) and a store, the slot at `fd` holds the new connection. Old slots are unchanged, new slots are empty, and indexing by descriptor is preserved. |
| `ConnectionTable.Removed` | test.cpp:234 | Resetting slot `fd` empties it, changes no other slot and keeps the size. Indexing by descriptor is preserved. |
| `ConnectionTable.LookupByOwnFd` | test.cpp:226 | In a table indexed by descriptor, looking up a connection by its own descriptor finds the same connection. |
| `ConnectionTable.InsertThenRemove` | test.cpp:217-234 | Inserting a connection and then resetting its slot leaves the old slots as they were, with that slot emptied. Any slots added by the resize are empty. |
| `ConnectionTable.Table.constructor` | test.cpp:184 | The table starts empty and indexed by descriptor. |
| `ConnectionTable.Table.Insert` | test.cpp:217-219 | The table becomes `Inserted(old table, conn)`. Indexing by descriptor is preserved. |
| `ConnectionTable.Table.Reset` | test.cpp:234 | The table becomes `Removed(old table, fd)`. Indexing by descriptor is preserved. |
| `ConnectionTable.Table.Service` | test.cpp:226-235 | An empty slot is skipped. Otherwise the connection's new state is `ServiceStep` of its old state. The slot is reset iff poll reported an error or the connection now wants to close, and no other slot changes. |
| `ConnectionTable.ReadErrorCloses` | test.cpp:226-234 | A connection inserted into the table whose read then fails is closed, and its slot emptied, in the same pass of the client loop. |

## Left out

- Socket setup and the event loop in `main` (test.cpp:160-214, 224-225, 237-246): `socket`, `setsockopt`, `bind`, `listen`, `poll` and building the interest set. These are operating-system I/O. One pass of the client loop for one descriptor is modelled by `Table.Service`.
- `close(conn->fd)` at test.cpp:233: releasing the descriptor is a system call. Only the slot reset is modelled.
- `handleAccept` and `setNonBlocking` (test.cpp:26-33, 57-81) are system calls and printing. Only the connection they build is modelled, as `Connection.constructor`. `accept()` is taken to return a non-negative descriptor, which `Table.Insert` requires.
- `die` and its exception (test.cpp:21-23), and all logging, including the "Client says" print at test.cpp:98-100. They do not change connection state.
- server.cpp and client.cpp: a blocking single-client server and a synchronous test client. Neither is part of this model.
- `errno` is folded into the syscall outcome. `EAGAIN` is the would-block case. Every other failure, `EINTR` included, is an error, as the code's comparison with `EAGAIN` alone does.
- The stack scratch buffer of `handleRead` is modelled by the bytes it receives. A read delivers at most 64 KiB (`ReadChunk`).
- The count that `write()` returns is not required to be at most the buffer size. `consumeBuffer` clamps it, and the model keeps that clamp.
- The header is decoded as a little-endian host would decode it. A big-endian host reads a different length from the same bytes. That changes which frames are legal, but not the fact that the echo copies the header bytes.
- `Table.Service` covers one descriptor per call. The order in which the loop visits descriptors, and `POLLHUP`/`POLLNVAL` (which the code does not test), are not modelled.
- `Connections.Connection.HandleWrite`: a failed write only sets `wantClose`. The model assumes a write to a peer that has gone away returns an error rather than raising SIGPIPE. test.cpp never ignores SIGPIPE, so its default action would end the whole server before the close at test.cpp:117-118.
- `Framing.Drain`: its own contract bounds only the leftover's length. Conservation, legality and the stop condition are the separate lemmas `DrainConserves`, `DrainFramesLegal` and `DrainStops`, which keeps every proof that unfolds `Drain` small.
- Ownership through `std::unique_ptr` is modelled as object references in the table's slots. The destruction of the connection when its slot is reset is not modelled.
