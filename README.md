# RIO remote I/O protocol, modelled in Dafny

This project models the remote-I/O (RIO) layer of the fdio library,
`system/ulib/fdio/remoteio.c`. RIO makes a remote file, directory, socket or
service look like a local fd object. It does this by exchanging fixed-layout
messages (a header, up to three inline handles and up to one chunk of payload)
over a Zircon channel.

The model covers both sides:

- **Client.** The connection object `zxrio_t` (its control channel `h`, its
  event handle `h2` and its transaction counter) and every operation the fd
  layer calls on it: transactions, chunked reads and writes, seek, close,
  ioctl, the miscellaneous ops, clone, unwrap and the wait-signal translation.
- **Opening.** The open negotiation: pipelined connects, describe-opens,
  `zxrio_getobject`, and turning the resulting handles into fdio objects.
- **Server.** The read/dispatch/reply cycle.

## Modules

- **`Wire`** (wire.dfy) is the message datatype and the protocol constants,
  plus the validators `IsMessageValid` and `IsMessageReplyValid`. It also holds
  32-bit little-endian words and byte-buffer overlays.
- **`Transport`** (transport.dfy) is the kernel as far as RIO sees it, a
  `Kernel` class:
  - `owned` is the set of handles the process holds, and `next` is the source
    of new handle values.
  - `closed` logs every `zx_handle_close`, and `sent` logs every channel write.
  - `channels` records, as ghost state, the two ends of every channel created.
  - `Close` demands ownership, so no handle can be closed twice.
  - What a channel call, read or create runs into is an outcome datatype passed
    in as a parameter.
- **`Exchange`** (exchange.dfy) gives the status `zxrio_txn` ends with for each
  outcome (`TxnStatus`) and the reply it hands back (`ReplyOf`).
- **`Chunked`** (chunked.dfy) states the `write_common`/`read_common` loops as
  a trace of rounds (`Steps`), with lemmas about chunk sizes, counts, the
  result and the bytes copied.
- **`IoctlLayout`** (ioctl.dfy) covers the ioctl argument checks, the request
  it builds, and the layout of its output buffer.
- **`Negotiate`** (negotiate.dfy) covers `zxrio_connect`,
  `zxrio_sync_open_connection`, `zxrio_getobject` and the `fdio_service_*`
  helpers.
- **`Rio`** (remote.dfy) is the `Remote` class (`zxrio_t`) and its operations.
- **`Signals`** (signals.dfy) is the `wait_begin`/`wait_end` bit translation,
  on `bv32`.
- **`Server`** (server.dfy) covers `zxrio_read_msg`, `zxrio_respond`,
  `zxrio_handle_rpc`, `zxrio_handle_close` and `zxrio_handler`.
- **`Objects`** (objects.dfy) covers `fdio_remote_create`, `fdio_from_handles`,
  `zxrio_open_handle(_raw)` and `zxrio_open`.

## Handle ownership

Handle ownership runs through the whole model. Each operation's contract says
which of these happens to every handle it touches:

- it stays with the caller (`k.owned`),
- it is sent to the far end (`k.sent`), or
- it is closed (`k.closed`).

Handles the operation receives are always fresh, that is, at or above the old
`k.next`. `ClosedOnlyFresh` says that an operation closed nothing the caller
held before, apart from the handles it names.

## Model

| member | source | states |
|---|---|---|
| Wire.ReplyValidBounds | system/ulib/fdio/remoteio.c:75-88 | a reply the validator accepts has a whole header, a payload length equal to the bytes after it (so at most one chunk), and at most FDIO_MAX_HANDLES handles |
| Wire.Live | system/ulib/fdio/remoteio.c:90-94 | the handles a message carries are its first `hcount` slots; there are never more than the count nor more than the slots |
| Wire.ZxrioOp | system/ulib/fdio/remoteio.c:244-245 | the op with its handle-count bits masked off, as the reply check compares it |
| Wire.ReadLe32Le32 | system/ulib/fdio/remoteio.c:302-311 | reading back a 32-bit little-endian word gives the handle value written, modulo 2^32 |
| Wire.WordsAt | system/ulib/fdio/remoteio.c:333-350 | word i of the packed handle array is handle i |
| Transport.Kernel.Close | system/ulib/fdio/remoteio.c:90-94 | closing removes a held handle from the table and logs it; ZX_HANDLE_INVALID is a no-op; closing a handle not held is impossible |
| Transport.Kernel.Discard | system/ulib/fdio/remoteio.c:90-94 | discard_handles closes exactly the given handles, in order, and nothing else |
| Transport.Kernel.Call | system/ulib/fdio/remoteio.c:221-231 | a channel call sends the request unless the write fails; a failed write leaves its handles with the caller; a reply's handles are fresh, distinct and now held |
| Transport.Kernel.Read | system/ulib/fdio/remoteio.c:101-104 | a channel read gives the message, the byte count and the kernel's handle count; received handles are fresh and held |
| Server.ReadMsg | system/ulib/fdio/remoteio.c:96-114 | the header's handle count is replaced by the kernel's before validation; a rejected message has exactly its received handles closed and gives ZX_ERR_INVALID_ARGS; acceptance iff the reply validator holds with the kernel's count |
| Server.AcceptedIgnoresClaimedCount | system/ulib/fdio/remoteio.c:97-107 | whatever handle count the peer writes in its header, acceptance does not change |
| Server.ReplyArg | system/ulib/fdio/remoteio.c:146-156 | a negative callback status is kept; an invalid reply with a non-negative status becomes ZX_ERR_INTERNAL; a valid one keeps its status |
| Server.Respond | system/ulib/fdio/remoteio.c:145-165 | the reply is always ZXRIO_STATUS; an error or invalid reply is stripped of its payload and handles, which are closed; a failed write closes the handles; every live handle ends up either sent or closed |
| Server.StatusReply | system/ulib/fdio/remoteio.c:145-160 | the reply on the wire is ZXRIO_STATUS with ReplyArg as its status and the callback's txid and arg2; an error or invalid reply carries no payload and no handles, a valid one its payload and live handles |
| Server.OversizedCountAsWritten | system/ulib/fdio/remoteio.c:146-150 | as written, a reply claiming 4 handles makes the strip close the header's fourth slot, where no handle was placed, and one claiming 5 walks past the four-slot array; Respond closes only the three placed handles |
| Server.HandleClose | system/ulib/fdio/remoteio.c:167-177 | the callback is shown a close request with no payload and no handles, and the result is ZX_OK |
| Server.HandleRpc | system/ulib/fdio/remoteio.c:116-143 | a read error or rejected request is returned as is; INDIRECT gives ZX_OK and ASYNC gives ASYNC, with nothing sent; otherwise the callback's reply (its status, arg2, payload and handles on the request's header) goes out as StatusReply when the write succeeds, and a close request ends with DONE, any other with the write's status; nothing else is sent; the process ends holding what it held before |
| Server.Handler | system/ulib/fdio/remoteio.c:179-186 | an invalid handle means the peer closed, and the result is ZX_OK with nothing sent or closed; otherwise exactly HandleRpc's results: the read status, ZX_OK for INDIRECT, ASYNC, DONE after a close, or the write's status, and the reply sent only on the ordinary path |
| Exchange.TxnStatus | system/ulib/fdio/remoteio.c:231-253 | write-phase failure gives the write status, read-phase failure gives the read status, a malformed or non-STATUS reply gives ZX_ERR_IO, and otherwise the reply's own status; a non-negative result means an accepted reply |
| Rio.NextTxid | system/ulib/fdio/remoteio.c:214 | the transaction counter advances by one and stays within 32 bits |
| Rio.TxidAfterWraps | system/ulib/fdio/remoteio.c:214 | n transactions after id, the counter is (id + n) mod 2^32 |
| Rio.Remote.constructor | system/ulib/fdio/remoteio.c:1011-1025 | a new object holds both handles and starts its transaction ids at 1 |
| Rio.Remote.Txn | system/ulib/fdio/remoteio.c:207-261 | an invalid message is refused untouched; otherwise the request takes the next txid and is sent unless the write fails; a failed write closes the request's handles; on every negative return no handles are handed back and the caller holds none of the request's; on success the reply is the accepted one, with fresh distinct handles now held |
| Rio.Remote.TxnNoHandles | system/ulib/fdio/remoteio.c:469-487 | a handle-less transaction whose reply handles are all closed leaves the handle table as it was |
| Chunked.Xfer | system/ulib/fdio/remoteio.c:370-371 | each chunk is min(len, FDIO_CHUNK_SIZE), and is positive while bytes remain |
| Chunked.ChunkStatus | system/ulib/fdio/remoteio.c:427-435 | a transaction error is kept; a count above the chunk (or, for reads, above the payload received) is ZX_ERR_IO; otherwise the count |
| Chunked.StepsXfer | system/ulib/fdio/remoteio.c:370-398 | each round asks for the smaller of one chunk and what remains, and the rounds cover the range in order |
| Chunked.StepsStatus | system/ulib/fdio/remoteio.c:427-436 | each round's status is ChunkStatus of its own transaction, and a read copies exactly its count |
| Chunked.StepsChain | system/ulib/fdio/remoteio.c:389-397 | every round before the last moved its whole chunk, and the next round starts where it ended (the offset advances by exactly the bytes moved) |
| Chunked.StepsEnd | system/ulib/fdio/remoteio.c:370-397 | the loop stops only at a short or failed round, or when nothing remains |
| Chunked.MovedBound | system/ulib/fdio/remoteio.c:362-400 | the bytes counted never exceed the request |
| Chunked.DataLength | system/ulib/fdio/remoteio.c:436-438 | a read copies out exactly as many bytes as it counts |
| Chunked.ResultMeaning | system/ulib/fdio/remoteio.c:399 | the result is the byte count when it is non-zero; an error is returned only when nothing moved, and it is the first round's status |
| Chunked.FullRounds | system/ulib/fdio/remoteio.c:370-398 | when no round is short, every byte moves in ceil(len / FDIO_CHUNK_SIZE) transactions |
| Rio.Remote.WriteChunk | system/ulib/fdio/remoteio.c:371-391 | one write transaction sends the chunk at the right offset, closes the reply's handles, and refuses a count above the chunk |
| Rio.Remote.WriteCommon | system/ulib/fdio/remoteio.c:362-408 | the result, the transaction ids used and every request sent are those of the trace `Steps`; the handle table is unchanged |
| Rio.Remote.ReadChunk | system/ulib/fdio/remoteio.c:419-435 | one read transaction asks for the chunk at the right offset, closes the reply's handles, and refuses a count above the chunk or the payload |
| Rio.Remote.ReadCommon | system/ulib/fdio/remoteio.c:410-457 | the result, the requests and the buffer follow the trace: the buffer starts with the bytes read and the rest is untouched |
| Rio.Remote.Seek | system/ulib/fdio/remoteio.c:459-475 | a SEEK request carrying whence and offset; the reply's offset on success, the transaction error otherwise; reply handles are closed |
| Rio.Remote.Close | system/ulib/fdio/remoteio.c:477-499 | a CLOSE request, then both handles are closed whatever the answer and both fields are zeroed; the result is the transaction's status |
| IoctlLayout.GetSlots | system/ulib/fdio/remoteio.c:280-295 | the GET kinds take 1, 2 or 3 handles and the other kinds take none |
| IoctlLayout.SetSlots | system/ulib/fdio/remoteio.c:296-312 | the SET kinds send 1 or 2 handles and the other kinds send none |
| IoctlLayout.InHandles | system/ulib/fdio/remoteio.c:296-312 | the handles sent are the leading 32-bit words of the input, as many as the kind sends |
| IoctlLayout.IoctlRequest | system/ulib/fdio/remoteio.c:274-315 | the request is a valid message with the input as payload, the output size in arg and the ioctl op in arg2; SET kinds use IOCTL_1H/IOCTL_2H and carry their handles |
| IoctlLayout.IoctlOutMeaning | system/ulib/fdio/remoteio.c:321-356 | the output has the received handles in its leading words, zero words for missing ones, then the rest of the payload cut to out_len, then the old contents |
| IoctlLayout.LostHandleAsWritten | system/ulib/fdio/remoteio.c:338-354 | a GET_TWO reply with one handle: as written the handle's word is zeroed, while the corrected layout keeps it |
| Rio.Remote.Ioctl | system/ulib/fdio/remoteio.c:263-360 | oversized buffers, and buffers too small for the kind's handles, are refused with nothing sent; on success the output has the IoctlOut layout, and the handles kept are the first min(hcount, slots), with the rest closed |
| Rio.Remote.IoctlTake | system/ulib/fdio/remoteio.c:321-357 | the reply half: the payload cut to out_len, the kept handles packed over it, and every other handle closed |
| Rio.MiscTokens | system/ulib/fdio/remoteio.c:658-665 | RENAME and LINK pass the 32-bit token in the offset as their one handle; other ops pass none |
| Rio.MiscRequest | system/ulib/fdio/remoteio.c:650-665 | the request carries op, maxreply, the offset, the payload and the token handle, and is a valid message |
| Rio.Remote.Misc | system/ulib/fdio/remoteio.c:640-702 | len or maxreply above one chunk is refused with nothing sent; otherwise as MiscSend |
| Rio.Remote.MiscSend | system/ulib/fdio/remoteio.c:650-702 | MMAP needs exactly one handle and a payload within maxreply, and returns the handle; FCNTL copies back the mode word; other ops copy back a payload within maxreply, else ZX_ERR_IO; all handles but MMAP's are closed |
| Rio.Remote.MiscTake | system/ulib/fdio/remoteio.c:671-701 | the reply half, per op, with the handle table left as the base plus, for a successful MMAP, its one handle |
| Rio.Remote.KeepHandles | system/ulib/fdio/remoteio.c:357 | the first n reply handles stay held and the rest are closed, in order |
| Rio.Remote.Unwrap | system/ulib/fdio/remoteio.c:949-963 | the control channel, then the event handle if any; the result is their number |
| Rio.Remote.WaitBegin | system/ulib/fdio/remoteio.c:965-977 | waits on h2, for the translated signals, which always include POLLERR |
| Signals.WaitBeginSignals | system/ulib/fdio/remoteio.c:965-977 | the low five poll bits with POLLERR are shifted up by 24; PEER_CLOSED is set iff POLLRDHUP was asked for; nothing else is set |
| Signals.WaitEndEvents | system/ulib/fdio/remoteio.c:979-986 | the signals shifted down by 24 and masked to five bits, plus POLLRDHUP iff PEER_CLOSED; nothing else |
| Signals.WaitRoundTrip | system/ulib/fdio/remoteio.c:965-986 | wait_end after wait_begin gives back the requested poll bits with POLLERR, plus POLLRDHUP iff it was requested |
| Rio.Remote.Clone | system/ulib/fdio/remoteio.c:926-941 | sends a ZXRIO_CLONE request for "" with the describe flag and a new channel's server end on the control channel; it returns the client end of that channel, then the record's handle if it carried one, and their number; or an error with nothing new held |
| Negotiate.ConnectRequest | system/ulib/fdio/remoteio.c:565-573 | the request carries op, flags, mode, the name and the one connection handle |
| Negotiate.Connect | system/ulib/fdio/remoteio.c:550-582 | cnxn is consumed on every path; a name of PATH_MAX or more is ZX_ERR_BAD_PATH; the describe flag is ZX_ERR_INVALID_ARGS; otherwise the result is the write's status |
| Negotiate.OpenStatus | system/ulib/fdio/remoteio.c:534-538 | a record of the wrong size or op is ZX_ERR_IO; the result is never positive, and it is ZX_OK exactly for a well-formed record with status ZX_OK |
| Negotiate.PositiveStatusAsWritten | system/ulib/fdio/remoteio.c:534-546 | a well-formed record with status 1: as written the open reports 1 |
| Objects.PositiveStatusRawAsWritten | system/ulib/fdio/remoteio.c:899-919 | as written, that record makes zxrio_open_handle_raw report ZX_OK with ZX_HANDLE_INVALID as the channel, after the record's handle was closed twice |
| Negotiate.DescribeStatus | system/ulib/fdio/remoteio.c:525-538 | a read failure gives its status; ZX_OK only for a described record with status ZX_OK |
| Negotiate.SyncOpen | system/ulib/fdio/remoteio.c:501-548 | the server end goes with the request; on success the client end and the record's handle (if any) are fresh and held; on every error both ends and any received handle are closed, and the handle table is unchanged |
| Negotiate.GetObject | system/ulib/fdio/remoteio.c:844-882 | a missing name is INVALID_ARGS and a long one BAD_PATH; the describe flag gives a describe-open that sends `op`; otherwise a pipelined ZXRIO_OPEN whose faked record says REMOTE with no handle; the request carries the server end of a new channel whose client end is returned; the result is ZX_OK iff a channel is returned |
| Negotiate.ServiceConnectAt | system/ulib/fdio/remoteio.c:598-609 | h is consumed on every path; no path gives INVALID_ARGS; no directory gives UNAVAILABLE; a path of PATH_MAX bytes or more gives BAD_PATH; otherwise a read-write open with mode 0755, sent iff the result is ZX_OK |
| Negotiate.ServiceClone | system/ulib/fdio/remoteio.c:611-626 | sends svc a read-write ZXRIO_CLONE request for "" with mode 0755 carrying a new channel's server end, and returns that channel's client end; or ZX_HANDLE_INVALID iff svc is invalid or a step failed, with nothing sent and nothing new held |
| Negotiate.ServiceCloneTo | system/ulib/fdio/remoteio.c:628-638 | an invalid srv is refused untouched; otherwise srv is consumed, and the clone request is sent iff the result is ZX_OK |
| Objects.RemoteCreate | system/ulib/fdio/remoteio.c:1011-1025 | a new object over h and e, or, when allocation fails, both handles closed and no object |
| Objects.FromHandles | system/ulib/fdio/remoteio.c:746-842 | REMOTE and the sockets take one or two handles, VMOFILE exactly two (closing the first), SERVICE and PIPE exactly one; a wrong count is INVALID_ARGS and an unknown type NOT_SUPPORTED, with all handles closed; every handle given ends up in the object, closed, or taken by the constructor |
| Objects.OpenHandle | system/ulib/fdio/remoteio.c:884-897 | the process ends holding what it held before plus, on success, exactly the new object's handles, all of them fresh |
| Objects.OpenHandleRaw | system/ulib/fdio/remoteio.c:899-919 | on success exactly one fresh channel is added; a non-REMOTE object has both its handles closed and gives ZX_ERR_WRONG_TYPE |
| Objects.Open | system/ulib/fdio/remoteio.c:921-924 | an open relative to the object's own channel, with the same handle accounting as OpenHandle |

## Left out

- The zxrio/fdio headers are not part of this model. The constants in
  `Wire` take the values of that era's Zircon headers:
  - sizes: FDIO_CHUNK_SIZE 8192, FDIO_MAX_HANDLES 3, FDIO_IOCTL_MAX_INPUT
    1024, ZXRIO_HDR_SZ 48 (with a four-slot handle array), PATH_MAX 4096;
  - the op codes, status codes and poll/signal bits.
  The proofs depend on their relations, not on their exact values.
- Syscalls are not executed. Every channel call, read, write and create, and
  `zx_object_wait_one`, is an outcome supplied as a parameter. Blocking waits
  and timeouts are not modelled.
- The atomicity of the transaction counter is not modelled. It is a plain
  field incremented once per transaction, with 32-bit wrap-around.
- `rchannel_cleanup`, `__fdio_rchannel_init`, `fdio_opname` and the debug
  output (`xprintf`) are left out. They are thread-local plumbing and
  printing.
- `fdio_create_fd` and `fdio_service_connect` are left out. They depend on the
  fd table and the namespace, which are outside this layer.
  `zxrio_txn_handoff` is left out too: it is a one-way forward with no result
  to check.
- The external constructors `fdio_service_create`, `fdio_pipe_create`,
  `fdio_vmofile_create` and `fdio_socket_create` are outside this model. They
  are taken to take the handles they are given whether they succeed or fail;
  whether they close them is not modelled.
- Objects.FromHandles models the build without `WITH_NEW_SOCKET`: a socket
  takes one or two handles. The other build needs exactly two and closes the
  first.
- Allocation failure (`calloc` returning NULL) is a boolean parameter. `free`
  of the object is not modelled: Rio.Remote.Unwrap leaves the object in
  place.
- Handles are unbounded naturals. A handle written into a 32-bit word is taken
  modulo 2^32 (`Le32`), and the RENAME/LINK token is the offset modulo 2^32.
- Rio.Remote.Misc: for a successful MMAP the result is the received handle,
  which the model keeps as the non-negative status it is. The caller must pass
  a buffer when MMAP may copy a payload; the source writes through `ptr`
  without checking it.
- Rio.Remote.Txn: an invalid message is returned with its handles unclosed and
  its `hcount` untouched. The comment above `zxrio_txn` says that no handles
  remain on error, but the code returns before touching them, and the model
  follows the code.
- Bytes the source leaves uninitialised (the ioctl output past the copied
  payload, the zeroed header fields) are modelled as zeros or as the old
  buffer contents.
- Server.HandleRpc: the callback's reply is its status, `arg2`, payload,
  handle count and the handles it places. Changes a callback makes to the
  other header fields (txid, op, reserved) are not modelled; the reply keeps
  the request's values for them.
- Messages hold the FDIO_MAX_HANDLES handle slots a handle can be placed in.
  The header's fourth slot (ZXRIO_HANDLE_SLOTS) never carries a handle and
  appears only in Server.OversizedCountAsWritten.
- Rio.Remote.Ioctl and Rio.Remote.Misc take the handles a caller passes in
  (the SET-kind words of an ioctl input, the RENAME/LINK token taken from the
  offset) to be valid, held, distinct and not the object's own `h` or `h2`.
  The source sends any 32-bit word; the kernel's refusal of a bad handle,
  which the caller would see as an error status from the channel call, is
  not modelled.
- Rio.Remote.WaitBegin models only the handle and signal set it reports. The
  wait itself belongs to the caller.

## Findings

| source | as written | input that shows it | evidently intended | confidence | as-written member | corrected member |
|---|---|---|---|---|---|---|
| system/ulib/fdio/remoteio.c:338-354 | for GET_TWO/GET_THREE, the zero fill for missing slots is written at the start of `out_buf`, over the handles just copied | a GET_TWO_HANDLES reply with one handle: the handle word is zeroed, so the caller never sees it and it leaks | zero only the slots after the copied handles | not executed; depends on a server sending fewer handles than slots | IoctlLayout.LostHandleAsWritten | Rio.Remote.Ioctl |
| system/ulib/fdio/remoteio.c:146-150 | an error or invalid reply is stripped by `discard_handles(msg->handle, msg->hcount)`, with `hcount` set by the callback | a callback reply with `hcount` 4 (invalid, since FDIO_MAX_HANDLES is 3): the header's fourth handle slot, where no handle was placed (uninitialised in `zxrio_handler`'s stack message), is closed; with `hcount` 5 the strip reads past the four-slot array | close only the handles that were placed | not executed; depends on a callback reporting more handles than slots | Server.OversizedCountAsWritten | Server.Respond |
| system/ulib/fdio/remoteio.c:534-546 | a describe record's status is returned as is, and anything other than ZX_OK closes the new channel and handle | a well-formed record with status 1: the channel is closed, `*out` is ZX_HANDLE_INVALID, and callers testing `r < 0` take the open as a success: `zxrio_open_handle_raw` reports ZX_OK with ZX_HANDLE_INVALID and closes the record's handle a second time | a positive status is treated as an error (ZX_ERR_IO) | not executed; depends on a server sending a positive status | Objects.PositiveStatusRawAsWritten | Negotiate.SyncOpen |
