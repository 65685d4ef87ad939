/** The server side of RIO: read one request off a channel, hand it to the
    registered callback, and send the status reply it computes (or leave the
    reply to the callback when it says it handled it itself). */
module Server {
  import opened Wire
  import opened Transport

  /** What the registered callback does with one request: the value it returns
      (possibly ERR_DISPATCHER_INDIRECT or ERR_DISPATCHER_ASYNC) and the reply
      it leaves in the message (`arg2` carries an offset or a protocol). The
      callback takes the request's handles; the `hcount` it sets may be more
      than FDIO_MAX_HANDLES, in which case only the slots it filled carry
      handles. */
  datatype Callback = Callback(arg: int, arg2: int, datalen: nat, data: seq<byte>, hcount: nat)

  /** A callback result that leaves the reply to the dispatcher. */
  predicate Ordinary(cb: Callback)
  {
    cb.arg != ERR_DISPATCHER_INDIRECT && cb.arg != ERR_DISPATCHER_ASYNC
  }

  /** The request zxrio_read_msg accepts: a whole message whose claimed payload
      length matches the bytes received, validated with the handle count the
      kernel reports rather than the one in the peer's bytes. */
  predicate Accepted(o: ReadOutcome)
  {
    var d := Readable(o);
    d.Message? && IsMessageReplyValid(d.msg.(hcount := d.mn), ZXRIO_HDR_SZ + |d.msg.data|)
  }

  /** Whatever handle count the peer writes into its own header, acceptance is
      the same: only the kernel's count is used. */
  lemma AcceptedIgnoresClaimedCount(m: Msg, n: nat, claimed: nat)
    ensures Accepted(Message(m, n)) == Accepted(Message(m.(hcount := claimed), n))
    ensures Accepted(Message(m, n)) ==>
              m.datalen == |m.data| && m.datalen <= FDIO_CHUNK_SIZE && n <= FDIO_MAX_HANDLES
  {
    var d := Readable(Message(m, n));
    var d' := Readable(Message(m.(hcount := claimed), n));
    assert d.Message? <==> d'.Message?;
    if d.Message? {
      assert d.msg.(hcount := n) == d'.msg.(hcount := n);
    }
  }

  /** zxrio_read_msg: reads one message, replaces the header's handle count by
      the kernel's, and rejects (closing every handle received) a message the
      reply validator refuses. */
  method ReadMsg(k: Kernel, h: Handle, buf: Msg, o: ReadOutcome) returns (r: int, msg: Msg)
    requires k.Valid()
    modifies k
    ensures k.Valid() && k.sent == old(k.sent) && k.next >= old(k.next)
    ensures Readable(o).NoMessage? ==>
              r == Readable(o).status && k.owned == old(k.owned) && k.closed == old(k.closed)
    ensures !Readable(o).NoMessage? ==> msg.hcount == |msg.handle|
    ensures Readable(o).Message? ==>
              msg.hcount == Readable(o).mn &&
              msg == Readable(o).msg.(hcount := msg.hcount, handle := msg.handle)
    ensures !Readable(o).NoMessage? && !Accepted(o) ==>
              r == ZX_ERR_INVALID_ARGS && k.owned == old(k.owned) &&
              k.closed == old(k.closed) + msg.handle
    ensures r == ZX_OK <==> Accepted(o)
    ensures r == ZX_OK ==>
              k.closed == old(k.closed) && Distinct(msg.handle) &&
              MintedSince(msg.handle, old(k.next)) && HANDLE_INVALID !in msg.handle &&
              k.owned == old(k.owned) + Elems(msg.handle) &&
              IsMessageReplyValid(msg, ZXRIO_HDR_SZ + |msg.data|)
  {
    var dsz, hcount;
    r, msg, dsz, hcount := k.Read(h, buf, o);
    if r != ZX_OK {
      return;
    }
    // the count is taken from the kernel, not from the peer's bytes
    msg := msg.(hcount := hcount);
    if !IsMessageReplyValid(msg, dsz) {
      assert msg.handle[..msg.hcount] == msg.handle;
      k.Discard(msg.handle);
      return ZX_ERR_INVALID_ARGS, msg;
    }
  }

  /** The argument a reply carries: a callback's own error is kept; a reply
      that fails validation is sent as ZX_ERR_INTERNAL. */
  function ReplyArg(m: Msg): (a: int)
    ensures m.arg < 0 ==> a == m.arg
    ensures m.arg >= 0 && !IsMessageValid(m) ==> a == ZX_ERR_INTERNAL
    ensures IsMessageValid(m) ==> a == m.arg
  {
    if m.arg < 0 || !IsMessageValid(m) then (if m.arg < 0 then m.arg else ZX_ERR_INTERNAL)
    else m.arg
  }

  /** The message zxrio_respond puts on the wire for the reply `m`. */
  function StatusReply(m: Msg): (out: Msg)
    ensures out.op == ZXRIO_STATUS && out.arg == ReplyArg(m)
    ensures out.txid == m.txid && out.arg2 == m.arg2
    ensures m.arg < 0 || !IsMessageValid(m) ==> out.datalen == 0 && Live(out) == []
    ensures m.arg >= 0 && IsMessageValid(m) ==>
              out.datalen == m.datalen && out.data == m.data && Live(out) == Live(m)
  {
    if m.arg < 0 || !IsMessageValid(m) then
      m.(op := ZXRIO_STATUS, arg := ReplyArg(m), datalen := 0, hcount := 0)
    else m.(op := ZXRIO_STATUS)
  }

  /** zxrio_respond: sends `msg` back as a ZXRIO_STATUS reply. An error reply
      or a message that fails validation is stripped of its payload and handles
      (which are closed) first. Whatever the write does, every handle of the
      message ends up sent or closed. The model holds the FDIO_MAX_HANDLES
      slots a handle can be placed in, and only the live ones are closed,
      whatever count the callback claimed. */
  method Respond(k: Kernel, h: Handle, msg: Msg, ws: SysStatus) returns (s: int, out: Msg)
    requires k.Valid() && |msg.handle| == FDIO_MAX_HANDLES && k.Holds(Live(msg))
    modifies k
    ensures k.Valid() && s == ws && out.op == ZXRIO_STATUS && out.arg == ReplyArg(msg)
    ensures k.owned == old(k.owned) - Elems(Live(msg))
    ensures msg.arg < 0 || !IsMessageValid(msg) ==>
              out == msg.(op := ZXRIO_STATUS, arg := ReplyArg(msg), datalen := 0, hcount := 0)
    ensures msg.arg >= 0 && IsMessageValid(msg) ==> out == msg.(op := ZXRIO_STATUS)
    ensures s == ZX_OK ==> k.sent == old(k.sent) + [Envelope(h, out)]
    ensures s < 0 ==> k.sent == old(k.sent)
    ensures k.closed == old(k.closed) + (if s == ZX_OK && msg.arg >= 0 && IsMessageValid(msg)
                                         then [] else Live(msg))
  {
    out := msg;
    if msg.arg < 0 || !IsMessageValid(msg) {
      k.Discard(Live(msg));
      out := out.(datalen := 0, hcount := 0, arg := if msg.arg < 0 then msg.arg else ZX_ERR_INTERNAL);
    }
    out := out.(op := ZXRIO_STATUS);
    s := k.Write(h, out, ws);
    if s != ZX_OK {
      k.Discard(Live(out));
    }
  }

  /** How many handle slots zxrio_respond walks when it strips an error or
      invalid reply, as written: `hcount` of them from the first slot,
      however many slots the message has. */
  function DiscardSlotsAsWritten(m: Msg): nat
  {
    if m.arg < 0 || !IsMessageValid(m) then m.hcount else 0
  }

  /** Callback replies that claim more than FDIO_MAX_HANDLES handles fail
      validation and are stripped. As written, a count of 4 closes the
      header's last slot, in which no handle was placed (in zxrio_handler's
      message it is uninitialised stack memory), and a count of 5 walks
      past the handle array. Respond closes only the three placed handles. */
  lemma OversizedCountAsWritten()
    ensures var m := Msg(0, ZXRIO_STATUS, 0, 0, 0, 4, [5, 6, 7], []);
      !IsMessageValid(m) && |m.handle| == FDIO_MAX_HANDLES && Live(m) == m.handle &&
      DiscardSlotsAsWritten(m) == ZXRIO_HANDLE_SLOTS > |Live(m)|
    ensures var m := Msg(0, ZXRIO_STATUS, 0, 0, 0, 5, [5, 6, 7], []);
      !IsMessageValid(m) && DiscardSlotsAsWritten(m) > ZXRIO_HANDLE_SLOTS
  {
  }

  /** The message zxrio_handle_close shows the callback when the far end has
      gone: a close request with no payload and no handles. What the callback
      does with it is outside this model; its result is ignored. */
  method HandleClose() returns (r: int, shown: Msg)
    ensures r == ZX_OK
    ensures ZxrioOp(shown.op) == ZXRIO_CLOSE && shown.arg == 0
    ensures shown.datalen == 0 && shown.hcount == 0 && Live(shown) == []
  {
    shown := Request(ZXRIO_CLOSE);
    r := ZX_OK;
  }

  /** The op of the request zxrio_handle_rpc would dispatch. */
  function RequestOp(o: ReadOutcome): nat
    requires Accepted(o)
  {
    ZxrioOp(Readable(o).msg.op)
  }

  /** zxrio_handle_rpc: one read-dispatch-reply cycle. `reply` is the
      message the callback leaves for an ordinary result: the request with
      the callback's fields and the handles it placed. */
  method HandleRpc(k: Kernel, h: Handle, buf: Msg, o: ReadOutcome, cb: Callback, ws: SysStatus)
    returns (r: int, ghost reply: Msg)
    requires k.Valid()
    modifies k
    ensures k.Valid()
    // every handle received went to the callback; every reply handle was sent or closed
    ensures k.owned == old(k.owned)
    ensures !Accepted(o) ==>
              r == (if Readable(o).NoMessage? then Readable(o).status else ZX_ERR_INVALID_ARGS)
    ensures Accepted(o) && cb.arg == ERR_DISPATCHER_INDIRECT ==> r == ZX_OK
    ensures Accepted(o) && cb.arg == ERR_DISPATCHER_ASYNC ==> r == ERR_DISPATCHER_ASYNC
    ensures Accepted(o) && Ordinary(cb) ==>
              r == (if RequestOp(o) == ZXRIO_CLOSE then ERR_DISPATCHER_DONE else ws)
    ensures Accepted(o) && Ordinary(cb) ==>
              reply == Readable(o).msg.(arg := cb.arg, arg2 := cb.arg2, datalen := cb.datalen,
                                        data := cb.data, hcount := cb.hcount, handle := reply.handle) &&
              |reply.handle| == FDIO_MAX_HANDLES && |Live(reply)| == Min(cb.hcount, FDIO_MAX_HANDLES) &&
              MintedSince(Live(reply), old(k.next))
    // the reply is sent only for an ordinary result whose write succeeds
    ensures Accepted(o) && Ordinary(cb) && ws == ZX_OK ==>
              k.sent == old(k.sent) + [Envelope(h, StatusReply(reply))]
    ensures !(Accepted(o) && Ordinary(cb) && ws == ZX_OK) ==> k.sent == old(k.sent)
  {
    var msg;
    r, msg := ReadMsg(k, h, buf, o);
    reply := msg;
    if r != ZX_OK {
      return;
    }
    var isClose := ZxrioOp(msg.op) == ZXRIO_CLOSE;
    // the callback takes the request's handles
    assert Live(msg) == msg.handle;
    k.Release(msg.handle);
    if cb.arg == ERR_DISPATCHER_INDIRECT {
      return ZX_OK, reply;
    } else if cb.arg == ERR_DISPATCHER_ASYNC {
      return ERR_DISPATCHER_ASYNC, reply;
    }
    // the handles the callback put in the reply slots
    var filled := Min(cb.hcount, FDIO_MAX_HANDLES);
    var hs := k.Mint(filled);
    var slots := hs + seq(FDIO_MAX_HANDLES - filled, _ => HANDLE_INVALID);
    var m := msg.(arg := cb.arg, arg2 := cb.arg2, datalen := cb.datalen, data := cb.data,
                  hcount := cb.hcount, handle := slots);
    reply := m;
    assert Live(m) == hs;
    var s, _ := Respond(k, h, m, ws);
    if isClose {
      return ERR_DISPATCHER_DONE, reply;
    }
    return s, reply;
  }

  /** zxrio_handler: an invalid handle means the far end closed, which the
      callback hears about as a close request; otherwise one RPC cycle. */
  method Handler(k: Kernel, h: Handle, buf: Msg, o: ReadOutcome, cb: Callback, ws: SysStatus)
    returns (r: int, ghost reply: Msg)
    requires k.Valid()
    modifies k
    ensures k.Valid() && k.owned == old(k.owned)
    ensures h == HANDLE_INVALID ==> r == ZX_OK && k.closed == old(k.closed) && k.sent == old(k.sent)
    ensures h != HANDLE_INVALID && !Accepted(o) ==>
              r == (if Readable(o).NoMessage? then Readable(o).status else ZX_ERR_INVALID_ARGS)
    ensures h != HANDLE_INVALID && Accepted(o) && cb.arg == ERR_DISPATCHER_INDIRECT ==> r == ZX_OK
    ensures h != HANDLE_INVALID && Accepted(o) && cb.arg == ERR_DISPATCHER_ASYNC ==>
              r == ERR_DISPATCHER_ASYNC
    ensures h != HANDLE_INVALID && Accepted(o) && Ordinary(cb) ==>
              r == (if RequestOp(o) == ZXRIO_CLOSE then ERR_DISPATCHER_DONE else ws)
    ensures h != HANDLE_INVALID && Accepted(o) && Ordinary(cb) ==>
              reply == Readable(o).msg.(arg := cb.arg, arg2 := cb.arg2, datalen := cb.datalen,
                                        data := cb.data, hcount := cb.hcount, handle := reply.handle) &&
              |reply.handle| == FDIO_MAX_HANDLES && |Live(reply)| == Min(cb.hcount, FDIO_MAX_HANDLES) &&
              MintedSince(Live(reply), old(k.next))
    ensures h != HANDLE_INVALID && Accepted(o) && Ordinary(cb) && ws == ZX_OK ==>
              k.sent == old(k.sent) + [Envelope(h, StatusReply(reply))]
    ensures !(h != HANDLE_INVALID && Accepted(o) && Ordinary(cb) && ws == ZX_OK) ==> k.sent == old(k.sent)
  {
    if h == HANDLE_INVALID {
      var _, shown := HandleClose();
      r, reply := ZX_OK, shown;
    } else {
      r, reply := HandleRpc(k, h, buf, o, cb, ws);
    }
  }
}
