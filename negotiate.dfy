/** Opening objects over RIO: the pipelined open (zxrio_connect), the
    describe-open that waits for the server's description
    (zxrio_sync_open_connection), zxrio_getobject that picks one of the two,
    and the service helpers built on zxrio_connect. The client end of every
    new connection is either handed to the caller or closed. */
module Negotiate {
  import opened Wire
  import opened Transport

  /** The handle set of a handle slot that may be empty. */
  function HandleSet(h: Handle): (s: set<Handle>)
    ensures h in s <==> h != HANDLE_INVALID
  {
    if h == HANDLE_INVALID then {} else {h}
  }

  /** The open request zxrio_connect writes (and the one a describe-open
      sends): the name as payload, the flags in `arg`, the mode in `arg2`,
      the other header fields zero, and the connection's server end as its
      one handle. */
  function ConnectRequest(op: nat, flags: nat, mode: nat, name: seq<byte>, cnxn: Handle): (m: Msg)
    ensures Live(m) == [cnxn] && m.data == name && m.datalen == |name|
  {
    Msg(0, op, flags, mode, |name|, 1, [cnxn], name)
  }

  /** zxrio_connect: sends a pipelined open of `name` on `svc` carrying the
      server end `cnxn`. Whatever happens, `cnxn` is no longer the caller's:
      it went with the request or it was closed. A name of PATH_MAX bytes or
      more, or a request for a describe record (which a pipelined open never
      gets), is refused. */
  method Connect(k: Kernel, svc: Handle, cnxn: Handle, op: nat, flags: nat, mode: nat,
                 name: seq<byte>, ws: SysStatus) returns (r: int)
    requires k.Valid() && cnxn in k.owned
    modifies k
    ensures k.Valid() && k.owned == old(k.owned) - {cnxn} && k.next == old(k.next)
    ensures k.channels == old(k.channels)
    ensures |name| >= PATH_MAX ==> r == ZX_ERR_BAD_PATH
    ensures |name| < PATH_MAX && HasDescribeFlag(flags) ==> r == ZX_ERR_INVALID_ARGS
    ensures |name| < PATH_MAX && !HasDescribeFlag(flags) ==> r == ws
    ensures r <= 0
    ensures k.sent == old(k.sent) +
              (if r == ZX_OK then [Envelope(svc, ConnectRequest(op, flags, mode, name, cnxn))] else [])
    ensures k.closed == old(k.closed) + (if r == ZX_OK then [] else [cnxn])
  {
    if |name| >= PATH_MAX {
      k.Close(cnxn);
      return ZX_ERR_BAD_PATH;
    }
    if HasDescribeFlag(flags) {
      k.Close(cnxn);
      return ZX_ERR_INVALID_ARGS;
    }
    var msg := ConnectRequest(op, flags, mode, name, cnxn);
    assert Elems(Live(msg)) == {cnxn};
    r := k.Write(svc, msg, ws);
    if r < 0 {
      k.Close(cnxn);
    }
  }

  /** The status zxrio_sync_open_connection computes from a describe record
      of `size` bytes, as written: a wrong size or op is an I/O error,
      otherwise the record's own status, whatever its sign. */
  function OpenStatusAsWritten(size: nat, info: Describe): int
  {
    if size != ZXRIO_DESCRIBE_SZ || info.op != ZXRIO_ON_OPEN then ZX_ERR_IO else info.status
  }

  /** The handles a slot holds, as a sequence. */
  function HandleSeq(h: Handle): seq<Handle>
  {
    if h == HANDLE_INVALID then [] else [h]
  }

  /** How zxrio_sync_open_connection ends, as written, once the record `info`
      of `size` bytes has been read from the client end `h`: the status, the
      channel it hands out, and the handles it closes. Anything but ZX_OK
      closes the record's handle and the channel. */
  function SyncOpenAsWritten(size: nat, info: Describe, h: Handle): (int, Handle, seq<Handle>)
  {
    var s := OpenStatusAsWritten(size, info);
    if s != ZX_OK then (s, HANDLE_INVALID, HandleSeq(info.handle) + [h]) else (s, h, [])
  }

  /** The status a describe-open ends with: a wrong size or op, or a status
      that is neither ZX_OK nor an error, is an I/O error; otherwise the
      record's status. */
  function OpenStatus(size: nat, info: Describe): (r: int)
    ensures r <= 0
    ensures r == ZX_OK <==> size == ZXRIO_DESCRIBE_SZ && info.op == ZXRIO_ON_OPEN && info.status == ZX_OK
    ensures r < 0 && r != ZX_ERR_IO ==> r == info.status
  {
    var s := OpenStatusAsWritten(size, info);
    if s > 0 then ZX_ERR_IO else s
  }

  /** A well-formed record whose status is 1: as written the open reports
      1, which every caller's `r < 0` test takes for success, although the
      connection and any handle in the record were closed because the
      status is not ZX_OK; the intended status is an error. */
  lemma PositiveStatusAsWritten()
    ensures var info := Describe(ZXRIO_ON_OPEN, 1, FDIO_PROTOCOL_REMOTE, VmoRange(0, 0), 5);
      OpenStatusAsWritten(ZXRIO_DESCRIBE_SZ, info) == 1 &&
      OpenStatus(ZXRIO_DESCRIBE_SZ, info) == ZX_ERR_IO
  {
  }

  /** The status a describe-open reports for what the read of the record
      ran into. */
  function DescribeStatus(d: DescribeOutcome): (r: int)
    ensures r <= 0
    ensures Describable(d).DescribeFailed? ==> r == Describable(d).status
    ensures r == ZX_OK ==> Describable(d).Described? && Describable(d).rec.status == ZX_OK
  {
    match Describable(d)
    case DescribeFailed(s) => s
    case Described(size, rec, _) => OpenStatus(size, rec)
  }

  /** zxrio_sync_open_connection: makes a channel, sends `msg` on `rioH` with
      the channel's server end, and reads the describe record from the client
      end. On ZX_OK the client end is `out` and the record's handle (if any)
      comes with `info`; on any error every handle this call made or received
      is closed again. `srv` is the server end that went with the request. */
  method SyncOpen(k: Kernel, rioH: Handle, msg: Msg, cs: SysStatus, ws: SysStatus,
                  d: DescribeOutcome)
    returns (r: int, info: Describe, out: Handle, ghost srv: Handle)
    requires k.Valid() && msg.hcount == 0
    modifies k
    ensures k.Valid() && k.next >= old(k.next)
    ensures cs < 0 ==> r == cs
    ensures cs == ZX_OK && ws < 0 ==> r == ws
    ensures cs == ZX_OK && ws == ZX_OK ==> r == DescribeStatus(d)
    ensures r <= 0 && (r == ZX_OK <==> out != HANDLE_INVALID)
    ensures r < 0 ==> k.owned == old(k.owned)
    ensures r == ZX_OK ==>
              out >= old(k.next) && out != info.handle &&
              (info.handle != HANDLE_INVALID ==> info.handle >= old(k.next)) &&
              (info.handle == HANDLE_INVALID <==> Describable(d).dn == 0) &&
              Describable(d).Described? && info == Describable(d).rec.(handle := info.handle) &&
              k.owned == old(k.owned) + {out} + HandleSet(info.handle)
    ensures cs == ZX_OK && ws == ZX_OK ==>
              srv >= old(k.next) && srv != out &&
              k.sent == old(k.sent) + [Envelope(rioH, msg.(hcount := 1, handle := [srv]))]
    ensures cs < 0 || ws < 0 ==> k.sent == old(k.sent)
    ensures old(k.channels) <= k.channels && (r == ZX_OK ==> (out, srv) in k.channels)
    ensures old(k.closed) <= k.closed && MintedSince(k.closed[|old(k.closed)|..], old(k.next))
  {
    info := Describe(0, 0, 0, VmoRange(0, 0), HANDLE_INVALID);
    out, srv := HANDLE_INVALID, HANDLE_INVALID;
    var h, server;
    r, h, server := k.CreateChannel(cs);
    srv := server;
    if r < 0 {
      return;
    }
    var req := msg.(hcount := 1, handle := [server]);
    assert Live(req) == [server] && Elems([server]) == {server};
    r := k.Write(rioH, req, ws);
    if r < 0 {
      k.Close(server);
      k.Close(h);
      return;
    }
    var dsize, actual;
    r, info, dsize, actual := k.ReadDescribe(h, d);
    if r != ZX_OK {
      k.Close(h);
      return;
    }
    if actual == 0 {
      info := info.(handle := HANDLE_INVALID);
    }
    r := OpenStatus(dsize, info);
    if r != ZX_OK {
      if info.handle != HANDLE_INVALID {
        k.Close(info.handle);
      }
      k.Close(h);
      return;
    }
    out := h;
  }

  /** zxrio_getobject: opens `name` on `rioH` with a describe-open when the
      flags ask for a record, and with a pipelined open otherwise (which
      then reports a remote object without waiting for the server). A
      missing name or one of PATH_MAX bytes or more is refused first. `srv`
      is the server end of the new channel, whose client end is `out`. */
  method GetObject(k: Kernel, rioH: Handle, op: nat, name: Option<seq<byte>>, flags: nat,
                   mode: nat, cs: SysStatus, ws: SysStatus, d: DescribeOutcome)
    returns (r: int, info: Describe, out: Handle, ghost srv: Handle)
    requires k.Valid()
    modifies k
    ensures k.Valid() && k.next >= old(k.next)
    ensures name.None? ==> r == ZX_ERR_INVALID_ARGS && k.sent == old(k.sent)
    ensures name.Some? && |name.value| >= PATH_MAX ==> r == ZX_ERR_BAD_PATH && k.sent == old(k.sent)
    ensures name.Some? && |name.value| < PATH_MAX && HasDescribeFlag(flags) && cs == ZX_OK && ws == ZX_OK ==>
              r == DescribeStatus(d)
    ensures name.Some? && |name.value| < PATH_MAX && !HasDescribeFlag(flags) && cs == ZX_OK ==>
              r == ws
    ensures name.Some? && |name.value| < PATH_MAX && cs == ZX_OK && ws < 0 ==> r == ws
    ensures name.Some? && cs < 0 ==> r == if |name.value| >= PATH_MAX then ZX_ERR_BAD_PATH else cs
    ensures r <= 0 && (r == ZX_OK <==> out != HANDLE_INVALID)
    ensures r < 0 ==> k.owned == old(k.owned)
    ensures r == ZX_OK ==>
              out >= old(k.next) && out != info.handle &&
              (info.handle != HANDLE_INVALID ==> info.handle >= old(k.next)) &&
              k.owned == old(k.owned) + {out} + HandleSet(info.handle)
    ensures r == ZX_OK && !HasDescribeFlag(flags) ==>
              info.status == ZX_OK && info.typ == FDIO_PROTOCOL_REMOTE && info.handle == HANDLE_INVALID
    ensures r == ZX_OK && HasDescribeFlag(flags) ==>
              Describable(d).Described? && info == Describable(d).rec.(handle := info.handle) &&
              (info.handle == HANDLE_INVALID <==> Describable(d).dn == 0)
    // the describe-open sends `op`; the pipelined open always sends ZXRIO_OPEN
    ensures name.Some? && |name.value| < PATH_MAX && HasDescribeFlag(flags) && cs == ZX_OK && ws == ZX_OK ==>
              srv >= old(k.next) && srv != out &&
              k.sent == old(k.sent) + [Envelope(rioH, ConnectRequest(op, flags, mode, name.value, srv))]
    ensures name.Some? && !HasDescribeFlag(flags) && r == ZX_OK ==>
              srv >= old(k.next) && srv != out &&
              k.sent == old(k.sent) + [Envelope(rioH, ConnectRequest(ZXRIO_OPEN, flags, mode, name.value, srv))]
    ensures cs < 0 || ws < 0 ==> k.sent == old(k.sent)
    ensures old(k.channels) <= k.channels && (r == ZX_OK ==> (out, srv) in k.channels)
    ensures old(k.closed) <= k.closed && MintedSince(k.closed[|old(k.closed)|..], old(k.next))
  {
    info := Describe(0, 0, 0, VmoRange(0, 0), HANDLE_INVALID);
    out, srv := HANDLE_INVALID, HANDLE_INVALID;
    if name.None? {
      return ZX_ERR_INVALID_ARGS, info, out, srv;
    }
    var path := name.value;
    if |path| >= PATH_MAX {
      return ZX_ERR_BAD_PATH, info, out, srv;
    }
    if HasDescribeFlag(flags) {
      var msg := Msg(0, op, flags, mode, |path|, 0, [], path);
      r, info, out, srv := SyncOpen(k, rioH, msg, cs, ws, d);
      assert msg.(hcount := 1, handle := [srv]) == ConnectRequest(op, flags, mode, path, srv);
      return;
    }
    var h0, h1;
    r, h0, h1 := k.CreateChannel(cs);
    srv := h1;
    if r < 0 {
      return;
    }
    r := Connect(k, rioH, h1, ZXRIO_OPEN, flags, mode, path, ws);
    if r < 0 {
      k.Close(h0);
      return;
    }
    info := Describe(0, ZX_OK, FDIO_PROTOCOL_REMOTE, VmoRange(0, 0), HANDLE_INVALID);
    out := h0;
  }

  /** fdio_service_connect_at: a pipelined read-write open of `path` in the
      directory `dir`, carrying `h`. `h` is consumed on every path. */
  method ServiceConnectAt(k: Kernel, dir: Handle, path: Option<seq<byte>>, h: Handle, ws: SysStatus)
    returns (r: int)
    requires k.Valid() && h in k.owned
    modifies k
    ensures k.Valid() && k.owned == old(k.owned) - {h} && k.next == old(k.next)
    ensures k.closed == old(k.closed) + (if r == ZX_OK then [] else [h])
    ensures path.None? ==> r == ZX_ERR_INVALID_ARGS
    ensures path.Some? && dir == HANDLE_INVALID ==> r == ZX_ERR_UNAVAILABLE
    ensures path.Some? && dir != HANDLE_INVALID && |path.value| >= PATH_MAX ==> r == ZX_ERR_BAD_PATH
    ensures path.Some? && dir != HANDLE_INVALID && |path.value| < PATH_MAX ==> r == ws
    ensures r == ZX_OK ==>
              k.sent == old(k.sent) +
                [Envelope(dir, ConnectRequest(ZXRIO_OPEN, ZX_FS_RIGHT_READABLE + ZX_FS_RIGHT_WRITABLE,
                                              SERVICE_MODE, path.value, h))]
    ensures r != ZX_OK ==> k.sent == old(k.sent)
  {
    if path.None? {
      k.Close(h);
      return ZX_ERR_INVALID_ARGS;
    }
    if dir == HANDLE_INVALID {
      k.Close(h);
      return ZX_ERR_UNAVAILABLE;
    }
    r := Connect(k, dir, h, ZXRIO_OPEN, ZX_FS_RIGHT_READABLE + ZX_FS_RIGHT_WRITABLE,
                 SERVICE_MODE, path.value, ws);
  }

  /** fdio_service_clone: a new channel whose server end is sent to `svc` in a
      clone request; the client end is returned, or ZX_HANDLE_INVALID (with
      nothing left open and nothing sent) when any step fails. `srv` is the
      server end that went with the request. */
  method ServiceClone(k: Kernel, svc: Handle, cs: SysStatus, ws: SysStatus)
    returns (cli: Handle, ghost srv: Handle)
    requires k.Valid()
    modifies k
    ensures k.Valid() && k.next >= old(k.next)
    ensures cli == HANDLE_INVALID <==> svc == HANDLE_INVALID || cs < 0 || ws < 0
    ensures cli == HANDLE_INVALID ==> k.owned == old(k.owned) && k.sent == old(k.sent)
    ensures cli != HANDLE_INVALID ==> cli >= old(k.next) && k.owned == old(k.owned) + {cli}
    ensures cli != HANDLE_INVALID ==>
              srv >= old(k.next) && srv != cli && (cli, srv) in k.channels &&
              k.sent == old(k.sent) +
                [Envelope(svc, ConnectRequest(ZXRIO_CLONE, ZX_FS_RIGHT_READABLE + ZX_FS_RIGHT_WRITABLE,
                                              SERVICE_MODE, [], srv))]
    ensures old(k.closed) <= k.closed && MintedSince(k.closed[|old(k.closed)|..], old(k.next))
  {
    srv := HANDLE_INVALID;
    if svc == HANDLE_INVALID {
      return HANDLE_INVALID, srv;
    }
    var r, server;
    r, cli, server := k.CreateChannel(cs);
    srv := server;
    if r < 0 {
      return HANDLE_INVALID, srv;
    }
    r := Connect(k, svc, server, ZXRIO_CLONE, ZX_FS_RIGHT_READABLE + ZX_FS_RIGHT_WRITABLE,
                 SERVICE_MODE, [], ws);
    if r < 0 {
      k.Close(cli);
      return HANDLE_INVALID, srv;
    }
  }

  /** fdio_service_clone_to: sends a clone request carrying `srv` to `svc`.
      An invalid `srv` is refused untouched; otherwise `srv` is consumed. */
  method ServiceCloneTo(k: Kernel, svc: Handle, srv: Handle, ws: SysStatus) returns (r: int)
    requires k.Valid() && (srv != HANDLE_INVALID ==> srv in k.owned)
    modifies k
    ensures k.Valid() && k.next == old(k.next)
    ensures srv == HANDLE_INVALID ==>
              r == ZX_ERR_INVALID_ARGS && k.owned == old(k.owned) && k.closed == old(k.closed)
    ensures srv != HANDLE_INVALID ==> k.owned == old(k.owned) - {srv}
    ensures srv != HANDLE_INVALID && svc == HANDLE_INVALID ==> r == ZX_ERR_INVALID_ARGS
    ensures srv != HANDLE_INVALID && svc != HANDLE_INVALID ==> r == ws
    ensures k.sent == old(k.sent) +
              (if r == ZX_OK then
                 [Envelope(svc, ConnectRequest(ZXRIO_CLONE, ZX_FS_RIGHT_READABLE + ZX_FS_RIGHT_WRITABLE,
                                               SERVICE_MODE, [], srv))]
               else [])
  {
    if srv == HANDLE_INVALID {
      return ZX_ERR_INVALID_ARGS;
    }
    if svc == HANDLE_INVALID {
      k.Close(srv);
      return ZX_ERR_INVALID_ARGS;
    }
    r := Connect(k, svc, srv, ZXRIO_CLONE, ZX_FS_RIGHT_READABLE + ZX_FS_RIGHT_WRITABLE,
                 SERVICE_MODE, [], ws);
  }
}
