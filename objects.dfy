/** Turning the handles of an opened node into an fdio object
    (fdio_from_handles, fdio_remote_create) and the open entry points built on
    zxrio_getobject (zxrio_open_handle, zxrio_open_handle_raw, zxrio_open). */
module Objects {
  import opened Wire
  import opened Transport
  import opened Negotiate
  import Rio

  /** The fdio objects fdio_from_handles produces. Only the remote object is
      modelled beyond the handles it holds; the others are built by code
      outside this model and are recorded with their handles and settings. */
  datatype Fdio =
    | RemoteIo(rio: Rio.Remote)
    | ServiceIo(svc: Handle)
    | PipeIo(pipe: Handle)
    | VmoFileIo(vmo: Handle, range: VmoRange)
    | SocketIo(sock: Handle, ctl: Handle, connected: bool)

  /** The handles an object holds. */
  ghost function Held(f: Fdio): set<Handle>
    reads if f.RemoteIo? then {f.rio} else {}
  {
    match f
    case RemoteIo(rio) => HandleSet(rio.h) + HandleSet(rio.h2)
    case ServiceIo(s) => {s}
    case PipeIo(p) => {p}
    case VmoFileIo(v, _) => {v}
    case SocketIo(s, c, _) => {s} + HandleSet(c)
  }

  /** The FDIO_PROTOCOL_* an object speaks. */
  function Protocol(f: Fdio): nat
  {
    match f
    case RemoteIo(_) => FDIO_PROTOCOL_REMOTE
    case ServiceIo(_) => FDIO_PROTOCOL_SERVICE
    case PipeIo(_) => FDIO_PROTOCOL_PIPE
    case VmoFileIo(_, _) => FDIO_PROTOCOL_VMOFILE
    case SocketIo(_, _, c) => if c then FDIO_PROTOCOL_SOCKET_CONNECTED else FDIO_PROTOCOL_SOCKET
  }

  /** The protocols fdio_from_handles knows. */
  predicate KnownProtocol(typ: nat)
  {
    typ <= FDIO_PROTOCOL_SOCKET_CONNECTED
  }

  /** How many handles each protocol takes: remote objects and sockets one or
      two, a VMO file exactly two, services and pipes exactly one. */
  predicate CountFits(typ: nat, n: nat)
  {
    if typ == FDIO_PROTOCOL_REMOTE || typ == FDIO_PROTOCOL_SOCKET ||
       typ == FDIO_PROTOCOL_SOCKET_CONNECTED then n == 1 || n == 2
    else if typ == FDIO_PROTOCOL_VMOFILE then n == 2
    else n == 1
  }

  /** fdio_remote_create: a remote object over `h` and the event `e`; when
      the allocation (`alloc`) fails both handles are closed instead. */
  method RemoteCreate(k: Kernel, h: Handle, e: Handle, alloc: bool) returns (io: Rio.Remote?)
    requires k.Valid() && h != HANDLE_INVALID && h in k.owned
    requires e != HANDLE_INVALID ==> e in k.owned && e != h
    modifies k
    ensures k.Valid() && k.next == old(k.next) && k.sent == old(k.sent)
    ensures alloc ==>
              io != null && fresh(io) && io.Valid() && io.k == k && io.h == h && io.h2 == e &&
              io.txid == 1 && k.owned == old(k.owned) && k.closed == old(k.closed)
    ensures !alloc ==>
              io == null && k.owned == old(k.owned) - {h, e} &&
              k.closed == old(k.closed) + [h] + (if e == HANDLE_INVALID then [] else [e])
  {
    if !alloc {
      k.Close(h);
      k.Close(e);
      return null;
    }
    io := new Rio.Remote(k, h, e);
  }

  /** fdio_from_handles: builds the object of protocol `typ` over `hs`. Every
      handle of `hs` is taken: on success the object holds them (a VMO file
      closes its unused control channel), on a wrong count or an unknown
      protocol they are all closed, and when the allocation fails the
      remote object closes them while the other constructors take them. */
  method FromHandles(k: Kernel, typ: nat, hs: seq<Handle>, extra: VmoRange, alloc: bool)
    returns (r: int, io: Option<Fdio>)
    requires k.Valid() && k.Holds(hs) && HANDLE_INVALID !in hs
    modifies k
    ensures k.Valid() && k.next == old(k.next) && k.sent == old(k.sent)
    ensures !KnownProtocol(typ) ==> r == ZX_ERR_NOT_SUPPORTED
    ensures KnownProtocol(typ) && !CountFits(typ, |hs|) ==> r == ZX_ERR_INVALID_ARGS
    ensures KnownProtocol(typ) && CountFits(typ, |hs|) ==>
              r == if alloc then ZX_OK else ZX_ERR_NO_RESOURCES
    ensures r == ZX_OK <==> io.Some?
    ensures r != ZX_OK ==> k.owned == old(k.owned) - Elems(hs)
    ensures r == ZX_ERR_INVALID_ARGS || r == ZX_ERR_NOT_SUPPORTED ==> k.closed == old(k.closed) + hs
    ensures r == ZX_ERR_NO_RESOURCES ==>
              k.closed == old(k.closed) +
                (if typ == FDIO_PROTOCOL_REMOTE then hs
                 else if typ == FDIO_PROTOCOL_VMOFILE then [hs[0]] else [])
    ensures io.Some? ==>
              Protocol(io.value) == typ && Held(io.value) <= Elems(hs) &&
              k.owned == old(k.owned) - Elems(hs) + Held(io.value) &&
              k.closed == old(k.closed) + (if typ == FDIO_PROTOCOL_VMOFILE then [hs[0]] else [])
    ensures io.Some? && io.value.RemoteIo? ==>
              fresh(io.value.rio) && io.value.rio.Valid() && io.value.rio.k == k &&
              io.value.rio.h == hs[0] && io.value.rio.txid == 1 &&
              io.value.rio.h2 == (if |hs| == 2 then hs[1] else HANDLE_INVALID)
    ensures io.Some? && io.value.VmoFileIo? ==> io.value == VmoFileIo(hs[1], extra)
    ensures io.Some? && (io.value.ServiceIo? || io.value.PipeIo?) ==> Held(io.value) == {hs[0]}
    ensures io.Some? && io.value.SocketIo? ==>
              io.value.sock == hs[0] && io.value.ctl == (if |hs| == 2 then hs[1] else HANDLE_INVALID)
  {
    io := None;
    if typ == FDIO_PROTOCOL_REMOTE && (|hs| == 1 || |hs| == 2) {
      var e := if |hs| == 2 then hs[1] else HANDLE_INVALID;
      var rio := RemoteCreate(k, hs[0], e, alloc);
      if rio == null {
        r := ZX_ERR_NO_RESOURCES;
      } else {
        r, io := ZX_OK, Some(RemoteIo(rio));
      }
    } else if (typ == FDIO_PROTOCOL_SERVICE || typ == FDIO_PROTOCOL_PIPE) && |hs| == 1 {
      if alloc {
        r := ZX_OK;
        io := Some(if typ == FDIO_PROTOCOL_SERVICE then ServiceIo(hs[0]) else PipeIo(hs[0]));
      } else {
        k.Release(hs);
        r := ZX_ERR_NO_RESOURCES;
      }
    } else if typ == FDIO_PROTOCOL_VMOFILE && |hs| == 2 {
      k.Close(hs[0]);
      if alloc {
        r, io := ZX_OK, Some(VmoFileIo(hs[1], extra));
      } else {
        k.Release([hs[1]]);
        r := ZX_ERR_NO_RESOURCES;
      }
    } else if (typ == FDIO_PROTOCOL_SOCKET || typ == FDIO_PROTOCOL_SOCKET_CONNECTED) &&
              (|hs| == 1 || |hs| == 2) {
      if alloc {
        var ctl := if |hs| == 2 then hs[1] else HANDLE_INVALID;
        r, io := ZX_OK, Some(SocketIo(hs[0], ctl, typ == FDIO_PROTOCOL_SOCKET_CONNECTED));
      } else {
        k.Release(hs);
        r := ZX_ERR_NO_RESOURCES;
      }
    } else {
      r := if KnownProtocol(typ) then ZX_ERR_INVALID_ARGS else ZX_ERR_NOT_SUPPORTED;
      k.Discard(hs);
    }
  }

  /** zxrio_open_handle: opens `path` on `h` and wraps the result in an
      object. The process ends up holding exactly the handles it held before
      plus, on success, the new object's handles, all of them new. */
  method OpenHandle(k: Kernel, h: Handle, path: Option<seq<byte>>, flags: nat, mode: nat,
                    cs: SysStatus, ws: SysStatus, d: DescribeOutcome, alloc: bool)
    returns (r: int, io: Option<Fdio>)
    requires k.Valid()
    modifies k
    ensures k.Valid() && k.next >= old(k.next)
    ensures r == ZX_OK <==> io.Some?
    ensures r != ZX_OK ==> k.owned == old(k.owned)
    ensures io.Some? ==>
              k.owned == old(k.owned) + Held(io.value) &&
              forall x :: x in Held(io.value) ==> x >= old(k.next)
    ensures path.None? ==> r == ZX_ERR_INVALID_ARGS
    ensures path.Some? && |path.value| >= PATH_MAX ==> r == ZX_ERR_BAD_PATH
    ensures path.Some? && |path.value| < PATH_MAX && cs == ZX_OK && ws < 0 ==> r == ws
    ensures path.Some? && |path.value| < PATH_MAX && !HasDescribeFlag(flags) && cs == ZX_OK && ws == ZX_OK ==>
              r == (if alloc then ZX_OK else ZX_ERR_NO_RESOURCES) &&
              (io.Some? ==> io.value.RemoteIo? && io.value.rio.h2 == HANDLE_INVALID)
    ensures path.Some? && |path.value| < PATH_MAX && HasDescribeFlag(flags) && cs == ZX_OK &&
            ws == ZX_OK && DescribeStatus(d) < 0 ==>
              r == DescribeStatus(d)
    ensures io.Some? && HasDescribeFlag(flags) ==>
              Describable(d).Described? && Protocol(io.value) == Describable(d).rec.typ
  {
    var info, ch;
    ghost var srv;
    r, info, ch, srv := GetObject(k, h, ZXRIO_OPEN, path, flags, mode, cs, ws, d);
    if r < 0 {
      return r, None;
    }
    var hs := if info.handle != HANDLE_INVALID then [ch, info.handle] else [ch];
    assert Elems(hs) == {ch} + HandleSet(info.handle);
    r, io := FromHandles(k, info.typ, hs, info.extra, alloc);
  }

  /** zxrio_open_handle_raw: opens `path` on `h` and returns the bare channel,
      which is only accepted from a remote object; any other protocol has
      its handles closed and is refused as ZX_ERR_WRONG_TYPE. */
  method OpenHandleRaw(k: Kernel, h: Handle, path: Option<seq<byte>>, flags: nat, mode: nat,
                       cs: SysStatus, ws: SysStatus, d: DescribeOutcome)
    returns (r: int, out: Handle)
    requires k.Valid()
    modifies k
    ensures k.Valid() && k.next >= old(k.next)
    ensures r <= 0 && (r == ZX_OK <==> out != HANDLE_INVALID)
    ensures r == ZX_OK ==> out >= old(k.next) && k.owned == old(k.owned) + {out}
    ensures r != ZX_OK ==> k.owned == old(k.owned)
    ensures path.None? ==> r == ZX_ERR_INVALID_ARGS
    ensures path.Some? && |path.value| < PATH_MAX && !HasDescribeFlag(flags) && cs == ZX_OK ==> r == ws
    ensures path.Some? && |path.value| < PATH_MAX && HasDescribeFlag(flags) && cs == ZX_OK && ws == ZX_OK ==>
              r == if DescribeStatus(d) < 0 then DescribeStatus(d)
                   else if Describable(d).rec.typ == FDIO_PROTOCOL_REMOTE then ZX_OK
                   else ZX_ERR_WRONG_TYPE
  {
    var info, ch;
    ghost var srv;
    r, info, ch, srv := GetObject(k, h, ZXRIO_OPEN, path, flags, mode, cs, ws, d);
    out := HANDLE_INVALID;
    if r < 0 {
      return;
    }
    k.Close(info.handle);
    if info.typ == FDIO_PROTOCOL_REMOTE {
      r, out := ZX_OK, ch;
    } else {
      k.Close(ch);
      r := ZX_ERR_WRONG_TYPE;
    }
  }

  /** What zxrio_open_handle_raw does with what zxrio_getobject returned, as
      written: the status `s`, the channel `ch` and the record `info` give
      the result, the channel handed out, and the handles it closes. Only a
      negative status is taken as a failure. */
  function OpenHandleRawAsWritten(s: int, info: Describe, ch: Handle): (int, Handle, seq<Handle>)
  {
    if s < 0 then (s, HANDLE_INVALID, [])
    else if info.typ == FDIO_PROTOCOL_REMOTE then (ZX_OK, ch, HandleSeq(info.handle))
    else (ZX_ERR_WRONG_TYPE, HANDLE_INVALID, HandleSeq(info.handle) + HandleSeq(ch))
  }

  /** A well-formed record with status 1 and a handle, followed to the
      caller as written: the describe-open closes the record's handle and
      the channel and reports 1; zxrio_open_handle_raw takes 1 for success,
      closes the record's handle a second time and reports ZX_OK with
      ZX_HANDLE_INVALID as the channel. OpenHandleRaw never reports ZX_OK
      without a channel, and Kernel.Close rules out a second close. */
  lemma PositiveStatusRawAsWritten()
    ensures var info := Describe(ZXRIO_ON_OPEN, 1, FDIO_PROTOCOL_REMOTE, VmoRange(0, 0), 9);
      var sync := SyncOpenAsWritten(ZXRIO_DESCRIBE_SZ, info, 7);
      var raw := OpenHandleRawAsWritten(sync.0, info, sync.1);
      sync.0 == 1 && raw.0 == ZX_OK && raw.1 == HANDLE_INVALID && sync.2 + raw.2 == [9, 7, 9]
  {
  }

  /** zxrio_open: an open relative to the remote object `rio`'s channel. */
  method Open(rio: Rio.Remote, path: Option<seq<byte>>, flags: nat, mode: nat,
              cs: SysStatus, ws: SysStatus, d: DescribeOutcome, alloc: bool)
    returns (r: int, io: Option<Fdio>)
    requires rio.Valid()
    modifies rio.k
    ensures rio.Valid() && (r == ZX_OK <==> io.Some?)
    ensures r != ZX_OK ==> rio.k.owned == old(rio.k.owned)
    ensures io.Some? ==>
              rio.k.owned == old(rio.k.owned) + Held(io.value) &&
              forall x :: x in Held(io.value) ==> x >= old(rio.k.next)
  {
    r, io := OpenHandle(rio.k, rio.h, path, flags, mode, cs, ws, d, alloc);
  }
}
