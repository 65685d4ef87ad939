/** The channel transport as the RIO layer sees it: a handle table and the
    channel system calls (create, write, read, call, handle close). What the
    far end does is not modelled; each call takes the outcome as a parameter,
    and the kernel part (moving handles, minting fresh handle values, buffer
    limits) is modelled here. */
module Transport {
  import opened Wire

  /** A write-phase error of zx_channel_call: negative, and never the
      status that means the read phase failed. */
  type WriteErr = x: int | x < 0 && x != ZX_ERR_CALL_FAILED witness -1

  /** A received byte count too small to hold a message header. */
  type RuntSize = x: nat | x < ZXRIO_HDR_SZ

  /** What one zx_channel_call runs into. */
  datatype CallOutcome =
    | WriteFailed(ws: WriteErr)          // the request was not accepted
    | ReadFailed(rs: ErrStatus)          // the request went out, no reply came back
    | Runt(size: RuntSize, rn: nat)      // a reply shorter than a header, with rn handles
    | Replied(reply: Msg, n: nat)        // a reply of ZXRIO_HDR_SZ + |reply.data| bytes with n handles

  /** What one zx_channel_read of a message buffer runs into. */
  datatype ReadOutcome =
    | NoMessage(status: ErrStatus)
    | ShortMessage(size: RuntSize, sn: nat)
    | Message(msg: Msg, mn: nat)

  /** What the read of a describe record runs into. */
  datatype DescribeOutcome =
    | DescribeFailed(status: ErrStatus)
    | Described(size: nat, rec: Describe, dn: nat)

  /** A message that a write (or the write phase of a call) put on a channel. */
  datatype Envelope = Envelope(channel: Handle, msg: Msg)

  /** The outcome after the kernel's own limits: a reply bigger than the
      receive buffer (one header plus a chunk, FDIO_MAX_HANDLES handles)
      makes the read phase fail with ZX_ERR_BUFFER_TOO_SMALL. */
  function Delivered(o: CallOutcome): (d: CallOutcome)
    ensures d.Replied? ==> |d.reply.data| <= FDIO_CHUNK_SIZE && d.n <= FDIO_MAX_HANDLES
    ensures d.Runt? ==> d.rn <= FDIO_MAX_HANDLES
    ensures o.WriteFailed? || o.ReadFailed? ==> d == o
  {
    match o
    case WriteFailed(_) => o
    case ReadFailed(_) => o
    case Runt(_, n) => if n <= FDIO_MAX_HANDLES then o else ReadFailed(ZX_ERR_BUFFER_TOO_SMALL)
    case Replied(m, n) =>
      if |m.data| <= FDIO_CHUNK_SIZE && n <= FDIO_MAX_HANDLES then o
      else ReadFailed(ZX_ERR_BUFFER_TOO_SMALL)
  }

  /** The same limits for a plain read into a message buffer; an oversized
      message stays in the channel and the read fails. */
  function Readable(o: ReadOutcome): (d: ReadOutcome)
    ensures d.Message? ==> |d.msg.data| <= FDIO_CHUNK_SIZE && d.mn <= FDIO_MAX_HANDLES
    ensures d.ShortMessage? ==> d.sn <= FDIO_MAX_HANDLES
  {
    match o
    case NoMessage(_) => o
    case ShortMessage(_, n) => if n <= FDIO_MAX_HANDLES then o else NoMessage(ZX_ERR_BUFFER_TOO_SMALL)
    case Message(m, n) =>
      if |m.data| <= FDIO_CHUNK_SIZE && n <= FDIO_MAX_HANDLES then o
      else NoMessage(ZX_ERR_BUFFER_TOO_SMALL)
  }

  /** The same limits for the describe read: one record, at most one handle. */
  function Describable(o: DescribeOutcome): (d: DescribeOutcome)
    ensures d.Described? ==> d.size <= ZXRIO_DESCRIBE_SZ && d.dn <= 1
  {
    match o
    case DescribeFailed(_) => o
    case Described(size, _, n) =>
      if size <= ZXRIO_DESCRIBE_SZ && n <= 1 then o else DescribeFailed(ZX_ERR_BUFFER_TOO_SMALL)
  }

  function Elems(hs: seq<Handle>): set<Handle> { set h | h in hs }

  /** Every handle in `hs` was minted at or after `mark`. */
  predicate MintedSince(hs: seq<Handle>, mark: nat)
  {
    forall i :: 0 <= i < |hs| ==> hs[i] >= mark
  }

  /** The process's handle table, with a log of closes and of messages sent. */
  class Kernel {
    var owned: set<Handle>
    var next: Handle
    var closed: seq<Handle>
    var sent: seq<Envelope>
    /** The channels this process created, as (first end, second end). */
    ghost var channels: set<(Handle, Handle)>

    ghost predicate Valid()
      reads this
    {
      0 < next && HANDLE_INVALID !in owned && (forall h :: h in owned ==> h < next)
    }

    constructor ()
      ensures Valid() && owned == {} && closed == [] && sent == [] && channels == {}
    {
      owned, next, closed, sent := {}, 1, [], [];
      channels := {};
    }

    /** `hs` are distinct handles this process holds. */
    ghost predicate Holds(hs: seq<Handle>)
      reads this
    {
      Distinct(hs) && forall i :: 0 <= i < |hs| ==> hs[i] in owned
    }

    /** The live handles of `m` are distinct handles this process holds. */
    ghost predicate OwnsMsg(m: Msg)
      reads this
    {
      m.hcount <= |m.handle| && Holds(Live(m))
    }

    /** zx_handle_close. Closing ZX_HANDLE_INVALID does nothing; any other
        handle must be held, so no handle is ever closed twice. */
    method Close(h: Handle)
      requires Valid() && (h == HANDLE_INVALID || h in owned)
      modifies this
      ensures Valid() && owned == old(owned) - {h}
      ensures closed == old(closed) + (if h == HANDLE_INVALID then [] else [h])
      ensures next == old(next) && sent == old(sent) && channels == old(channels)
    {
      if h != HANDLE_INVALID {
        owned := owned - {h};
        closed := closed + [h];
      }
    }

    /** discard_handles: closes each handle of `hs`, in order. */
    method Discard(hs: seq<Handle>)
      requires Valid() && Holds(hs)
      modifies this
      ensures Valid() && owned == old(owned) - Elems(hs)
      ensures closed == old(closed) + hs
      ensures next == old(next) && sent == old(sent) && channels == old(channels)
    {
      var i := 0;
      while i < |hs|
        invariant 0 <= i <= |hs|
        invariant Valid()
        invariant owned == old(owned) - Elems(hs[..i])
        invariant closed == old(closed) + hs[..i]
        invariant next == old(next) && sent == old(sent) && channels == old(channels)
      {
        assert hs[i] !in hs[..i];
        Close(hs[i]);
        assert hs[..i + 1] == hs[..i] + [hs[i]];
        i := i + 1;
      }
      assert hs[..i] == hs;
    }

    /** Handles handed to the far end or to code outside this layer. */
    method Release(hs: seq<Handle>)
      requires Valid() && Holds(hs)
      modifies this
      ensures Valid() && owned == old(owned) - Elems(hs)
      ensures closed == old(closed) && next == old(next) && sent == old(sent)
      ensures channels == old(channels)
    {
      owned := owned - Elems(hs);
    }

    /** The kernel gives this process `n` new handles. */
    method Mint(n: nat) returns (hs: seq<Handle>)
      requires Valid()
      modifies this
      ensures Valid() && |hs| == n && Distinct(hs) && MintedSince(hs, old(next))
      ensures HANDLE_INVALID !in hs
      ensures owned == old(owned) + Elems(hs) && next == old(next) + n
      ensures closed == old(closed) && sent == old(sent) && channels == old(channels)
    {
      var base := next;
      hs := seq(n, i => base + i);
      assert forall h :: h in Elems(hs) ==> base <= h < base + n;
      owned := owned + Elems(hs);
      next := next + n;
    }

    /** zx_channel_create: two fresh endpoints, or the error. */
    method CreateChannel(cs: SysStatus) returns (r: int, h0: Handle, h1: Handle)
      requires Valid()
      modifies this
      ensures Valid() && r == cs && closed == old(closed) && sent == old(sent) && next >= old(next)
      ensures r < 0 ==> owned == old(owned) && h0 == h1 == HANDLE_INVALID
      ensures r == ZX_OK ==> h0 != h1 && h0 >= old(next) && h1 >= old(next)
      ensures r == ZX_OK ==> owned == old(owned) + {h0, h1}
      ensures r == ZX_OK ==> h0 != HANDLE_INVALID && h1 != HANDLE_INVALID
      ensures channels == old(channels) + (if r == ZX_OK then {(h0, h1)} else {})
    {
      r := cs;
      if cs < 0 {
        h0, h1 := HANDLE_INVALID, HANDLE_INVALID;
        return;
      }
      var hs := Mint(2);
      h0, h1 := hs[0], hs[1];
      assert Elems(hs) == {h0, h1};
      channels := channels + {(h0, h1)};
    }

    /** zx_channel_write: on success the live handles of `m` go with it. */
    method Write(ch: Handle, m: Msg, ws: SysStatus) returns (r: int)
      requires Valid() && OwnsMsg(m)
      modifies this
      ensures Valid() && r == ws && closed == old(closed) && next == old(next)
      ensures r == ZX_OK ==> owned == old(owned) - Elems(Live(m))
      ensures r == ZX_OK ==> sent == old(sent) + [Envelope(ch, m)]
      ensures r < 0 ==> owned == old(owned) && sent == old(sent)
      ensures channels == old(channels)
    {
      r := ws;
      if ws == ZX_OK {
        Release(Live(m));
        sent := sent + [Envelope(ch, m)];
      }
    }

    /** zx_channel_call: write `req` (with its live handles), then wait for the
        reply. The result is ZX_OK, ZX_ERR_CALL_FAILED with the read-phase
        status in `rs`, or the write-phase error. */
    method Call(ch: Handle, req: Msg, o: CallOutcome)
      returns (r: int, rs: int, reply: Msg, dsize: nat)
      requires Valid() && OwnsMsg(req)
      modifies this
      ensures Valid() && closed == old(closed) && next >= old(next) && channels == old(channels)
      ensures Delivered(o).WriteFailed? ==>
                r == Delivered(o).ws && owned == old(owned) && sent == old(sent) && reply == req
      ensures !Delivered(o).WriteFailed? ==> sent == old(sent) + [Envelope(ch, req)]
      ensures Delivered(o).ReadFailed? ==>
                r == ZX_ERR_CALL_FAILED && rs == Delivered(o).rs &&
                owned == old(owned) - Elems(Live(req))
      ensures Delivered(o).Runt? || Delivered(o).Replied? ==>
                r == ZX_OK && reply.hcount == |reply.handle| && Distinct(reply.handle) &&
                MintedSince(reply.handle, old(next)) && HANDLE_INVALID !in reply.handle &&
                owned == old(owned) - Elems(Live(req)) + Elems(reply.handle)
      ensures Delivered(o).Runt? ==> dsize == Delivered(o).size && reply.hcount == Delivered(o).rn
      ensures Delivered(o).Replied? ==>
                dsize == ZXRIO_HDR_SZ + |Delivered(o).reply.data| &&
                reply == Delivered(o).reply.(hcount := Delivered(o).n, handle := reply.handle)
    {
      rs := ZX_ERR_INTERNAL;
      reply := req;
      dsize := 0;
      var d := Delivered(o);
      match d
      case WriteFailed(ws) =>
        r := ws;
      case ReadFailed(s) =>
        Release(Live(req));
        sent := sent + [Envelope(ch, req)];
        r, rs := ZX_ERR_CALL_FAILED, s;
      case Runt(size, n) =>
        Release(Live(req));
        sent := sent + [Envelope(ch, req)];
        var hs := Mint(n);
        r, reply, dsize := ZX_OK, req.(hcount := n, handle := hs), size;
      case Replied(m, n) =>
        Release(Live(req));
        sent := sent + [Envelope(ch, req)];
        var hs := Mint(n);
        r, reply, dsize := ZX_OK, m.(hcount := n, handle := hs), ZXRIO_HDR_SZ + |m.data|;
    }

    /** zx_channel_read into a message buffer `buf`. On success the message
        bytes are placed in the buffer and its handles are received; `hcount`
        is the kernel's own count of them. */
    method Read(ch: Handle, buf: Msg, o: ReadOutcome)
      returns (r: int, m: Msg, dsize: nat, hcount: nat)
      requires Valid()
      modifies this
      ensures Valid() && closed == old(closed) && sent == old(sent) && next >= old(next)
      ensures channels == old(channels)
      ensures Readable(o).NoMessage? ==>
                r == Readable(o).status && owned == old(owned) && m == buf && hcount == 0
      ensures !Readable(o).NoMessage? ==>
                r == ZX_OK && hcount == |m.handle| && Distinct(m.handle) &&
                MintedSince(m.handle, old(next)) && HANDLE_INVALID !in m.handle &&
                owned == old(owned) + Elems(m.handle)
      ensures Readable(o).ShortMessage? ==> dsize == Readable(o).size && hcount == Readable(o).sn
      ensures Readable(o).Message? ==>
                dsize == ZXRIO_HDR_SZ + |Readable(o).msg.data| && hcount == Readable(o).mn &&
                m == Readable(o).msg.(handle := m.handle)
    {
      m, dsize, hcount := buf, 0, 0;
      match Readable(o)
      case NoMessage(s) =>
        r := s;
      case ShortMessage(size, n) =>
        var hs := Mint(n);
        r, m, dsize, hcount := ZX_OK, buf.(handle := hs), size, n;
      case Message(msg, n) =>
        var hs := Mint(n);
        r, m, dsize, hcount := ZX_OK, msg.(handle := hs), ZXRIO_HDR_SZ + |msg.data|, n;
    }

    /** zx_channel_read of a describe record with room for one handle. When a
        handle arrives the kernel writes it into the record's handle field;
        otherwise that field keeps whatever bytes the peer sent. */
    method ReadDescribe(ch: Handle, o: DescribeOutcome)
      returns (r: int, info: Describe, dsize: nat, actual: nat)
      requires Valid()
      modifies this
      ensures Valid() && closed == old(closed) && sent == old(sent) && next >= old(next)
      ensures channels == old(channels)
      ensures Describable(o).DescribeFailed? ==>
                r == Describable(o).status && owned == old(owned) && actual == 0
      ensures Describable(o).Described? ==>
                r == ZX_OK && dsize == Describable(o).size && actual == Describable(o).dn &&
                info == Describable(o).rec.(handle := info.handle)
      ensures Describable(o).Described? && actual == 0 ==>
                info == Describable(o).rec && owned == old(owned)
      ensures Describable(o).Described? && actual == 1 ==>
                info.handle >= old(next) && info.handle != HANDLE_INVALID &&
                owned == old(owned) + {info.handle}
    {
      info := Describe(0, 0, 0, VmoRange(0, 0), HANDLE_INVALID);
      dsize, actual := 0, 0;
      match Describable(o)
      case DescribeFailed(s) =>
        r := s;
      case Described(size, rec, n) =>
        r, dsize, actual, info := ZX_OK, size, n, rec;
        if n == 1 {
          var hs := Mint(1);
          info := rec.(handle := hs[0]);
          assert Elems(hs) == {hs[0]};
        }
    }
  }
}
