/** The client side of RIO: a connection object holding the control channel
    `h`, the optional event handle `h2` and the transaction counter, and the
    operations the fd layer calls on it. */
module Rio {
  import opened Wire
  import opened Transport
  import opened Exchange
  import opened Chunked
  import opened Negotiate
  import opened IoctlLayout
  import Signals

  /** The id after `id`: the 32-bit transaction counter wraps to 0. */
  function NextTxid(id: nat): (r: nat)
    ensures id < TXID_MOD ==> r < TXID_MOD
    ensures r == 0 || r == id + 1
  {
    if id + 1 == TXID_MOD then 0 else id + 1
  }

  /** The transaction id `n` transactions after `id`. */
  function TxidAfter(id: nat, n: nat): (r: nat)
    ensures id < TXID_MOD ==> r < TXID_MOD
  {
    if n == 0 then id else NextTxid(TxidAfter(id, n - 1))
  }

  /** Successive transactions count up from `id` modulo 2^32. */
  lemma {:induction false} TxidAfterWraps(id: nat, n: nat)
    requires id < TXID_MOD
    ensures TxidAfter(id, n) == (id + n) % TXID_MOD
  {
    if n > 0 {
      TxidAfterWraps(id, n - 1);
    }
  }

  /** The request read_common (`isRead`) or write_common sends for the
      `xfer` bytes at `done`: a read asks for `xfer` bytes in `arg`, a write
      carries them as its payload; a positioned op also names the file offset. */
  function ChunkRequest(isRead: bool, op: nat, data: seq<byte>, offset: int, txid: nat,
                        done: nat, xfer: nat): Msg
  {
    if isRead then
      Msg(txid, op, xfer, if op == ZXRIO_READ_AT then offset + done else 0, 0, 0, [], [])
    else
      Msg(txid, op, 0, if op == ZXRIO_WRITE_AT then offset + done else 0, xfer, 0, [],
          if done + xfer <= |data| then data[done..done + xfer] else [])
  }

  /** The requests the loop puts on channel `ch` for rounds `t`, the first
      with transaction id `txid`. */
  function Requests(ch: Handle, isRead: bool, op: nat, data: seq<byte>, offset: int, txid: nat,
                    t: seq<Step>): seq<Envelope>
  {
    if t == [] then []
    else Requests(ch, isRead, op, data, offset, txid, t[..|t| - 1]) +
         [Envelope(ch, ChunkRequest(isRead, op, data, offset, TxidAfter(txid, |t| - 1),
                                    Last(t).done, Last(t).xfer))]
  }

  /** How many of the rounds of `t` put their request on the channel: all
      but a last one whose write phase failed. */
  function Posted(t: seq<Step>, outs: seq<CallOutcome>): nat
  {
    if t != [] && Delivered(Nth(outs, |t| - 1)).WriteFailed? then |t| - 1 else |t|
  }

  /** The handles a log of closes gained since `before`, all minted at or
      after `mark`: only handles that arrived during the call were closed. */
  ghost predicate ClosedOnlyFresh(closed: seq<Handle>, before: seq<Handle>, mark: nat)
  {
    before <= closed && MintedSince(closed[|before|..], mark)
  }

  lemma ClosedOnlyFreshTrans(c0: seq<Handle>, c1: seq<Handle>, c2: seq<Handle>, m0: nat, m1: nat)
    requires ClosedOnlyFresh(c1, c0, m0) && ClosedOnlyFresh(c2, c1, m1) && m0 <= m1
    ensures ClosedOnlyFresh(c2, c0, m0)
  {
    assert forall j :: |c0| <= j < |c1| ==> c2[j] == c1[j];
    assert forall j :: |c0| <= j < |c2| ==> c2[j] >= m0 by {
      forall j | |c0| <= j < |c2|
        ensures c2[j] >= m0
      {
        if j < |c1| {
          assert c2[j] == c1[j] == c1[|c0|..][j - |c0|];
        } else {
          assert c2[j] == c2[|c1|..][j - |c1|];
        }
      }
    }
  }

  /** The log after one more round: a round whose write phase succeeded
      adds its request, one whose write failed adds nothing. */
  lemma LogRound(base: seq<Envelope>, sent0: seq<Envelope>, sent1: seq<Envelope>, ch: Handle,
                 isRead: bool, op: nat, data: seq<byte>, offset: int, id: nat, posted: seq<Step>,
                 s: Step, o: CallOutcome)
    requires sent0 == base + Requests(ch, isRead, op, data, offset, id, posted)
    requires sent1 == sent0 + (if Delivered(o).WriteFailed? then [] else
      [Envelope(ch, ChunkRequest(isRead, op, data, offset, TxidAfter(id, |posted|), s.done, s.xfer))])
    ensures sent1 == base + Requests(ch, isRead, op, data, offset, id,
                                     if Delivered(o).WriteFailed? then posted else posted + [s])
  {
    if !Delivered(o).WriteFailed? {
      assert (posted + [s])[..|posted|] == posted;
    }
  }

  /** Where a chunked loop stands against its trace `T` over `total` bytes:
      `acc` are the rounds done, `posted` those whose request went out,
      `count` bytes moved, `len` left, `r` the last status; once `stop` is set
      the trace has ended. */
  ghost predicate Progress(isRead: bool, T: seq<Step>, outs: seq<CallOutcome>, total: nat,
                           acc: seq<Step>, posted: seq<Step>, count: nat, len: nat, r: int,
                           stop: bool)
  {
    count + len == total && Moved(acc) == count &&
    (acc == [] ==> r == 0) && (acc != [] ==> Last(acc).r == r) &&
    (!stop ==> T == acc + Steps(isRead, len, count, outs, |acc|) && posted == acc) &&
    (stop ==> T == acc) &&
    posted == acc[..Posted(acc, outs)]
  }

  /** A chunked loop starts at the beginning of its trace. */
  lemma ProgressStart(isRead: bool, outs: seq<CallOutcome>, total: nat)
    ensures Progress(isRead, Steps(isRead, total, 0, outs, 0), outs, total, [], [], 0, total, 0, false)
  {
  }

  /** When a chunked loop ends its rounds are the whole trace: it returns the
      trace's result, and the trace's posted rounds are the ones it sent. */
  lemma ProgressEnd(isRead: bool, T: seq<Step>, outs: seq<CallOutcome>, total: nat,
                    acc: seq<Step>, posted: seq<Step>, count: nat, len: nat, r: int, stop: bool)
    requires Progress(isRead, T, outs, total, acc, posted, count, len, r, stop)
    requires len == 0 || stop
    ensures T == acc && posted == T[..Posted(T, outs)]
    ensures Result(T) == if count != 0 then count else r
  {
    if !stop {
      assert Steps(isRead, 0, count, outs, |acc|) == [];
    }
  }

  /** One round of a chunked loop, with status `r`, moves it along its
      trace: the round joins `acc` (and `posted`, unless its write phase
      failed); an error stops the loop with the count unchanged, otherwise
      `r` bytes are moved and a short round stops it. */
  lemma ProgressStep(isRead: bool, T: seq<Step>, outs: seq<CallOutcome>, total: nat,
                     acc: seq<Step>, count: nat, len: nat, r0: int, r: int,
                     count': nat, len': nat, stop: bool)
    returns (s: Step, acc': seq<Step>, posted': seq<Step>)
    requires len > 0 && Progress(isRead, T, outs, total, acc, acc, count, len, r0, false)
    requires r == ChunkStatus(isRead, Xfer(len), Nth(outs, |acc|))
    requires count' == count + (if r < 0 then 0 else r) && stop == (r < Xfer(len))
    requires len' == len - (if r < 0 then 0 else r)
    ensures s.done == count && s.xfer == Xfer(len) && s.r == r
    ensures s.bytes == (if isRead && r >= 0 then ReplyOf(Nth(outs, |acc|)).data[..r] else [])
    ensures acc' == acc + [s] && Data(acc') == Data(acc) + s.bytes
    ensures posted' == if Delivered(Nth(outs, |acc|)).WriteFailed? then acc else acc'
    ensures Progress(isRead, T, outs, total, acc', posted', count', len', r, stop)
  {
    s := Advance(isRead, len, count, outs, |acc|, T, acc);
    PostedAppend(acc, s, outs);
    acc' := acc + [s];
    posted' := if Delivered(Nth(outs, |acc|)).WriteFailed? then acc else acc';
    assert Moved(acc') == count' && Last(acc') == s;
    if !stop {
      assert posted' == acc' && T == acc' + Steps(isRead, len', count', outs, |acc'|);
    }
  }


  /** Whether one more round posts its request. */
  lemma PostedAppend(acc: seq<Step>, s: Step, outs: seq<CallOutcome>)
    ensures Posted(acc + [s], outs) ==
              |acc| + (if Delivered(Nth(outs, |acc|)).WriteFailed? then 0 else 1)
    ensures (acc + [s])[..|acc|] == acc && (acc + [s])[..|acc| + 1] == acc + [s]
  {
  }

  /** The memcpy that puts a chunk's bytes into the caller's buffer after
      the `count` bytes already there: the buffer held `d` and then the rest
      of `b`, and afterwards holds `d'` (`d` and the new bytes) and then the
      rest of `b`. */
  method Deposit(buf: array<byte>, count: nat, bytes: seq<byte>, ghost d: seq<byte>,
                 ghost d': seq<byte>, ghost b: seq<byte>, ghost count': nat)
    requires count' == count + |bytes| && count' <= buf.Length == |b|
    requires |d| == count && buf[..] == d + b[count..] && d' == d + bytes
    modifies buf
    ensures |d'| == count' && buf[..] == d' + b[count'..]
  {
    forall j | 0 <= j < |bytes| {
      buf[count + j] := bytes[j];
    }
    assert buf[..] == old(buf[..count]) + bytes + old(buf[count'..]);
    assert old(buf[..count]) == d;
    assert old(buf[count'..]) == b[count'..];
  }

  /** memcpy/memset into a caller's buffer: `x` written from byte `at` on. */
  method Put(buf: array<byte>, at: nat, x: seq<byte>)
    requires at + |x| <= buf.Length
    modifies buf
    ensures buf[..] == Overlay(old(buf[..]), at, x)
  {
    forall j | 0 <= j < |x| {
      buf[at + j] := x[j];
    }
    assert buf[..] == Overlay(old(buf[..]), at, x);
  }

  /** Taking back `n` of fresh handles `hs` that were added to `base` and
      closing the rest leaves `base` and the `n` taken. */
  lemma KeepFirst(base: set<Handle>, hs: seq<Handle>, n: nat, mark: nat)
    requires n <= |hs| && Distinct(hs) && MintedSince(hs, mark)
    requires forall x :: x in base ==> x < mark
    ensures base + Elems(hs) - Elems(hs[n..]) == base + Elems(hs[..n])
  {
    forall x | x in Elems(hs[..n])
      ensures x !in Elems(hs[n..])
    {
      var i :| 0 <= i < n && hs[..n][i] == x;
      forall j | 0 <= j < |hs| - n
        ensures hs[n..][j] != x
      {
        assert hs[n..][j] == hs[n + j] && hs[..n][i] == hs[i];
      }
    }
    forall x | x in Elems(hs)
      ensures x in Elems(hs[..n]) || x in Elems(hs[n..])
    {
      var i :| 0 <= i < |hs| && hs[i] == x;
      if i < n {
        assert hs[..n][i] == x;
      } else {
        assert hs[n..][i - n] == x;
      }
    }
    forall x | x in Elems(hs[n..])
      ensures x !in base
    {
      var j :| 0 <= j < |hs| - n && hs[n..][j] == x;
      assert hs[n + j] == x;
    }
  }

  /** The handles zxrio_close closes after the exchange: the control channel,
      then the event handle when there is one. */
  function Ends(h: Handle, h2: Handle): (hs: seq<Handle>)
    ensures Elems(hs) == {h, h2} - {HANDLE_INVALID}
  {
    (if h != HANDLE_INVALID then [h] else []) + (if h2 != HANDLE_INVALID then [h2] else [])
  }

  /** The token handle RENAME and LINK pass through the offset argument (the
      offset cast to a 32-bit handle); none for other ops, or when the call
      is refused before sending. */
  function MiscTokens(op: nat, off: int, len: nat, maxreply: nat): (hs: seq<Handle>)
    ensures |hs| <= 1
  {
    if len > FDIO_CHUNK_SIZE || maxreply > FDIO_CHUNK_SIZE then []
    else if op == ZXRIO_RENAME || op == ZXRIO_LINK then [off % 0x1_0000_0000]
    else []
  }

  /** The request zxrio_misc sends: `maxreply` in `arg`, the offset in
      `arg2`, the payload, and the token handle of RENAME and LINK. */
  function MiscRequest(op: nat, off: int, maxreply: nat, payload: seq<byte>): (m: Msg)
    requires |payload| <= FDIO_CHUNK_SIZE && maxreply <= FDIO_CHUNK_SIZE
    ensures IsMessageValid(m) && Live(m) == MiscTokens(op, off, |payload|, maxreply)
    ensures m.op == op && m.arg == maxreply && m.arg2 == off && m.data == payload
  {
    var hs := MiscTokens(op, off, |payload|, maxreply);
    Msg(0, op, maxreply, off, |payload|, |hs|, hs, payload)
  }

  class Remote {
    const k: Kernel
    var h: Handle
    var h2: Handle
    var txid: nat

    /** The connection's handles are held (unless closed), and distinct. */
    ghost predicate Valid()
      reads this, k
    {
      k.Valid() && txid < TXID_MOD &&
      (h != HANDLE_INVALID ==> h in k.owned) &&
      (h2 != HANDLE_INVALID ==> h2 in k.owned && h2 != h)
    }

    /** `hs` are none of the connection's own handles. */
    ghost predicate Apart(hs: seq<Handle>)
      reads this
    {
      h !in hs && h2 !in hs
    }

    /** fdio_remote_create, once the allocation succeeded: the object takes
        both handles and starts its transaction ids at 1. */
    constructor (k: Kernel, h: Handle, e: Handle)
      requires k.Valid() && h != HANDLE_INVALID && h in k.owned
      requires e != HANDLE_INVALID ==> e in k.owned && e != h
      ensures Valid() && this.k == k && this.h == h && h2 == e && txid == 1
    {
      this.k := k;
      this.h := h;
      this.h2 := e;
      this.txid := 1;
    }

    /** zxrio_txn: one call on the control channel. A message that is not
        valid is refused before anything is sent. Otherwise the request takes
        the next transaction id and its handles go to the far end (or, when
        the write fails, are closed); the result is the status the exchange
        ends with, and only an accepted reply leaves handles with the caller. */
    method Txn(msg: Msg, o: CallOutcome) returns (r: int, reply: Msg)
      requires Valid() && k.OwnsMsg(msg) && Apart(Live(msg))
      modifies this, k
      ensures Valid() && h == old(h) && h2 == old(h2) && k.next >= old(k.next)
      ensures !IsMessageValid(msg) ==>
                r == ZX_ERR_INVALID_ARGS && reply == msg && txid == old(txid) &&
                k.owned == old(k.owned) && k.closed == old(k.closed) && k.sent == old(k.sent)
      ensures IsMessageValid(msg) ==>
                txid == NextTxid(old(txid)) && r == TxnStatus(o)
      ensures IsMessageValid(msg) && !Delivered(o).WriteFailed? ==>
                k.sent == old(k.sent) + [Envelope(h, msg.(txid := old(txid)))]
      ensures IsMessageValid(msg) && Delivered(o).WriteFailed? ==>
                k.sent == old(k.sent) && k.closed == old(k.closed) + Live(msg)
      ensures IsMessageValid(msg) && r < 0 ==>
                reply.hcount == 0 && k.owned == old(k.owned) - Elems(Live(msg))
      ensures IsMessageValid(msg) && !Delivered(o).WriteFailed? ==>
                ClosedOnlyFresh(k.closed, old(k.closed), old(k.next))
      ensures r >= 0 ==>
                reply == ReplyOf(o).(hcount := reply.hcount, handle := reply.handle) &&
                reply.hcount == Delivered(o).n && reply.hcount == |reply.handle| &&
                Distinct(reply.handle) && MintedSince(reply.handle, old(k.next)) &&
                HANDLE_INVALID !in reply.handle && k.closed == old(k.closed) &&
                k.owned == old(k.owned) - Elems(Live(msg)) + Elems(reply.handle)
    {
      if !IsMessageValid(msg) {
        return ZX_ERR_INVALID_ARGS, msg;
      }
      var req := msg.(txid := txid);
      txid := NextTxid(txid);
      assert Live(req) == Live(msg);
      var c, rs, rep, dsize := k.Call(h, req, o);
      if c < 0 {
        if c == ZX_ERR_CALL_FAILED {
          // read phase failed: the request's handles went with it
          return rs, req.(hcount := 0);
        }
        // write phase failed: the request's handles are still ours
        k.Discard(Live(req));
        return c, req.(hcount := 0);
      }
      if !IsMessageReplyValid(rep, dsize) || ZxrioOp(rep.op) != ZXRIO_STATUS {
        k.Discard(rep.handle);
        return ZX_ERR_IO, rep.(hcount := 0);
      }
      r := rep.arg;
      if r < 0 {
        k.Discard(rep.handle);
        return r, rep.(hcount := 0);
      }
      reply := rep;
    }

    /** One transaction of write_common: sends `xfer` bytes of `data` from
        `at` (for ZXRIO_WRITE_AT, at `offset + at` in the file), closes any
        handles the reply carries, and checks that the far end does not claim
        more than `xfer`. */
    method WriteChunk(op: nat, data: seq<byte>, offset: int, at: nat, xfer: nat, o: CallOutcome)
      returns (r: int)
      requires Valid() && 0 < xfer <= FDIO_CHUNK_SIZE && at + xfer <= |data|
      modifies this, k
      ensures Valid() && h == old(h) && h2 == old(h2) && k.owned == old(k.owned)
      ensures k.next >= old(k.next) && ClosedOnlyFresh(k.closed, old(k.closed), old(k.next))
      ensures r == ChunkStatus(false, xfer, o) && (r >= 0 ==> !Delivered(o).WriteFailed?)
      ensures txid == NextTxid(old(txid))
      ensures k.sent == old(k.sent) +
                (if Delivered(o).WriteFailed? then []
                 else [Envelope(h, ChunkRequest(false, op, data, offset, old(txid), at, xfer))])
    {
      var msg := Msg(0, op, 0, if op == ZXRIO_WRITE_AT then offset + at else 0, xfer, 0, [],
                     data[at..at + xfer]);
      var reply;
      r, reply := Txn(msg, o);
      if r < 0 {
        return;
      }
      ghost var c1 := k.closed;
      k.Discard(reply.handle);
      assert k.closed[|c1|..] == reply.handle;
      ClosedOnlyFreshTrans(old(k.closed), c1, k.closed, old(k.next), old(k.next));
      if r > xfer {
        r := ZX_ERR_IO;
      }
    }

    /** One pass of write_common's loop, with `len` bytes left after
        `count`: the round `i` of the trace `T`. The ghost parameters carry
        what the loop has done so far: the rounds `acc`, all posted, the first
        with transaction id `id`, after the log `base`; only handles minted at
        or after `mark` were closed since `c0`. */
    method WriteRound(op: nat, data: seq<byte>, offset: int, outs: seq<CallOutcome>,
                      count: nat, len: nat, i: nat, ghost r0: int, ghost T: seq<Step>,
                      ghost acc: seq<Step>, ghost id: nat, ghost base: seq<Envelope>, ghost c0: seq<Handle>,
                      ghost mark: nat)
      returns (r: int, count': nat, len': nat, stop: bool, ghost acc': seq<Step>,
               ghost posted': seq<Step>)
      requires Valid() && len > 0 && |acc| == i
      requires Progress(false, T, outs, |data|, acc, acc, count, len, r0, false)
      requires txid == TxidAfter(id, i) && k.sent == base + Requests(h, false, op, data, offset, id, acc)
      requires mark <= k.next && ClosedOnlyFresh(k.closed, c0, mark)
      modifies this, k
      ensures Valid() && h == old(h) && h2 == old(h2) && k.owned == old(k.owned)
      ensures |acc'| == i + 1 && len' <= len && (!stop ==> len' < len)
      ensures Progress(false, T, outs, |data|, acc', posted', count', len', r, stop)
      ensures txid == TxidAfter(id, i + 1)
      ensures k.sent == base + Requests(h, false, op, data, offset, id, posted')
      ensures k.next >= mark && ClosedOnlyFresh(k.closed, c0, mark)
    {
      var xfer := Xfer(len);
      var o := Nth(outs, i);
      ghost var sent0 := k.sent;
      r := WriteChunk(op, data, offset, count, xfer, o);
      // an error ends the call with the count as it was, a short write ends
      // it after counting what was written
      var moved := if r < 0 then 0 else r;
      count', len', stop := count + moved, len - moved, r < xfer;
      ghost var s;
      s, acc', posted' := ProgressStep(false, T, outs, |data|, acc, count, len, r0, r, count', len', stop);
      ClosedOnlyFreshTrans(c0, old(k.closed), k.closed, mark, old(k.next));
      LogRound(base, sent0, k.sent, h, false, op, data, offset, id, acc, s, o);
    }

    /** write_common: sends `data` in chunks of at most FDIO_CHUNK_SIZE bytes,
        one transaction each, until it is all sent, a transaction fails, or
        the far end accepts less than a whole chunk. The result and every
        request sent follow the rounds of the trace. */
    method WriteCommon(op: nat, data: seq<byte>, offset: int, outs: seq<CallOutcome>)
      returns (res: int)
      requires Valid()
      modifies this, k
      ensures Valid() && h == old(h) && h2 == old(h2) && k.owned == old(k.owned)
      ensures var t := Steps(false, |data|, 0, outs, 0);
        && res == Result(t)
        && txid == TxidAfter(old(txid), |t|)
        && k.sent == old(k.sent) + Requests(h, false, op, data, offset, old(txid), t[..Posted(t, outs)])
      ensures ClosedOnlyFresh(k.closed, old(k.closed), old(k.next))
    {
      ghost var T := Steps(false, |data|, 0, outs, 0);
      ghost var acc: seq<Step> := [];
      ghost var posted: seq<Step> := [];
      var count: nat := 0;
      var r := 0;
      var len: nat := |data|;
      var i: nat := 0;
      var stop := false;
      ProgressStart(false, outs, |data|);
      while len > 0 && !stop
        invariant Valid() && h == old(h) && h2 == old(h2) && k.owned == old(k.owned)
        invariant |acc| == i && Progress(false, T, outs, |data|, acc, posted, count, len, r, stop)
        invariant txid == TxidAfter(old(txid), i)
        invariant k.sent == old(k.sent) + Requests(h, false, op, data, offset, old(txid), posted)
        invariant k.next >= old(k.next) && ClosedOnlyFresh(k.closed, old(k.closed), old(k.next))
        decreases len, !stop
      {
        r, count, len, stop, acc, posted :=
          WriteRound(op, data, offset, outs, count, len, i, r, T, acc, old(txid), old(k.sent),
                     old(k.closed), old(k.next));
        i := i + 1;
      }
      ProgressEnd(false, T, outs, |data|, acc, posted, count, len, r, stop);
      res := if count != 0 then count else r;
    }
  
    /** One transaction of read_common: asks for `xfer` bytes (for
        ZXRIO_READ_AT, at `offset + at` in the file), closes any handles the
        reply carries, and checks that the far end neither claims more than
        `xfer` nor more than it sent; `bytes` are the ones to copy out. */
    method ReadChunk(op: nat, offset: int, at: nat, xfer: nat, o: CallOutcome)
      returns (r: int, bytes: seq<byte>)
      requires Valid() && 0 < xfer <= FDIO_CHUNK_SIZE
      modifies this, k
      ensures Valid() && h == old(h) && h2 == old(h2) && k.owned == old(k.owned)
      ensures k.next >= old(k.next) && ClosedOnlyFresh(k.closed, old(k.closed), old(k.next))
      ensures r == ChunkStatus(true, xfer, o) && (r >= 0 ==> !Delivered(o).WriteFailed?)
      ensures r >= 0 ==> bytes == ReplyOf(o).data[..r]
      ensures txid == NextTxid(old(txid))
      ensures k.sent == old(k.sent) +
                (if Delivered(o).WriteFailed? then []
                 else [Envelope(h, ChunkRequest(true, op, [], offset, old(txid), at, xfer))])
    {
      var msg := Msg(0, op, xfer, if op == ZXRIO_READ_AT then offset + at else 0, 0, 0, [], []);
      var reply;
      bytes := [];
      r, reply := Txn(msg, o);
      if r < 0 {
        return;
      }
      ghost var c1 := k.closed;
      k.Discard(reply.handle);
      assert k.closed[|c1|..] == reply.handle;
      ClosedOnlyFreshTrans(old(k.closed), c1, k.closed, old(k.next), old(k.next));
      if r > reply.datalen || r > xfer {
        r := ZX_ERR_IO;
        return;
      }
      bytes := reply.data[..r];
    }

    /** One pass of read_common's loop, with `len` bytes left after `count`:
        the round `i` of the trace `T`, copying what it reads into `buf` at
        `count`. The ghost parameters are those of WriteRound. */
    method ReadRound(op: nat, total: nat, offset: int, outs: seq<CallOutcome>,
                     count: nat, len: nat, i: nat, ghost r0: int, ghost T: seq<Step>,
                     ghost acc: seq<Step>, ghost id: nat, ghost base: seq<Envelope>,
                     ghost c0: seq<Handle>, ghost mark: nat)
      returns (r: int, got: seq<byte>, count': nat, len': nat, stop: bool, ghost acc': seq<Step>,
               ghost posted': seq<Step>)
      requires Valid() && len > 0 && |acc| == i
      requires Progress(true, T, outs, total, acc, acc, count, len, r0, false)
      requires txid == TxidAfter(id, i) && k.sent == base + Requests(h, true, op, [], offset, id, acc)
      requires mark <= k.next && ClosedOnlyFresh(k.closed, c0, mark)
      modifies this, k
      ensures Valid() && h == old(h) && h2 == old(h2) && k.owned == old(k.owned)
      ensures |acc'| == i + 1 && len' <= len && (!stop ==> len' < len)
      ensures Progress(true, T, outs, total, acc', posted', count', len', r, stop)
      ensures Data(acc') == Data(acc) + got && count' == count + |got|
      ensures txid == TxidAfter(id, i + 1)
      ensures k.sent == base + Requests(h, true, op, [], offset, id, posted')
      ensures k.next >= mark && ClosedOnlyFresh(k.closed, c0, mark)
    {
      var xfer := Xfer(len);
      var o := Nth(outs, i);
      ghost var sent0 := k.sent;
      var bytes;
      r, bytes := ReadChunk(op, offset, count, xfer, o);
      // an error ends the call with the count as it was, a short read ends
      // it after copying out what was read
      var moved := if r < 0 then 0 else r;
      count', len', stop := count + moved, len - moved, r < xfer;
      ghost var s;
      s, acc', posted' := ProgressStep(true, T, outs, total, acc, count, len, r0, r,
                                       count', len', stop);
      ClosedOnlyFreshTrans(c0, old(k.closed), k.closed, mark, old(k.next));
      LogRound(base, sent0, k.sent, h, true, op, [], offset, id, acc, s, o);
      got := if r >= 0 then bytes else [];
      assert s.bytes == got && |got| == moved;
    }

    /** read_common: reads up to `len` bytes into `buf` in chunks of at most
        FDIO_CHUNK_SIZE bytes, one transaction each, until it has them all, a
        transaction fails, or the far end sends less than a whole chunk. The
        result, the bytes copied and every request sent follow the rounds of
        the trace; the rest of `buf` is untouched. */
    method ReadCommon(op: nat, buf: array<byte>, len: nat, offset: int, outs: seq<CallOutcome>)
      returns (res: int)
      requires Valid() && len <= buf.Length
      modifies this, k, buf
      ensures Valid() && h == old(h) && h2 == old(h2) && k.owned == old(k.owned)
      ensures var t := Steps(true, len, 0, outs, 0);
        && res == Result(t)
        && txid == TxidAfter(old(txid), |t|)
        && k.sent == old(k.sent) + Requests(h, true, op, [], offset, old(txid), t[..Posted(t, outs)])
      ensures Moved(Steps(true, len, 0, outs, 0)) <= len
      ensures var t := Steps(true, len, 0, outs, 0);
        buf[..] == Data(t) + old(buf[..])[Moved(t)..]
      ensures ClosedOnlyFresh(k.closed, old(k.closed), old(k.next))
    {
      ghost var T := Steps(true, len, 0, outs, 0);
      ghost var b0 := buf[..];
      ghost var acc: seq<Step> := [];
      ghost var posted: seq<Step> := [];
      var count: nat := 0;
      var r := 0;
      var left: nat := len;
      var i: nat := 0;
      var stop := false;
      ProgressStart(true, outs, len);
      while left > 0 && !stop
        invariant Valid() && h == old(h) && h2 == old(h2) && k.owned == old(k.owned)
        invariant |acc| == i && Progress(true, T, outs, len, acc, posted, count, left, r, stop)
        invariant |Data(acc)| == count && buf[..] == Data(acc) + b0[count..]
        invariant txid == TxidAfter(old(txid), i)
        invariant k.sent == old(k.sent) + Requests(h, true, op, [], offset, old(txid), posted)
        invariant k.next >= old(k.next) && ClosedOnlyFresh(k.closed, old(k.closed), old(k.next))
        decreases left, !stop
      {
        ghost var acc0 := acc;
        var got, count';
        r, got, count', left, stop, acc, posted :=
          ReadRound(op, len, offset, outs, count, left, i, r, T, acc, old(txid), old(k.sent),
                    old(k.closed), old(k.next));
        Deposit(buf, count, got, Data(acc0), Data(acc), b0, count');
        count, i := count', i + 1;
      }
      ProgressEnd(true, T, outs, len, acc, posted, count, left, r, stop);
      res := if count != 0 then count else r;
    }

    /** A transaction whose request carries no handles and whose reply's
        handles are all closed, as zxrio_seek and zxrio_close use it. */
    method TxnNoHandles(msg: Msg, o: CallOutcome) returns (r: int, reply: Msg)
      requires Valid() && msg.hcount == 0 && msg.datalen <= FDIO_CHUNK_SIZE
      modifies this, k
      ensures Valid() && h == old(h) && h2 == old(h2) && k.owned == old(k.owned)
      ensures k.next >= old(k.next) && ClosedOnlyFresh(k.closed, old(k.closed), old(k.next))
      ensures r == TxnStatus(o) && txid == NextTxid(old(txid))
      ensures r >= 0 ==> reply == ReplyOf(o).(hcount := reply.hcount, handle := reply.handle)
      ensures k.sent == old(k.sent) +
                (if Delivered(o).WriteFailed? then [] else [Envelope(h, msg.(txid := old(txid)))])
    {
      assert Live(msg) == [] && Elems(Live(msg)) == {};
      r, reply := Txn(msg, o);
      if r >= 0 {
        ghost var c1 := k.closed;
        k.Discard(reply.handle);
        assert k.closed[|c1|..] == reply.handle;
        KeepFirst(old(k.owned), reply.handle, 0, old(k.next));
        assert reply.handle[0..] == reply.handle;
        ClosedOnlyFreshTrans(old(k.closed), c1, k.closed, old(k.next), old(k.next));
      }
    }

    /** zxrio_seek: asks the far end to move the seek pointer and returns the
        offset it reports, or the exchange's error. */
    method Seek(offset: int, whence: int, o: CallOutcome) returns (r: int)
      requires Valid()
      modifies this, k
      ensures Valid() && h == old(h) && h2 == old(h2) && k.owned == old(k.owned)
      ensures k.next >= old(k.next) && ClosedOnlyFresh(k.closed, old(k.closed), old(k.next))
      ensures TxnStatus(o) < 0 ==> r == TxnStatus(o)
      ensures TxnStatus(o) >= 0 ==> r == ReplyOf(o).arg2
      ensures txid == NextTxid(old(txid))
      ensures k.sent == old(k.sent) +
                (if Delivered(o).WriteFailed? then []
                 else [Envelope(h, Msg(old(txid), ZXRIO_SEEK, whence, offset, 0, 0, [], []))])
    {
      var reply;
      r, reply := TxnNoHandles(Msg(0, ZXRIO_SEEK, whence, offset, 0, 0, [], []), o);
      if r >= 0 {
        r := reply.arg2;
      }
    }

    /** zxrio_close: sends a close request, then closes the control channel
        and the event handle whatever the answer, and zeroes both fields.
        Afterwards the object holds no handles, so a second close closes
        nothing more. */
    method Close(o: CallOutcome) returns (r: int)
      requires Valid()
      modifies this, k
      ensures Valid() && h == HANDLE_INVALID && h2 == HANDLE_INVALID
      ensures r == TxnStatus(o) && txid == NextTxid(old(txid))
      ensures k.owned == old(k.owned) - {old(h), old(h2)} && k.next >= old(k.next)
      ensures k.sent == old(k.sent) +
                (if Delivered(o).WriteFailed? then []
                 else [Envelope(old(h), Request(ZXRIO_CLOSE).(txid := old(txid)))])
      ensures |Ends(old(h), old(h2))| <= |k.closed|
      ensures var c := |k.closed| - |Ends(old(h), old(h2))|;
                k.closed[c..] == Ends(old(h), old(h2)) &&
                ClosedOnlyFresh(k.closed[..c], old(k.closed), old(k.next))
    {
      var reply;
      r, reply := TxnNoHandles(Request(ZXRIO_CLOSE), o);
      ghost var c1 := k.closed;
      var ch := h;
      h := HANDLE_INVALID;
      k.Close(ch);
      if h2 != HANDLE_INVALID {
        var e := h2;
        h2 := HANDLE_INVALID;
        k.Close(e);
      }
      assert k.closed == c1 + Ends(old(h), old(h2));
      assert k.closed[..|c1|] == c1;
    }

    /** zxrio_ioctl: refuses oversized buffers and buffers too small for the
        kind's handles; otherwise sends the input (with a SET kind's handles)
        and, on success, copies the reply's payload (cut to `outLen`) to
        `out`, puts the handles a GET kind takes in the leading words with
        zero words for missing ones, and closes every other handle of the
        reply. `got` are the handles left with the caller. */
    method Ioctl(op: nat, input: seq<byte>, out: array<byte>, outLen: nat, o: CallOutcome)
      returns (r: int, got: seq<Handle>)
      requires Valid() && outLen <= out.Length
      requires k.Holds(InHandles(op, input, outLen)) && Apart(InHandles(op, input, outLen))
      modifies this, k, out
      ensures Valid() && h == old(h) && h2 == old(h2) && k.next >= old(k.next)
      ensures BadIoctlArgs(op, |input|, outLen) ==>
                r == ZX_ERR_INVALID_ARGS && txid == old(txid) && k.owned == old(k.owned) &&
                k.closed == old(k.closed) && k.sent == old(k.sent)
      ensures !BadIoctlArgs(op, |input|, outLen) ==>
                r == TxnStatus(o) && txid == NextTxid(old(txid)) &&
                k.sent == old(k.sent) +
                  (if Delivered(o).WriteFailed? then []
                   else [Envelope(h, IoctlRequest(op, input, outLen).(txid := old(txid)))])
      ensures r < 0 ==> got == [] && out[..] == old(out[..])
      ensures !BadIoctlArgs(op, |input|, outLen) && r < 0 ==>
                k.owned == old(k.owned) - Elems(InHandles(op, input, outLen))
      ensures !BadIoctlArgs(op, |input|, outLen) && Delivered(o).WriteFailed? ==>
                k.closed == old(k.closed) + InHandles(op, input, outLen)
      ensures !Delivered(o).WriteFailed? ==>
                ClosedOnlyFresh(k.closed, old(k.closed), old(k.next))
      ensures r >= 0 ==>
                |got| == Min(Delivered(o).n, GetSlots(op)) && Distinct(got) &&
                MintedSince(got, old(k.next)) && HANDLE_INVALID !in got &&
                k.owned == old(k.owned) - Elems(InHandles(op, input, outLen)) + Elems(got) &&
                |k.closed| == |old(k.closed)| + Delivered(o).n - |got|
      ensures r >= 0 ==>
                HANDLE_SZ * GetSlots(op) <= outLen &&
                out[..] == IoctlOut(old(out[..]), ReplyOf(o).data[..Min(|ReplyOf(o).data|, outLen)],
                                    got, GetSlots(op))
    {
      got := [];
      if BadIoctlArgs(op, |input|, outLen) {
        return ZX_ERR_INVALID_ARGS, [];
      }
      var msg := IoctlRequest(op, input, outLen);
      var reply;
      r, reply := Txn(msg, o);
      if r < 0 {
        return;
      }
      assert h != HANDLE_INVALID ==> h !in Live(msg);
      assert h2 != HANDLE_INVALID ==> h2 !in Live(msg);
      ghost var c1 := k.closed;
      got := IoctlTake(op, reply, out, outLen, old(k.owned) - Elems(Live(msg)), old(k.next));
      ClosedOnlyFreshTrans(old(k.closed), c1, k.closed, old(k.next), old(k.next));
    }

    /** The reply half of zxrio_ioctl: the payload cut to `outLen` goes to
        the start of `out`, the first handles (as many as the kind has slots)
        go over its leading words with zero words for the slots left empty,
        and the other handles are closed. The reply's handles are fresh
        (minted at or after `mark`) and were added to `base`. */
    method IoctlTake(op: nat, reply: Msg, out: array<byte>, outLen: nat, ghost base: set<Handle>,
                     ghost mark: nat) returns (got: seq<Handle>)
      requires Valid() && HANDLE_SZ * GetSlots(op) <= outLen <= out.Length
      requires reply.datalen == |reply.data| && reply.hcount == |reply.handle|
      requires Distinct(reply.handle) && MintedSince(reply.handle, mark)
      requires (forall x :: x in base ==> x < mark) && k.owned == base + Elems(reply.handle)
      requires (h != HANDLE_INVALID ==> h in base) && (h2 != HANDLE_INVALID ==> h2 in base)
      modifies k, out
      ensures Valid() && k.next == old(k.next) && k.sent == old(k.sent)
      ensures got == reply.handle[..Min(reply.hcount, GetSlots(op))]
      ensures k.owned == base + Elems(got)
      ensures k.closed == old(k.closed) + reply.handle[|got|..]
      ensures ClosedOnlyFresh(k.closed, old(k.closed), mark)
      ensures out[..] == IoctlOut(old(out[..]), reply.data[..Min(reply.datalen, outLen)], got, GetSlots(op))
    {
      var copyLen := Min(reply.datalen, outLen);
      Put(out, 0, reply.data[..copyLen]);
      var slots := GetSlots(op);
      var n := Min(reply.hcount, slots);
      got := reply.handle[..n];
      Put(out, 0, SlotBytes(got, slots));
      KeepHandles(reply.handle, n, base, mark);
    }

    /** zxrio_misc: the other operations. Oversized buffers are refused;
        RENAME and LINK pass the token handle in the offset. After the
        exchange, MMAP wants exactly one handle, which becomes the result,
        and a payload within `maxreply`; FCNTL copies back the mode; every
        other op copies back a payload within `maxreply`. All handles except
        MMAP's are closed. */
    method Misc(op: nat, off: int, maxreply: nat, ptr: array?<byte>, len: nat, o: CallOutcome)
      returns (r: int)
      requires Valid()
      requires ptr != null ==> len <= ptr.Length && maxreply <= ptr.Length
      requires ptr != null && op == ZXRIO_FCNTL ==> HANDLE_SZ <= ptr.Length
      requires op == ZXRIO_MMAP && 0 < maxreply <= FDIO_CHUNK_SIZE ==> ptr != null
      requires k.Holds(MiscTokens(op, off, len, maxreply)) && Apart(MiscTokens(op, off, len, maxreply))
      modifies this, k, ptr
      ensures Valid() && h == old(h) && h2 == old(h2) && k.next >= old(k.next)
      ensures len > FDIO_CHUNK_SIZE || maxreply > FDIO_CHUNK_SIZE ==>
                r == ZX_ERR_INVALID_ARGS && txid == old(txid) && k.owned == old(k.owned) &&
                k.closed == old(k.closed) && k.sent == old(k.sent)
      ensures len <= FDIO_CHUNK_SIZE && maxreply <= FDIO_CHUNK_SIZE ==>
                txid == NextTxid(old(txid)) &&
                k.sent == old(k.sent) +
                  (if Delivered(o).WriteFailed? then []
                   else [Envelope(h, MiscRequest(op, off, maxreply,
                                                 if ptr != null && len > 0 then old(ptr[..len])
                                                 else Zeros(len)).(txid := old(txid)))])
      ensures len <= FDIO_CHUNK_SIZE && maxreply <= FDIO_CHUNK_SIZE && TxnStatus(o) < 0 ==>
                r == TxnStatus(o)
      ensures r < 0 && ptr != null ==> ptr[..] == old(ptr[..])
      ensures TxnStatus(o) >= 0 && op == ZXRIO_MMAP && len <= FDIO_CHUNK_SIZE && maxreply <= FDIO_CHUNK_SIZE ==>
                if Delivered(o).n != 1 || |ReplyOf(o).data| > maxreply then r == ZX_ERR_IO
                else r >= old(k.next) && r != HANDLE_INVALID &&
                     k.owned == old(k.owned) + {r} &&
                     (ptr != null ==> ptr[..] == Overlay(old(ptr[..]), 0, ReplyOf(o).data))
      ensures TxnStatus(o) >= 0 && op == ZXRIO_FCNTL && len <= FDIO_CHUNK_SIZE && maxreply <= FDIO_CHUNK_SIZE ==>
                r == TxnStatus(o) &&
                (ptr != null ==> ptr[..] == Overlay(old(ptr[..]), 0, Le32(Mode(ReplyOf(o)))))
      ensures TxnStatus(o) >= 0 && op != ZXRIO_MMAP && op != ZXRIO_FCNTL &&
              len <= FDIO_CHUNK_SIZE && maxreply <= FDIO_CHUNK_SIZE ==>
                r == (if |ReplyOf(o).data| > maxreply then ZX_ERR_IO else TxnStatus(o)) &&
                (r >= 0 && ptr != null ==> ptr[..] == Overlay(old(ptr[..]), 0, ReplyOf(o).data))
      ensures (op != ZXRIO_MMAP || r < 0) && (len <= FDIO_CHUNK_SIZE && maxreply <= FDIO_CHUNK_SIZE) ==>
                k.owned == old(k.owned) - Elems(MiscTokens(op, off, len, maxreply))
      ensures len <= FDIO_CHUNK_SIZE && maxreply <= FDIO_CHUNK_SIZE && Delivered(o).WriteFailed? ==>
                k.closed == old(k.closed) + MiscTokens(op, off, len, maxreply)
      ensures !Delivered(o).WriteFailed? ==> ClosedOnlyFresh(k.closed, old(k.closed), old(k.next))
    {
      if len > FDIO_CHUNK_SIZE || maxreply > FDIO_CHUNK_SIZE {
        r := ZX_ERR_INVALID_ARGS;
      } else {
        r := MiscSend(op, off, maxreply, ptr, len, o);
      }
    }

    /** zxrio_misc once its length checks have passed: one transaction and
        the reply half. */
    method MiscSend(op: nat, off: int, maxreply: nat, ptr: array?<byte>, len: nat, o: CallOutcome)
      returns (r: int)
      requires Valid()
      requires ptr != null ==> len <= ptr.Length && maxreply <= ptr.Length
      requires ptr != null && op == ZXRIO_FCNTL ==> HANDLE_SZ <= ptr.Length
      requires op == ZXRIO_MMAP && 0 < maxreply <= FDIO_CHUNK_SIZE ==> ptr != null
      requires k.Holds(MiscTokens(op, off, len, maxreply)) && Apart(MiscTokens(op, off, len, maxreply))
      requires len <= FDIO_CHUNK_SIZE && maxreply <= FDIO_CHUNK_SIZE
      modifies this, k, ptr
      ensures Valid() && h == old(h) && h2 == old(h2) && k.next >= old(k.next)
      ensures txid == NextTxid(old(txid)) &&
                k.sent == old(k.sent) +
                  (if Delivered(o).WriteFailed? then []
                   else [Envelope(h, MiscRequest(op, off, maxreply,
                                                 if ptr != null && len > 0 then old(ptr[..len])
                                                 else Zeros(len)).(txid := old(txid)))])
      ensures TxnStatus(o) < 0 ==>
                r == TxnStatus(o)
      ensures r < 0 && ptr != null ==> ptr[..] == old(ptr[..])
      ensures TxnStatus(o) >= 0 && op == ZXRIO_MMAP ==>
                if Delivered(o).n != 1 || |ReplyOf(o).data| > maxreply then r == ZX_ERR_IO
                else r >= old(k.next) && r != HANDLE_INVALID &&
                     k.owned == old(k.owned) + {r} &&
                     (ptr != null ==> ptr[..] == Overlay(old(ptr[..]), 0, ReplyOf(o).data))
      ensures TxnStatus(o) >= 0 && op == ZXRIO_FCNTL ==>
                r == TxnStatus(o) &&
                (ptr != null ==> ptr[..] == Overlay(old(ptr[..]), 0, Le32(Mode(ReplyOf(o)))))
      ensures TxnStatus(o) >= 0 && op != ZXRIO_MMAP && op != ZXRIO_FCNTL ==>
                r == (if |ReplyOf(o).data| > maxreply then ZX_ERR_IO else TxnStatus(o)) &&
                (r >= 0 && ptr != null ==> ptr[..] == Overlay(old(ptr[..]), 0, ReplyOf(o).data))
      ensures (op != ZXRIO_MMAP || r < 0) ==>
                k.owned == old(k.owned) - Elems(MiscTokens(op, off, len, maxreply))
      ensures Delivered(o).WriteFailed? ==>
                k.closed == old(k.closed) + MiscTokens(op, off, len, maxreply)
      ensures !Delivered(o).WriteFailed? ==> ClosedOnlyFresh(k.closed, old(k.closed), old(k.next))
    {
      var payload := if ptr != null && len > 0 then ptr[..len] else Zeros(len);
      var msg := MiscRequest(op, off, maxreply, payload);
      var reply;
      r, reply := Txn(msg, o);
      if r >= 0 {
        assert h != HANDLE_INVALID ==> h !in Live(msg);
        assert h2 != HANDLE_INVALID ==> h2 !in Live(msg);
        ghost var c1 := k.closed;
        r := MiscTake(op, r, maxreply, reply, ptr, old(k.owned) - Elems(Live(msg)), old(k.next));
        ClosedOnlyFreshTrans(old(k.closed), c1, k.closed, old(k.next), old(k.next));
      }
    }

    /** The reply half of zxrio_misc for a reply with status `r`: MMAP keeps
        its one handle and returns it, other ops close every handle; the
        payload (or, for FCNTL, the mode word) goes to `ptr`. The reply's
        handles are fresh (minted at or after `mark`) and were added to
        `base`. */
    method MiscTake(op: nat, r: int, maxreply: nat, reply: Msg, ptr: array?<byte>,
                    ghost base: set<Handle>, ghost mark: nat) returns (res: int)
      requires Valid() && r >= 0
      requires reply.datalen == |reply.data| && reply.hcount == |reply.handle|
      requires Distinct(reply.handle) && MintedSince(reply.handle, mark) && HANDLE_INVALID !in reply.handle
      requires (forall x :: x in base ==> x < mark) && k.owned == base + Elems(reply.handle)
      requires (h != HANDLE_INVALID ==> h in base) && (h2 != HANDLE_INVALID ==> h2 in base)
      requires ptr != null ==> maxreply <= ptr.Length
      requires ptr != null && op == ZXRIO_FCNTL ==> HANDLE_SZ <= ptr.Length
      requires op == ZXRIO_MMAP && 0 < maxreply ==> ptr != null
      modifies k, ptr
      ensures Valid() && k.next == old(k.next) && k.sent == old(k.sent)
      ensures ClosedOnlyFresh(k.closed, old(k.closed), mark)
      ensures op == ZXRIO_MMAP ==>
                if reply.hcount != 1 || reply.datalen > maxreply then
                  res == ZX_ERR_IO && k.owned == base && (ptr != null ==> ptr[..] == old(ptr[..]))
                else
                  res == reply.handle[0] && k.owned == base + {reply.handle[0]} &&
                  (ptr != null ==> ptr[..] == Overlay(old(ptr[..]), 0, reply.data))
      ensures op == ZXRIO_FCNTL ==>
                res == r && k.owned == base &&
                (ptr != null ==> ptr[..] == Overlay(old(ptr[..]), 0, Le32(Mode(reply))))
      ensures op != ZXRIO_MMAP && op != ZXRIO_FCNTL ==>
                res == (if reply.datalen > maxreply then ZX_ERR_IO else r) && k.owned == base &&
                (ptr != null ==> ptr[..] == if reply.datalen > maxreply then old(ptr[..])
                                            else Overlay(old(ptr[..]), 0, reply.data))
    {
      if op == ZXRIO_MMAP && reply.hcount == 1 && reply.datalen <= maxreply {
        res := reply.handle[0];
        assert Elems(reply.handle) == {reply.handle[0]};
        assert k.closed[|old(k.closed)|..] == [];
        if reply.datalen > 0 {
          Put(ptr, 0, reply.data);
        }
      } else {
        KeepHandles(reply.handle, 0, base, mark);
        assert reply.handle[..0] == [] && reply.handle[0..] == reply.handle;
        res := MiscOutput(op, r, maxreply, reply, ptr);
      }
    }

    /** Keeps the first `n` handles of a reply and closes the others, in
        order; the reply's handles are fresh (minted at or after `mark`) and
        were added to `base`. */
    method KeepHandles(hs: seq<Handle>, n: nat, ghost base: set<Handle>, ghost mark: nat)
      requires Valid() && n <= |hs| && Distinct(hs) && MintedSince(hs, mark) && HANDLE_INVALID !in hs
      requires (forall x :: x in base ==> x < mark) && k.owned == base + Elems(hs)
      requires (h != HANDLE_INVALID ==> h in base) && (h2 != HANDLE_INVALID ==> h2 in base)
      modifies k
      ensures Valid() && k.owned == base + Elems(hs[..n]) && k.next == old(k.next) && k.sent == old(k.sent)
      ensures k.closed == old(k.closed) + hs[n..] && ClosedOnlyFresh(k.closed, old(k.closed), mark)
    {
      k.Discard(hs[n..]);
      assert forall j :: 0 <= j < |hs[n..]| ==> hs[n..][j] == hs[n + j];
      KeepFirst(base, hs, n, mark);
      assert k.closed[|old(k.closed)|..] == hs[n..];
    }

    /** What zxrio_misc copies to `ptr` once the reply's handles are closed,
        and the result: MMAP here has the wrong handle count or too much
        payload; FCNTL copies the mode word; other ops copy a payload that
        is within `maxreply`. */
    static method MiscOutput(op: nat, r: int, maxreply: nat, reply: Msg, ptr: array?<byte>)
      returns (res: int)
      requires reply.datalen == |reply.data|
      requires ptr != null ==> maxreply <= ptr.Length
      requires ptr != null && op == ZXRIO_FCNTL ==> HANDLE_SZ <= ptr.Length
      modifies ptr
      ensures op == ZXRIO_MMAP ==> res == ZX_ERR_IO && (ptr != null ==> ptr[..] == old(ptr[..]))
      ensures op == ZXRIO_FCNTL ==>
                res == r && (ptr != null ==> ptr[..] == Overlay(old(ptr[..]), 0, Le32(Mode(reply))))
      ensures op != ZXRIO_MMAP && op != ZXRIO_FCNTL ==>
                res == (if reply.datalen > maxreply then ZX_ERR_IO else r) &&
                (ptr != null ==> ptr[..] == if reply.datalen > maxreply then old(ptr[..])
                                            else Overlay(old(ptr[..]), 0, reply.data))
    {
      res := r;
      if op == ZXRIO_MMAP {
        res := ZX_ERR_IO;
      } else if op == ZXRIO_FCNTL {
        if ptr != null {
          Put(ptr, 0, Le32(Mode(reply)));
        }
      } else if reply.datalen > maxreply {
        res := ZX_ERR_IO;
      } else if ptr != null && reply.datalen > 0 {
        Put(ptr, 0, reply.data);
      }
    }

    /** zxrio_unwrap: hands the object's handles to the caller (the control
        channel, then the event handle if there is one) and frees the object;
        the result is how many there are. */
    method Unwrap() returns (r: int, hs: seq<Handle>)
      requires Valid()
      ensures hs == [h] + (if h2 != HANDLE_INVALID then [h2] else [])
      ensures r == |hs| && (r == 2 <==> h2 != HANDLE_INVALID)
      ensures h != HANDLE_INVALID ==> k.Holds(hs)
    {
      hs := [h];
      r := 1;
      if h2 != HANDLE_INVALID {
        hs := hs + [h2];
        r := 2;
      }
    }

    /** zxrio_wait_begin: waits on the event handle for the signals the
        poll events translate to. */
    method WaitBegin(events: bv32) returns (handle: Handle, signals: bv32)
      ensures handle == h2 && signals == Signals.WaitBeginSignals(events)
      ensures signals & (Signals.POLLERR << Signals.POLL_SHIFT) != 0
    {
      handle := h2;
      signals := Signals.WaitBeginSignals(events);
    }

    /** zxrio_clone: a describe-open of "" with ZXRIO_CLONE on the control
        channel. On success the new connection's handles are returned (the
        client end, then the record's handle if it carried one) and the
        result is their number; on failure nothing new is left open. `srv`
        is the server end sent with the request and `rec` the record read
        back. */
    method Clone(cs: SysStatus, ws: SysStatus, d: DescribeOutcome)
      returns (r: int, hs: seq<Handle>, ghost srv: Handle, ghost rec: Describe)
      requires Valid()
      modifies k
      ensures Valid() && k.next >= old(k.next)
      ensures cs == ZX_OK && ws == ZX_OK ==> (r < 0 <==> DescribeStatus(d) < 0)
      ensures cs < 0 ==> r == cs
      ensures cs == ZX_OK && ws < 0 ==> r == ws
      ensures cs == ZX_OK && ws == ZX_OK ==>
                srv >= old(k.next) &&
                k.sent == old(k.sent) + [Envelope(h, ConnectRequest(ZXRIO_CLONE, ZX_FS_FLAG_DESCRIBE, 0, [], srv))]
      ensures cs < 0 || ws < 0 ==> k.sent == old(k.sent)
      ensures r < 0 ==> hs == [] && k.owned == old(k.owned)
      ensures r >= 0 ==>
                r == |hs| && 1 <= r <= 2 && Distinct(hs) && MintedSince(hs, old(k.next)) &&
                HANDLE_INVALID !in hs && k.owned == old(k.owned) + Elems(hs) &&
                (r == 2 <==> Describable(d).dn == 1)
      // the first handle is the client end of the channel whose server end was sent;
      // the second is the handle the record carried
      ensures r >= 0 ==>
                hs[0] != srv && (hs[0], srv) in k.channels &&
                rec == Describable(d).rec.(handle := rec.handle) && (r == 2 ==> hs[1] == rec.handle)
      ensures old(k.closed) <= k.closed && MintedSince(k.closed[|old(k.closed)|..], old(k.next))
    {
      var info, ch;
      r, info, ch, srv := GetObject(k, h, ZXRIO_CLONE, Some([]), ZX_FS_FLAG_DESCRIBE, 0, cs, ws, d);
      rec := info;
      if r < 0 {
        return r, [], srv, rec;
      }
      hs := [ch];
      if info.handle != HANDLE_INVALID {
        hs := hs + [info.handle];
      }
      r := |hs|;
    }
  }
}
