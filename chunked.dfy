/** The chunked transfer loops of write_common and read_common, stated as a
    trace: the rounds the loop goes through given what each transaction runs
    into, and the count, status and bytes it ends with. */
module Chunked {
  import opened Wire
  import opened Transport
  import opened Exchange

  /** One round of the loop: the bytes already moved before it (`done`), the
      chunk it asked for, the status it ended with, and (for a read) the
      bytes it copied out. */
  datatype Step = Step(done: nat, xfer: nat, r: int, bytes: seq<byte>)

  /** The size of the next chunk when `len` bytes remain. */
  function Xfer(len: nat): (x: nat)
    ensures x <= FDIO_CHUNK_SIZE && x <= len
    ensures x == len || x == FDIO_CHUNK_SIZE
    ensures len > 0 ==> x > 0
  {
    if len > FDIO_CHUNK_SIZE then FDIO_CHUNK_SIZE else len
  }

  /** What the i-th transaction of the loop runs into; once the supplied
      outcomes run out the far end has gone. */
  function Nth(outs: seq<CallOutcome>, i: nat): CallOutcome
  {
    if i < |outs| then outs[i] else WriteFailed(ZX_ERR_PEER_CLOSED)
  }

  /** The status of one round: the transaction's status, unless the peer
      claims more than was asked for (or, for a read, more than it sent). */
  function ChunkStatus(isRead: bool, xfer: nat, o: CallOutcome): (r: int)
    ensures TxnStatus(o) < 0 ==> r == TxnStatus(o)
    ensures TxnStatus(o) > xfer ==> r == ZX_ERR_IO
    ensures isRead && TxnStatus(o) >= 0 && TxnStatus(o) > ReplyOf(o).datalen ==> r == ZX_ERR_IO
    ensures r >= 0 ==> r == TxnStatus(o) && r <= xfer
    ensures r >= 0 && isRead ==> r <= |ReplyOf(o).data|
    ensures r < 0 ==> r == TxnStatus(o) || r == ZX_ERR_IO
  {
    var t := TxnStatus(o);
    if t < 0 then t
    else if (isRead && t > ReplyOf(o).datalen) || t > xfer then ZX_ERR_IO
    else t
  }

  /** The rounds the loop goes through with `len` bytes left after `done`,
      the next transaction being the i-th. */
  function Steps(isRead: bool, len: nat, done: nat, outs: seq<CallOutcome>, i: nat): seq<Step>
    decreases len
  {
    if len == 0 then []
    else
      var xfer := Xfer(len);
      var o := Nth(outs, i);
      var r := ChunkStatus(isRead, xfer, o);
      var bytes := if isRead && r >= 0 then ReplyOf(o).data[..r] else [];
      var s := Step(done, xfer, r, bytes);
      if r < xfer then [s]
      else [s] + Steps(isRead, len - xfer, done + xfer, outs, i + 1)
  }

  function Last(t: seq<Step>): Step
    requires t != []
  {
    t[|t| - 1]
  }

  /** The bytes the rounds moved (the loop's `count`). */
  function Moved(t: seq<Step>): nat
  {
    if t == [] then 0
    else (if t[0].r > 0 then t[0].r else 0) + Moved(t[1..])
  }

  /** The bytes the rounds copied out, in order. */
  function Data(t: seq<Step>): seq<byte>
  {
    if t == [] then [] else t[0].bytes + Data(t[1..])
  }

  /** What the loop returns: the count if it is not zero, otherwise the
      status of the last round (zero when there was none). */
  function Result(t: seq<Step>): int
  {
    var c := Moved(t);
    if c != 0 then c else if t == [] then 0 else Last(t).r
  }

  lemma {:induction false} MovedAppend(a: seq<Step>, b: seq<Step>)
    ensures Moved(a + b) == Moved(a) + Moved(b)
    ensures Data(a + b) == Data(a) + Data(b)
    decreases |a|
  {
    if a != [] {
      assert (a + b)[1..] == a[1..] + b;
      MovedAppend(a[1..], b);
    } else {
      assert a + b == b;
    }
  }

  /** One unfolding of Steps: the first round, then either the end or the
      rounds after it. */
  lemma StepsCons(isRead: bool, len: nat, done: nat, outs: seq<CallOutcome>, i: nat)
    requires len > 0
    ensures var t := Steps(isRead, len, done, outs, i);
      var xfer := Xfer(len);
      && t != []
      && t[0].done == done && t[0].xfer == xfer
      && t[0].r == ChunkStatus(isRead, xfer, Nth(outs, i))
      && t[0].bytes == (if isRead && t[0].r >= 0 then ReplyOf(Nth(outs, i)).data[..t[0].r] else [])
      && (t[0].r < xfer ==> t == [t[0]])
      && (t[0].r >= xfer ==>
            t[0].r == xfer && t == [t[0]] + Steps(isRead, len - xfer, done + xfer, outs, i + 1))
  {
  }

  /** The loop's bookkeeping for one round: the rounds still ahead start
      with `s`, which joins those behind; either it ends the loop or the rest
      follow from where it stopped. */
  lemma Advance(isRead: bool, len: nat, done: nat, outs: seq<CallOutcome>, i: nat,
                T: seq<Step>, acc: seq<Step>) returns (s: Step)
    requires len > 0 && T == acc + Steps(isRead, len, done, outs, i)
    ensures s.done == done && s.xfer == Xfer(len)
    ensures s.r == ChunkStatus(isRead, Xfer(len), Nth(outs, i))
    ensures s.bytes == (if isRead && s.r >= 0 then ReplyOf(Nth(outs, i)).data[..s.r] else [])
    ensures Last(acc + [s]) == s
    ensures Moved(acc + [s]) == Moved(acc) + (if s.r > 0 then s.r else 0)
    ensures Data(acc + [s]) == Data(acc) + s.bytes
    ensures s.r < s.xfer ==> T == acc + [s]
    ensures s.r >= s.xfer ==>
              s.r == s.xfer && T == (acc + [s]) + Steps(isRead, len - s.xfer, done + s.xfer, outs, i + 1)
  {
    StepsCons(isRead, len, done, outs, i);
    var t := Steps(isRead, len, done, outs, i);
    s := t[0];
    MovedAppend(acc, [s]);
    MovedSingle(s);
    if s.r >= s.xfer {
      assert (acc + [s]) + Steps(isRead, len - s.xfer, done + s.xfer, outs, i + 1) == acc + t;
    }
  }

  /** Each of the rounds `t`, over the `len` bytes after `done`, starts
      inside that range and asks for the smaller of what remains and one
      chunk, and never moves more than it asked for. */
  ghost predicate Sized(t: seq<Step>, done: nat, len: nat)
  {
    forall j :: 0 <= j < |t| ==>
      && done <= t[j].done < done + len
      && t[j].xfer == Xfer(done + len - t[j].done)
      && t[j].r <= t[j].xfer
  }

  lemma SizedCons(s: Step, t: seq<Step>, done: nat, len: nat)
    requires s.xfer <= len && Sized(t, done + s.xfer, len - s.xfer)
    requires s.done == done && len > 0 && s.xfer == Xfer(len) && s.r <= s.xfer
    ensures Sized([s] + t, done, len)
  {
    var t2 := [s] + t;
    forall j | 0 <= j < |t2|
      ensures done <= t2[j].done < done + len
      ensures t2[j].xfer == Xfer(done + len - t2[j].done) && t2[j].r <= t2[j].xfer
    {
      if j > 0 {
        assert t2[j] == t[j - 1];
      }
    }
  }

  /** Each round asks for the smaller of what remains and one chunk. */
  lemma {:induction false} StepsXfer(isRead: bool, len: nat, done: nat, outs: seq<CallOutcome>, i: nat)
    ensures var t := Steps(isRead, len, done, outs, i);
      (t == [] <==> len == 0) && Sized(t, done, len)
    decreases len
  {
    var t := Steps(isRead, len, done, outs, i);
    if len > 0 {
      StepsCons(isRead, len, done, outs, i);
      var xfer := Xfer(len);
      var s := t[0];
      if s.r >= xfer {
        var t' := Steps(isRead, len - xfer, done + xfer, outs, i + 1);
        StepsXfer(isRead, len - xfer, done + xfer, outs, i + 1);
        SizedCons(s, t', done, len);
      } else {
        SizedCons(s, [], done, len);
      }
    }
  }

  /** Each of the rounds `t` carries the status of its own transaction (the
      first being the i-th), and a read round copies out as many bytes as its
      status says. */
  ghost predicate Statused(isRead: bool, t: seq<Step>, outs: seq<CallOutcome>, i: nat)
  {
    forall j :: 0 <= j < |t| ==>
      && t[j].r == ChunkStatus(isRead, t[j].xfer, Nth(outs, i + j))
      && |t[j].bytes| == (if isRead && t[j].r >= 0 then t[j].r else 0)
  }

  lemma StatusedCons(isRead: bool, s: Step, t: seq<Step>, outs: seq<CallOutcome>, i: nat)
    requires Statused(isRead, t, outs, i + 1) && Statused(isRead, [s], outs, i)
    ensures Statused(isRead, [s] + t, outs, i)
  {
    var t2 := [s] + t;
    forall j | 0 <= j < |t2|
      ensures t2[j].r == ChunkStatus(isRead, t2[j].xfer, Nth(outs, i + j))
      ensures |t2[j].bytes| == (if isRead && t2[j].r >= 0 then t2[j].r else 0)
    {
      if j > 0 {
        assert t2[j] == t[j - 1] && i + j == (i + 1) + (j - 1);
      } else {
        assert t2[0] == [s][0];
      }
    }
  }

  /** Each round carries the status of its own transaction, and a read
      round copies out as many bytes as its status says. */
  lemma {:induction false} StepsStatus(isRead: bool, len: nat, done: nat, outs: seq<CallOutcome>, i: nat)
    ensures Statused(isRead, Steps(isRead, len, done, outs, i), outs, i)
    decreases len
  {
    var t := Steps(isRead, len, done, outs, i);
    if len > 0 {
      StepsCons(isRead, len, done, outs, i);
      var xfer := Xfer(len);
      var s := t[0];
      assert Statused(isRead, [s], outs, i);
      if s.r >= xfer {
        var t' := Steps(isRead, len - xfer, done + xfer, outs, i + 1);
        StepsStatus(isRead, len - xfer, done + xfer, outs, i + 1);
        StatusedCons(isRead, s, t', outs, i);
      } else {
        assert t == [s];
      }
    }
  }

  /** Every round but the last moved its whole chunk, and the next round
      starts exactly that many bytes further on. */
  ghost predicate Chained(t: seq<Step>)
  {
    forall j :: 0 <= j < |t| - 1 ==> t[j].r == t[j].xfer && t[j + 1].done == t[j].done + t[j].r
  }

  lemma ChainedCons(s: Step, t: seq<Step>)
    requires Chained(t) && (t != [] ==> s.r == s.xfer && t[0].done == s.done + s.r)
    ensures Chained([s] + t)
  {
    var t2 := [s] + t;
    forall j | 0 <= j < |t2| - 1
      ensures t2[j].r == t2[j].xfer && t2[j + 1].done == t2[j].done + t2[j].r
    {
      assert t2[j + 1] == t[j];
      if j > 0 {
        assert t2[j] == t[j - 1];
      }
    }
  }

  /** The rounds of the loop are chained. */
  lemma {:induction false} StepsChain(isRead: bool, len: nat, done: nat, outs: seq<CallOutcome>, i: nat)
    ensures Chained(Steps(isRead, len, done, outs, i))
    decreases len
  {
    var t := Steps(isRead, len, done, outs, i);
    if len > 0 {
      StepsCons(isRead, len, done, outs, i);
      var xfer := Xfer(len);
      var s := t[0];
      if s.r >= xfer {
        var t' := Steps(isRead, len - xfer, done + xfer, outs, i + 1);
        StepsChain(isRead, len - xfer, done + xfer, outs, i + 1);
        if t' != [] {
          StepsCons(isRead, len - xfer, done + xfer, outs, i + 1);
        }
        ChainedCons(s, t');
      } else {
        ChainedCons(s, []);
        assert t == [s] + [];
      }
    }
  }

  /** The loop ends only at a short or failed round, or when nothing
      remains. */
  lemma {:induction false} StepsEnd(isRead: bool, len: nat, done: nat, outs: seq<CallOutcome>, i: nat)
    ensures var t := Steps(isRead, len, done, outs, i);
      t != [] ==> Last(t).r < Last(t).xfer || Last(t).done + Last(t).xfer == done + len
    decreases len
  {
    if len > 0 {
      StepsCons(isRead, len, done, outs, i);
      var xfer := Xfer(len);
      var t := Steps(isRead, len, done, outs, i);
      var s := t[0];
      if s.r >= xfer {
        var t' := Steps(isRead, len - xfer, done + xfer, outs, i + 1);
        assert t == [s] + t';
        if len > xfer {
          StepsCons(isRead, len - xfer, done + xfer, outs, i + 1);
          StepsEnd(isRead, len - xfer, done + xfer, outs, i + 1);
          assert Last(t) == Last(t');
        } else {
          assert t == [s];
        }
      } else {
        assert t == [s];
      }
    }
  }


  /** Along chained rounds the count runs up to the end of the last one. */
  lemma {:induction false} ChainedMoved(t: seq<Step>)
    requires t != [] && Chained(t)
    ensures Moved(t) + t[0].done == Last(t).done + (if Last(t).r > 0 then Last(t).r else 0)
    decreases |t|
  {
    var t' := t[1..];
    if t' != [] {
      assert Chained(t') by {
        forall j | 0 <= j < |t'| - 1
          ensures t'[j].r == t'[j].xfer && t'[j + 1].done == t'[j].done + t'[j].r
        {
          assert t'[j] == t[j + 1] && t'[j + 1] == t[j + 2];
        }
      }
      ChainedMoved(t');
      assert Last(t') == Last(t) && t'[0] == t[1];
    }
  }

  /** The count runs up to the end of the last round. */
  lemma MovedUpTo(isRead: bool, len: nat, done: nat, outs: seq<CallOutcome>, i: nat)
    ensures var t := Steps(isRead, len, done, outs, i);
      t != [] ==> Moved(t) + done == Last(t).done + (if Last(t).r > 0 then Last(t).r else 0)
  {
    var t := Steps(isRead, len, done, outs, i);
    if t != [] {
      StepsCons(isRead, len, done, outs, i);
      StepsChain(isRead, len, done, outs, i);
      ChainedMoved(t);
    }
  }

  /** A read copies out exactly as many bytes as it counts. */
  lemma {:induction false} DataLength(len: nat, done: nat, outs: seq<CallOutcome>, i: nat)
    ensures var t := Steps(true, len, done, outs, i);
      |Data(t)| == Moved(t)
    decreases len
  {
    if len > 0 {
      StepsCons(true, len, done, outs, i);
      var xfer := Xfer(len);
      var t := Steps(true, len, done, outs, i);
      var s := t[0];
      MovedSingle(s);
      if s.r >= xfer {
        var t' := Steps(true, len - xfer, done + xfer, outs, i + 1);
        DataLength(len - xfer, done + xfer, outs, i + 1);
        MovedAppend([s], t');
      }
    }
  }

  /** The count never exceeds what was asked for. */
  lemma MovedBound(isRead: bool, len: nat, done: nat, outs: seq<CallOutcome>, i: nat)
    ensures Moved(Steps(isRead, len, done, outs, i)) <= len
  {
    var t := Steps(isRead, len, done, outs, i);
    MovedUpTo(isRead, len, done, outs, i);
    StepsXfer(isRead, len, done, outs, i);
    if t != [] {
      assert Last(t) == t[|t| - 1];
    }
  }

  /** Rounds start further on as the loop goes. */
  lemma {:induction false} MonotoneDone(t: seq<Step>)
    requires |t| > 1 && Chained(t)
    ensures Last(t).done >= t[1].done
    decreases |t|
  {
    if |t| > 2 {
      MonotoneDone(t[..|t| - 1]);
      assert t[|t| - 1].done == t[|t| - 2].done + t[|t| - 2].r;
    }
  }

  /** The loop reports an error only when no byte moved, and then it is the
      status of the very first round; otherwise it reports the count. */
  lemma ResultMeaning(isRead: bool, len: nat, outs: seq<CallOutcome>)
    ensures var t := Steps(isRead, len, 0, outs, 0);
      && (Result(t) >= 0 ==> Result(t) == Moved(t) && Result(t) <= len)
      && (Result(t) < 0 ==> Moved(t) == 0 && |t| == 1 && Result(t) == t[0].r)
  {
    var t := Steps(isRead, len, 0, outs, 0);
    StepsXfer(isRead, len, 0, outs, 0);
    StepsChain(isRead, len, 0, outs, 0);
    MovedUpTo(isRead, len, 0, outs, 0);
    MovedBound(isRead, len, 0, outs, 0);
    if |t| > 1 {
      MonotoneDone(t);
      assert t[1].done == t[0].xfer > 0;
    }
  }

  /** One full chunk fewer leaves one transaction fewer. */
  lemma CeilStep(len: nat)
    requires len > 0
    ensures (len + FDIO_CHUNK_SIZE - 1) / FDIO_CHUNK_SIZE
              == 1 + (len - Xfer(len) + FDIO_CHUNK_SIZE - 1) / FDIO_CHUNK_SIZE
  {
    if len > FDIO_CHUNK_SIZE {
      var m := len - FDIO_CHUNK_SIZE + FDIO_CHUNK_SIZE - 1;
      assert len + FDIO_CHUNK_SIZE - 1 == m + FDIO_CHUNK_SIZE;
    }
  }

  lemma MovedSingle(s: Step)
    ensures Moved([s]) == (if s.r > 0 then s.r else 0) && Data([s]) == s.bytes
  {
    assert [s][1..] == [];
  }

  /** When no round comes up short, the loop makes ceil(len / FDIO_CHUNK_SIZE)
      transactions and moves every byte. */
  lemma {:induction false} FullRounds(isRead: bool, len: nat, done: nat, outs: seq<CallOutcome>, i: nat)
    requires var t := Steps(isRead, len, done, outs, i);
      forall j :: 0 <= j < |t| ==> t[j].r == t[j].xfer
    ensures var t := Steps(isRead, len, done, outs, i);
      Moved(t) == len && |t| == (len + FDIO_CHUNK_SIZE - 1) / FDIO_CHUNK_SIZE
    decreases len
  {
    if len > 0 {
      StepsCons(isRead, len, done, outs, i);
      var xfer := Xfer(len);
      var t := Steps(isRead, len, done, outs, i);
      var s := t[0];
      assert s.r == xfer;
      var t' := Steps(isRead, len - xfer, done + xfer, outs, i + 1);
      assert t == [s] + t';
      forall j | 0 <= j < |t'|
        ensures t'[j].r == t'[j].xfer
      {
        assert t'[j] == t[j + 1];
      }
      FullRounds(isRead, len - xfer, done + xfer, outs, i + 1);
      MovedAppend([s], t');
      MovedSingle(s);
      CeilStep(len);
      assert Moved(t) == xfer + Moved(t');
      assert |t| == 1 + |t'|;
    }
  }
}
