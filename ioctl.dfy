/** The parts of zxrio_ioctl that do not touch the channel: the argument
    checks, the request it builds, and how the reply's handles are laid out
    at the start of the caller's output buffer. */
module IoctlLayout {
  import opened Wire

  /** How many handle words a GET kind returns at the start of the output. */
  function GetSlots(op: nat): (n: nat)
    ensures n <= 3
  {
    var kind := IoctlKind(op);
    if kind == IOCTL_KIND_GET_HANDLE then 1
    else if kind == IOCTL_KIND_GET_TWO_HANDLES then 2
    else if kind == IOCTL_KIND_GET_THREE_HANDLES then 3
    else 0
  }

  /** How many handle words a SET kind takes from the start of the input. */
  function SetSlots(op: nat): (n: nat)
    ensures n <= 2
  {
    var kind := IoctlKind(op);
    if kind == IOCTL_KIND_SET_HANDLE then 1
    else if kind == IOCTL_KIND_SET_TWO_HANDLES then 2
    else 0
  }

  /** The checks that make zxrio_ioctl return ZX_ERR_INVALID_ARGS before
      anything is sent: an input over FDIO_IOCTL_MAX_INPUT, an output over
      FDIO_CHUNK_SIZE, or a buffer too small for the handles of its kind. */
  predicate BadIoctlArgs(op: nat, inLen: nat, outLen: nat)
  {
    inLen > FDIO_IOCTL_MAX_INPUT || outLen > FDIO_CHUNK_SIZE ||
    outLen < HANDLE_SZ * GetSlots(op) || inLen < HANDLE_SZ * SetSlots(op)
  }

  /** The handles a SET kind passes on, read from the input buffer's leading
      words; none when the request is refused. */
  function InHandles(op: nat, input: seq<byte>, outLen: nat): (hs: seq<Handle>)
    ensures !BadIoctlArgs(op, |input|, outLen) ==> |hs| == SetSlots(op)
    ensures BadIoctlArgs(op, |input|, outLen) ==> hs == []
  {
    if BadIoctlArgs(op, |input|, outLen) then []
    else if SetSlots(op) == 1 then [ReadLe32(input, 0)]
    else if SetSlots(op) == 2 then [ReadLe32(input, 0), ReadLe32(input, 4)]
    else []
  }

  /** The request: the whole input as payload, the output size in `arg`,
      the ioctl op in `arg2`, and the SET kind's handles. */
  function IoctlRequest(op: nat, input: seq<byte>, outLen: nat): (m: Msg)
    requires !BadIoctlArgs(op, |input|, outLen)
    ensures IsMessageValid(m) && Live(m) == InHandles(op, input, outLen)
    ensures m.data == input && m.datalen == |input| && m.arg == outLen && m.arg2 == op
    ensures ZxrioOp(m.op) == ZXRIO_IOCTL
  {
    var hs := InHandles(op, input, outLen);
    var code := if SetSlots(op) == 1 then ZXRIO_IOCTL_1H
                else if SetSlots(op) == 2 then ZXRIO_IOCTL_2H
                else ZXRIO_IOCTL;
    Msg(0, code, outLen, op, |input|, |hs|, hs, input)
  }

  /** The handle area of a GET kind: the handles it took, then zero words
      for the slots the reply left empty. */
  function SlotBytes(got: seq<Handle>, slots: nat): (b: seq<byte>)
    requires |got| <= slots
    ensures |b| == HANDLE_SZ * slots
  {
    Words(got) + Zeros(HANDLE_SZ * (slots - |got|))
  }

  /** The output buffer after a successful ioctl: the payload (already cut
      to the output size) copied to its start, then the handle area over
      its first words. */
  function IoctlOut(prior: seq<byte>, data: seq<byte>, got: seq<Handle>, slots: nat): seq<byte>
    requires |got| <= slots && HANDLE_SZ * slots <= |prior| && |data| <= |prior|
  {
    Overlay(Overlay(prior, 0, data), 0, SlotBytes(got, slots))
  }

  /** What the caller finds in the output: word `i` holds the i-th handle
      taken, the remaining slots are zero (ZX_HANDLE_INVALID), the payload
      follows the handle area, and the buffer past both is as it was. */
  lemma IoctlOutMeaning(prior: seq<byte>, data: seq<byte>, got: seq<Handle>, slots: nat)
    requires |got| <= slots && HANDLE_SZ * slots <= |prior| && |data| <= |prior|
    ensures |IoctlOut(prior, data, got, slots)| == |prior|
    ensures forall i :: 0 <= i < |got| ==> WordAt(IoctlOut(prior, data, got, slots), i) == Le32(got[i])
    ensures forall i :: |got| <= i < slots ==> WordAt(IoctlOut(prior, data, got, slots), i) == Zeros(4)
    ensures forall j :: HANDLE_SZ * slots <= j < |data| ==> IoctlOut(prior, data, got, slots)[j] == data[j]
    ensures forall j :: HANDLE_SZ * slots <= j < |prior| && |data| <= j ==>
              IoctlOut(prior, data, got, slots)[j] == prior[j]
  {
    var b := IoctlOut(prior, data, got, slots);
    var area := SlotBytes(got, slots);
    assert b[..HANDLE_SZ * slots] == area;
    forall i | 0 <= i < |got|
      ensures WordAt(b, i) == Le32(got[i])
    {
      WordsAt(got, i);
      assert WordAt(b, i) == WordAt(Words(got), i);
    }
    forall i | |got| <= i < slots
      ensures WordAt(b, i) == Zeros(4)
    {
      assert WordAt(b, i) == area[4 * i..4 * i + 4];
    }
  }

  /** The handle area as zxrio_ioctl fills it for the GET_TWO and GET_THREE
      kinds: the handles taken are copied to the start, and the zero words
      for the empty slots are then also written at the start. */
  function IoctlOutAsWritten(prior: seq<byte>, data: seq<byte>, got: seq<Handle>, slots: nat): seq<byte>
    requires |got| <= slots && HANDLE_SZ * slots <= |prior| && |data| <= |prior|
  {
    var withData := Overlay(prior, 0, data);
    Overlay(Overlay(withData, 0, Words(got)), 0, Zeros(HANDLE_SZ * (slots - |got|)))
  }

  /** A GET_TWO_HANDLES reply with one handle (value 7) and no payload: as
      written, the zero fill lands on word 0 and wipes the handle out of the
      output, although it stays open in the process; the intended layout
      keeps it in word 0 and zeroes word 1. */
  lemma {:induction false} LostHandleAsWritten()
    ensures WordAt(IoctlOutAsWritten(Zeros(8), [], [7], 2), 0) == Zeros(4)
    ensures WordAt(IoctlOut(Zeros(8), [], [7], 2), 0) == Le32(7) != Zeros(4)
    ensures WordAt(IoctlOut(Zeros(8), [], [7], 2), 1) == Zeros(4)
  {
    var w := IoctlOutAsWritten(Zeros(8), [], [7], 2);
    assert w[..4] == Zeros(4);
    IoctlOutMeaning(Zeros(8), [], [7], 2);
    assert Le32(7)[0] == 7;
  }
}
