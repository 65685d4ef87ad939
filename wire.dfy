/** The RIO wire message: its fixed header, inline handle slots and payload,
    the protocol constants, and the two validators that every message goes
    through before any other field is trusted. */
module Wire {

  type byte = x: int | 0 <= x < 256

  /** A handle value; 0 is ZX_HANDLE_INVALID. */
  type Handle = nat

  const HANDLE_INVALID: Handle := 0

  // ---- status codes ----
  const ZX_OK: int := 0
  const ZX_ERR_INTERNAL: int := -1
  const ZX_ERR_NOT_SUPPORTED: int := -2
  const ZX_ERR_NO_RESOURCES: int := -3
  const ZX_ERR_CALL_FAILED: int := -5
  const ZX_ERR_INVALID_ARGS: int := -10
  const ZX_ERR_WRONG_TYPE: int := -12
  const ZX_ERR_BUFFER_TOO_SMALL: int := -15
  const ZX_ERR_PEER_CLOSED: int := -24
  const ZX_ERR_UNAVAILABLE: int := -28
  const ZX_ERR_IO: int := -40
  const ZX_ERR_BAD_PATH: int := -50

  /** Server dispatch sentinels (ZX_ERR_STOP, ZX_ERR_NEXT, ZX_ERR_ASYNC). */
  const ERR_DISPATCHER_DONE: int := -1096
  const ERR_DISPATCHER_INDIRECT: int := -1097
  const ERR_DISPATCHER_ASYNC: int := -1098

  /** A status the transport reports for a failed operation. */
  type ErrStatus = x: int | x < 0 witness -1

  /** The result of a channel create or write: ZX_OK or an error. */
  type SysStatus = x: int | x <= 0

  // ---- sizes ----
  const FDIO_CHUNK_SIZE: nat := 8192
  const FDIO_MAX_HANDLES: nat := 3
  const FDIO_IOCTL_MAX_INPUT: nat := 1024
  const ZXRIO_HDR_SZ: nat := 48
  /** The header's handle array. Its 16 bytes follow 32 bytes of fields
      (txid, op, datalen and arg of 4 bytes each, the 8-byte arg2, reserved
      and hcount), which makes ZXRIO_HDR_SZ. A message carries at most
      FDIO_MAX_HANDLES handles, so the last slot never holds a received one. */
  const ZXRIO_HANDLE_SLOTS: nat := 4
  const ZXRIO_DESCRIBE_SZ: nat := 32
  const HANDLE_SZ: nat := 4
  const PATH_MAX: nat := 4096
  const TXID_MOD: nat := 0x1_0000_0000

  // ---- operation codes ----
  const ZXRIO_ONE_HANDLE: nat := 0x1_0000
  const ZXRIO_TWO_HANDLES: nat := 0x2_0000
  const ZXRIO_STATUS: nat := 0x00
  const ZXRIO_CLOSE: nat := 0x01
  const ZXRIO_CLONE: nat := 0x02 + ZXRIO_ONE_HANDLE
  const ZXRIO_OPEN: nat := 0x03 + ZXRIO_ONE_HANDLE
  const ZXRIO_READ: nat := 0x05
  const ZXRIO_WRITE: nat := 0x06
  const ZXRIO_SEEK: nat := 0x07
  const ZXRIO_IOCTL: nat := 0x0a
  const ZXRIO_IOCTL_1H: nat := 0x0a + ZXRIO_ONE_HANDLE
  const ZXRIO_IOCTL_2H: nat := 0x0a + ZXRIO_TWO_HANDLES
  const ZXRIO_READ_AT: nat := 0x0c
  const ZXRIO_WRITE_AT: nat := 0x0d
  const ZXRIO_RENAME: nat := 0x0f + ZXRIO_ONE_HANDLE
  const ZXRIO_LINK: nat := 0x1a + ZXRIO_ONE_HANDLE
  const ZXRIO_MMAP: nat := 0x1b
  const ZXRIO_FCNTL: nat := 0x1c
  const ZXRIO_ON_OPEN: nat := 0x1d

  /** ZXRIO_OP: the operation with its handle-count flag bits masked off. */
  function ZxrioOp(op: nat): nat { op % 0x4000 }

  // ---- ioctl kinds (bits 20..23 of an ioctl op) ----
  const IOCTL_KIND_DEFAULT: nat := 0
  const IOCTL_KIND_GET_HANDLE: nat := 1
  const IOCTL_KIND_GET_TWO_HANDLES: nat := 2
  const IOCTL_KIND_SET_HANDLE: nat := 3
  const IOCTL_KIND_GET_THREE_HANDLES: nat := 4
  const IOCTL_KIND_SET_TWO_HANDLES: nat := 5

  function IoctlKind(op: nat): nat { (op / 0x10_0000) % 16 }

  // ---- object protocols (the type tag of a describe record) ----
  const FDIO_PROTOCOL_SERVICE: nat := 0
  const FDIO_PROTOCOL_REMOTE: nat := 1
  const FDIO_PROTOCOL_PIPE: nat := 2
  const FDIO_PROTOCOL_VMOFILE: nat := 3
  const FDIO_PROTOCOL_SOCKET: nat := 4
  const FDIO_PROTOCOL_SOCKET_CONNECTED: nat := 5

  // ---- open rights ----
  const ZX_FS_RIGHT_READABLE: nat := 0x1
  const ZX_FS_RIGHT_WRITABLE: nat := 0x2
  /** The mode the service helpers open with (0755). */
  const SERVICE_MODE: nat := 0x1ed

  /** Open flag asking the server for a describe record. */
  const ZX_FS_FLAG_DESCRIBE: nat := 0x0080_0000

  predicate HasDescribeFlag(flags: nat) { (flags / ZX_FS_FLAG_DESCRIBE) % 2 == 1 }

  /** One message: header words, the inline handle slots (of which the first
      `hcount` are live) and the payload buffer (of which `datalen` bytes are
      claimed). `arg2` is the offset/mode/sub-opcode union, held as the offset. */
  datatype Msg = Msg(txid: nat, op: nat, arg: int, arg2: int, datalen: nat,
                     hcount: nat, handle: seq<Handle>, data: seq<byte>)

  /** The offset and length a VMO-file describe record carries. */
  datatype VmoRange = VmoRange(offset: nat, length: nat)

  /** zxrio_describe_t: the record a describe-open replies with. */
  datatype Describe = Describe(op: nat, status: int, typ: nat, extra: VmoRange, handle: Handle)

  /** A request with a zeroed header (memset of the header in the source). */
  function Request(op: nat): (m: Msg)
    ensures m.op == op && m.hcount == 0 && m.datalen == 0 && m.arg == 0 && m.arg2 == 0
  {
    Msg(0, op, 0, 0, 0, 0, [], [])
  }

  /** The handle slots a message actually carries. */
  function Live(m: Msg): (hs: seq<Handle>)
    ensures |hs| <= m.hcount && |hs| <= |m.handle|
    ensures m.hcount <= |m.handle| ==> |hs| == m.hcount
  {
    if m.hcount <= |m.handle| then m.handle[..m.hcount] else m.handle
  }

  /** `arg2.mode`: the low 32 bits of the union. */
  function Mode(m: Msg): nat { m.arg2 % 0x1_0000_0000 }

  /** is_message_valid: payload and handle count within the protocol limits. */
  predicate IsMessageValid(m: Msg)
  {
    m.datalen <= FDIO_CHUNK_SIZE && m.hcount <= FDIO_MAX_HANDLES
  }

  /** is_message_reply_valid: a message of `size` bytes received off the wire is
      valid when it holds a whole header, its claimed payload length is exactly
      the bytes that followed the header, and it is valid as a message. */
  predicate IsMessageReplyValid(m: Msg, size: nat)
  {
    size >= ZXRIO_HDR_SZ && m.datalen == size - ZXRIO_HDR_SZ && IsMessageValid(m)
  }

  /** A reply accepted by the validator fits the receive buffer, and its
      claimed payload is exactly the bytes received after the header. */
  lemma ReplyValidBounds(m: Msg, size: nat)
    requires IsMessageReplyValid(m, size)
    ensures ZXRIO_HDR_SZ <= size <= ZXRIO_HDR_SZ + FDIO_CHUNK_SIZE
    ensures m.datalen + ZXRIO_HDR_SZ == size
    ensures m.hcount <= FDIO_MAX_HANDLES
  {
  }

  // ---- small sequence helpers ----

  datatype Option<T> = None | Some(value: T)

  predicate Distinct(hs: seq<Handle>)
  {
    forall i, j :: 0 <= i < j < |hs| ==> hs[i] != hs[j]
  }

  function Min(a: nat, b: nat): nat { if a < b then a else b }

  /** A little-endian 32-bit word, as a handle or mode is laid out in a buffer. */
  function Le32(x: nat): (b: seq<byte>)
    ensures |b| == 4
  {
    var v := x % 0x1_0000_0000;
    [v % 256, (v / 256) % 256, (v / 0x1_0000) % 256, (v / 0x100_0000) % 256]
  }

  /** Reads the little-endian 32-bit word at byte offset `at`. */
  function ReadLe32(b: seq<byte>, at: nat): nat
    requires at + 4 <= |b|
  {
    var b0: int, b1: int, b2: int, b3: int := b[at], b[at + 1], b[at + 2], b[at + 3];
    b0 + 256 * b1 + 0x1_0000 * b2 + 0x100_0000 * b3
  }

  /** Decoding a word that was encoded gives back the value modulo 2^32. */
  lemma ReadLe32Le32(x: nat)
    ensures ReadLe32(Le32(x), 0) == x % 0x1_0000_0000
  {
    var v := x % 0x1_0000_0000;
    var q1, q2, q3 := v / 256, v / 0x1_0000, v / 0x100_0000;
    assert q1 / 256 == q2 && q2 / 256 == q3 && q3 < 256;
    assert v == v % 256 + 256 * (q1 % 256 + 256 * (q2 % 256 + 256 * q3));
  }

  /** The four bytes of word `i` of a buffer (bytes 4i to 4i+3). */
  function WordAt(b: seq<byte>, i: nat): seq<byte>
    requires 4 * i + 4 <= |b|
  {
    b[4 * i..4 * i + 4]
  }

  /** Handles laid out back to back as little-endian words, as memcpy puts
      an array of zx_handle_t into a byte buffer. */
  function Words(hs: seq<Handle>): (b: seq<byte>)
    ensures |b| == 4 * |hs|
  {
    if hs == [] then [] else Le32(hs[0]) + Words(hs[1..])
  }

  /** Word `i` of the layout is handle `i`. */
  lemma {:induction false} WordsAt(hs: seq<Handle>, i: nat)
    requires i < |hs|
    ensures WordAt(Words(hs), i) == Le32(hs[i])
  {
    var w := Words(hs);
    assert w == Le32(hs[0]) + Words(hs[1..]);
    if i > 0 {
      WordsAt(hs[1..], i - 1);
      assert w[4 * i..4 * i + 4] == Words(hs[1..])[4 * (i - 1)..4 * (i - 1) + 4];
    }
  }

  /** `b` with `x` written over it from byte `at` on (a memcpy or memset). */
  function Overlay(b: seq<byte>, at: nat, x: seq<byte>): (c: seq<byte>)
    requires at + |x| <= |b|
    ensures |c| == |b|
    ensures forall j :: 0 <= j < at ==> c[j] == b[j]
    ensures forall j :: 0 <= j < |x| ==> c[at + j] == x[j]
    ensures forall j :: at + |x| <= j < |b| ==> c[j] == b[j]
  {
    b[..at] + x + b[at + |x|..]
  }

  function Zeros(n: nat): (z: seq<byte>)
    ensures |z| == n && forall i :: 0 <= i < n ==> z[i] == 0
  {
    seq(n, _ => 0)
  }
}
