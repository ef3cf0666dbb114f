/**
  WebSocket frames of `3rdparty/crow/websocket.h` (RFC 6455, section 5): how they look on the wire, what
  the reader makes of the octets of one read, and what a stream of frames amounts to.
 */
module WebSocketSpec {
  import opened Wrappers
  import opened Bytes

  type uint64 = n: int | 0 <= n < 0x1_0000_0000_0000_0000 witness 0

  // ---------------------------------------------------------------- octets

  /** Exclusive or of the lowest `bits` bits. */
  function XorBits(a: nat, b: nat, bits: nat): nat {
    if bits == 0 then 0 else 2 * XorBits(a / 2, b / 2, bits - 1) + (a % 2 + b % 2) % 2
  }

  lemma {:induction false} XorTwice(a: nat, b: nat, bits: nat)
    requires a < Power2(bits)
    ensures XorBits(a, b, bits) < Power2(bits) && XorBits(XorBits(a, b, bits), b, bits) == a
  {
    if bits > 0 {
      var x, bit := XorBits(a / 2, b / 2, bits - 1), (a % 2 + b % 2) % 2;
      XorTwice(a / 2, b / 2, bits - 1);
      LowBit(x, bit);
      LowBitTwice(a % 2, b % 2);
    }
  }

  lemma LowBit(x: nat, bit: nat)
    requires bit < 2
    ensures (2 * x + bit) / 2 == x && (2 * x + bit) % 2 == bit
  {
  }

  lemma LowBitTwice(p: nat, q: nat)
    requires p < 2 && q < 2
    ensures ((p + q) % 2 + q) % 2 == p
  {
  }

  function Xor(a: byte, b: byte): byte {
    assert Power2(8) == 256 by {
      assert Power2(4) == 16;
    }
    XorTwice(a, b, 8);
    XorBits(a, b, 8)
  }

  /** A payload masked, or unmasked, octet by octet (section 5.3). */
  function Masked(payload: seq<byte>, mask: seq<byte>): (r: seq<byte>)
    requires |mask| == 4
    ensures |r| == |payload|
  {
    seq(|payload|, i requires 0 <= i < |payload| => Xor(payload[i], mask[i % 4]))
  }

  /** A field in memory, as a machine of either byte order loads and stores it. */
  function Load(b: seq<byte>, little: bool): (n: nat)
    decreases |b|
  {
    if b == [] then 0
    else if little then b[0] + 0x100 * Load(b[1..], little)
    else Load(b[..|b| - 1], little) * 0x100 + b[|b| - 1]
  }

  function Store(n: nat, size: nat, little: bool): (b: seq<byte>)
    ensures |b| == size
  {
    if size == 0 then []
    else if little then [n % 0x100] + Store(n / 0x100, size - 1, little)
    else Store(n / 0x100, size - 1, little) + [n % 0x100]
  }

  /** `htons` and `htonl`, and their inverses: the octets of the number in network order, loaded. */
  function Swap(n: nat, size: nat, little: bool): nat {
    Load(Store(n, size, false), little)
  }

  /** The conversion of a 64-bit length, both when it is written and when it is read. */
  function Swap64(n: nat, little: bool): nat {
    if little then Swap(n % 0x1_0000_0000, 4, little) * 0x1_0000_0000 + Swap(n / 0x1_0000_0000, 4, little) else n
  }

  // ---------------------------------------------------------------- headers, written

  /** `build_header`. */
  function BuildHeader(opcode: nat, size: uint64, little: bool): seq<byte>
    requires opcode < 16
  {
    if size < 126 then [0x80 + opcode, size]
    else if size < 0x1_0000 then [0x80 + opcode, 126] + Store(Swap(size, 2, little), 2, little)
    else [0x80 + opcode, 127] + Store(Swap64(size, little), 8, little)
  }

  // ---------------------------------------------------------------- frames

  /** How the length of a frame is written. */
  datatype Form = SHORT | MEDIUM | LONG

  datatype Frame = Frame(fin: bool, opcode: nat, form: Form, mask: Option<seq<byte>>, payload: seq<byte>)

  predicate IsFrame(f: Frame) {
    && f.opcode < 16 && (f.mask.Some? ==> |f.mask.value| == 4)
    && match f.form
       case SHORT => |f.payload| < 126
       case MEDIUM => |f.payload| < 0x1_0000
       case LONG => |f.payload| < 0x1_0000_0000_0000_0000
  }

  /** The number in network order. */
  function Network(n: nat, size: nat): seq<byte> {
    Store(n, size, false)
  }

  function LengthCode(f: Frame): nat {
    match f.form case SHORT => |f.payload| case MEDIUM => 126 case LONG => 127
  }

  function FrameStart(f: Frame): (b: seq<byte>)
    requires IsFrame(f)
    ensures |b| == 2
  {
    [(if f.fin then 0x80 else 0) + f.opcode, (if f.mask.Some? then 0x80 else 0) + LengthCode(f)]
  }

  function FrameLength(f: Frame): seq<byte> {
    match f.form
    case SHORT => []
    case MEDIUM => Network(|f.payload|, 2)
    case LONG => Network(|f.payload|, 8)
  }

  function FrameMask(f: Frame): seq<byte> {
    match f.mask case None => [] case Some(m) => m
  }

  function FramePayload(f: Frame): (b: seq<byte>)
    requires IsFrame(f)
    ensures |b| == |f.payload|
  {
    match f.mask case None => f.payload case Some(m) => Masked(f.payload, m)
  }

  /** Section 5.2: what precedes the payload, and the payload. */
  function FrameHead(f: Frame): seq<byte>
    requires IsFrame(f)
  {
    FrameStart(f) + FrameLength(f) + FrameMask(f)
  }

  function Wire(f: Frame): (b: seq<byte>)
    requires IsFrame(f)
    ensures |b| >= 2
  {
    FrameHead(f) + FramePayload(f)
  }

  function WireAll(frames: seq<Frame>): seq<byte>
    requires forall f :: f in frames ==> IsFrame(f)
  {
    if frames == [] then [] else WireAll(frames[..|frames| - 1]) + Wire(frames[|frames| - 1])
  }

  // ---------------------------------------------------------------- what the reader does

  datatype ReadState = MINI_HEADER | LEN16 | LEN64 | MASK | PAYLOAD

  datatype Message = Message(payload: seq<byte>, binary: bool)

  /** What the close handler is told, and whether a close frame is sent in answer. */
  datatype Closing = Closing(status: nat, reason: seq<byte>, answered: bool)

  /** What the frames received so far amount to: a message in parts, messages delivered, pings to answer. */
  datatype Inbox = Inbox(partial: seq<byte>, binary: bool, delivered: seq<Message>, pongs: seq<seq<byte>>,
                         sentClose: bool, closed: Option<Closing>)

  const EMPTY_INBOX: Inbox := Inbox([], false, [], [], false, None)

  function Append(inbox: Inbox, payload: seq<byte>, binary: bool, fin: bool): Inbox {
    var whole := inbox.partial + payload;
    if fin then inbox.(partial := [], binary := binary, delivered := inbox.delivered + [Message(whole, binary)])
    else inbox.(partial := whole, binary := binary)
  }

  /** The status that stands for a close frame without one. */
  const NO_STATUS_CODE_PRESENT: nat := 1005

  /** A payload of two octets or more begins with the status, in network order. */
  function ClosingOf(payload: seq<byte>, sentClose: bool): Closing {
    if |payload| >= 2 then Closing(payload[0] as int * 0x100 + payload[1], payload[2..], !sentClose)
    else Closing(NO_STATUS_CODE_PRESENT, payload, !sentClose)
  }

  /** `handle_fragment`; behind a close frame nothing is read. */
  function Handle(inbox: Inbox, opcode: nat, fin: bool, payload: seq<byte>): Inbox {
    if inbox.closed.Some? then inbox
    else if opcode == 0 then Append(inbox, payload, inbox.binary, fin)
    else if opcode == 1 then Append(inbox, payload, false, fin)
    else if opcode == 2 then Append(inbox, payload, true, fin)
    else if opcode == 8 then inbox.(sentClose := true, closed := Some(ClosingOf(payload, inbox.sentClose)))
    else if opcode == 9 then inbox.(pongs := inbox.pongs + [payload])
    else inbox
  }

  function HandleAll(inbox: Inbox, frames: seq<Frame>): Inbox {
    if frames == [] then inbox
    else
      var last := frames[|frames| - 1];
      Handle(HandleAll(inbox, frames[..|frames| - 1]), last.opcode, last.fin, last.payload)
  }

  // ---------------------------------------------------------------- the start of a frame, as it is read

  /** What `mini_header_` holds behind a read of one octet or of two: an octet that is not read is zero. */
  function StartRead(octets: seq<byte>): nat
    requires 1 <= |octets| <= 2
  {
    octets[0] as int * 0x100 + if |octets| == 2 then octets[1] as int else 0
  }

  predicate IsMasked(miniHeader: nat) {
    miniHeader / 0x80 % 2 == 1
  }

  /** The state that follows. */
  function StateBehind(miniHeader: nat): ReadState {
    if miniHeader % 0x80 == 127 then LEN64 else if miniHeader % 0x80 == 126 then LEN16 else MASK
  }

  /** The opcode and the final bit in the first octet of the two that `mini_header_` holds. */
  function Opcode(miniHeader: nat): nat {
    miniHeader / 0x100 % 16
  }

  predicate IsFin(miniHeader: nat) {
    miniHeader / 0x8000 % 2 == 1
  }
}
