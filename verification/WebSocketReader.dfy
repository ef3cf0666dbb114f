/**
  What the reading side of a connection in `3rdparty/crow/websocket.h` makes of the octets of one read,
  whatever they are, and how it goes through a frame.
 */
module WebSocketReader {
  import opened Wrappers
  import opened Bytes
  import opened WebSocketSpec
  import opened WebSocketProof

  type Key = m: seq<byte> | |m| == 4 witness [0, 0, 0, 0]

  /**
    A connection as far as it reads. It has stopped when a close frame has been handled, or a payload
    was above the limit.
   */
  datatype Reader = Reader(limit: uint64, state: ReadState, miniHeader: nat, remaining: uint64, hasMask: bool,
                           mask: Key, fragment: seq<byte>, inbox: Inbox, stopped: bool)

  function NewReader(limit: uint64, sentClose: bool): Reader {
    Reader(limit, MINI_HEADER, 0, 0, false, [0, 0, 0, 0], [], EMPTY_INBOX.(sentClose := sentClose), false)
  }

  const NO_LIMIT: uint64 := 0xFFFF_FFFF_FFFF_FFFF

  const BUFFER_SIZE: nat := 4096

  function Min(a: nat, b: nat): nat {
    if a < b then a else b
  }

  /**
    How many octets the next read takes: of the start of a frame and of a payload as many as have
    arrived, of the fields between them all.
   */
  function Taken(r: Reader, arrived: nat): nat {
    match r.state
    case MINI_HEADER => Min(arrived, 2)
    case LEN16 => 2
    case LEN64 => 8
    case MASK => if r.remaining <= r.limit && r.hasMask then 4 else 0
    case PAYLOAD => Min(arrived, Min(r.remaining, BUFFER_SIZE))
  }

  /** The number in network order. */
  function Number(octets: seq<byte>): (n: uint64)
    requires |octets| <= 8
  {
    NumberFits(octets);
    Load(octets, false)
  }

  lemma NumberFits(octets: seq<byte>)
    requires |octets| <= 8
    ensures Load(octets, false) < 0x1_0000_0000_0000_0000
  {
    LoadFits(octets, false);
    Powers();
    PowerGrows(|octets|, 8);
  }

  lemma {:induction false} PowerGrows(m: nat, n: nat)
    requires m <= n
    ensures Power256(m) <= Power256(n)
    decreases n
  {
    if m < n {
      PowerGrows(m, n - 1);
    }
  }

  function OnStart(r: Reader, octets: seq<byte>): Reader
    requires 1 <= |octets| <= 2
  {
    var n := StartRead(octets);
    var next := r.(miniHeader := n, hasMask := IsMasked(n), state := StateBehind(n));
    if next.state == MASK then next.(remaining := n % 0x80) else next
  }

  function OnMask(r: Reader, octets: seq<byte>): Reader
    requires r.remaining <= r.limit && r.hasMask ==> |octets| == 4
  {
    if r.remaining > r.limit then r.(stopped := true)
    else r.(mask := if r.hasMask then octets else r.mask, state := PAYLOAD)
  }

  /** The fragment is complete: it is unmasked and handled by its opcode. */
  function Finish(r: Reader): Reader {
    var opcode := Opcode(r.miniHeader);
    var payload := if r.hasMask then Masked(r.fragment, r.mask) else r.fragment;
    var next := r.(inbox := Handle(r.inbox, opcode, IsFin(r.miniHeader), payload), stopped := opcode == 8);
    if opcode == 8 && r.inbox.sentClose then next.(fragment := payload)
    else next.(fragment := [], state := MINI_HEADER)
  }

  function OnPiece(r: Reader, piece: seq<byte>): Reader
    requires |piece| <= r.remaining
  {
    var next := r.(fragment := r.fragment + piece, remaining := r.remaining as int - |piece|);
    if next.remaining == 0 then Finish(next) else next
  }

  /** The completion handler of a read. */
  function OnRead(r: Reader, octets: seq<byte>): Reader
    requires |octets| == Taken(r, |octets|) && (r.state == MINI_HEADER ==> octets != [])
  {
    match r.state
    case MINI_HEADER => OnStart(r, octets)
    case LEN16 => r.(remaining := Number(octets), state := MASK)
    case LEN64 => r.(remaining := Number(octets), state := MASK)
    case MASK => OnMask(r, octets)
    case PAYLOAD => OnPiece(r, octets)
  }

  /** How many octets have arrived when a read ends. */
  type Arrival = n: nat | n > 0 witness 1

  /** One read after the other, of a stream from `pos` on; a read that cannot be filled does not end. */
  function ReadAll(r: Reader, wire: seq<byte>, pos: nat, arrivals: seq<Arrival>): Reader
    decreases |arrivals|
  {
    if arrivals == [] || r.stopped || pos + Taken(r, arrivals[0]) > |wire| then r
    else
      var next := pos + Taken(r, arrivals[0]);
      ReadAll(OnRead(r, wire[pos..next]), wire, next, arrivals[1..])
  }

  // ---------------------------------------------------------------- through a frame

  /** The two octets of a frame's start, as one number. */
  function StartOf(f: Frame): nat
    requires IsFrame(f)
  {
    StartRead(FrameStart(f))
  }

  lemma StartReads(f: Frame)
    requires IsFrame(f)
    ensures StartOf(f) < 0x1_0000
    ensures StartOf(f) % 0x80 == LengthCode(f) && (IsMasked(StartOf(f)) <==> f.mask.Some?)
    ensures Opcode(StartOf(f)) == f.opcode && (IsFin(StartOf(f)) <==> f.fin)
  {
    var n := StartOf(f);
    var high, low := FrameStart(f)[0] as int, FrameStart(f)[1] as int;
    assert n / 0x100 == high && n % 0x100 == low && n / 0x80 % 2 == low / 0x80 && n / 0x8000 == high / 0x80;
  }

  /** Where in the frame that begins at `start` the reader is, with `pos` octets of the stream read. */
  predicate Reading(r: Reader, f: Frame, start: nat, pos: nat)
    requires IsFrame(f)
  {
    !r.stopped &&
    match r.state
    case MINI_HEADER => pos == start && r.fragment == []
    case LEN16 => pos == start + 2 && Started(r, f) && f.form == MEDIUM && r.fragment == []
    case LEN64 => pos == start + 2 && Started(r, f) && f.form == LONG && r.fragment == []
    case MASK => pos == start + 2 + |FrameLength(f)| && Started(r, f) && r.fragment == [] && r.remaining == |f.payload|
    case PAYLOAD =>
      && pos == start + |FrameHead(f)| + |r.fragment| && Started(r, f) && |r.fragment| <= |f.payload|
      && r.fragment == FramePayload(f)[..|r.fragment|] && r.remaining == |f.payload| - |r.fragment|
      && (f.mask.Some? ==> r.mask == f.mask.value)
  }

  predicate Started(r: Reader, f: Frame)
    requires IsFrame(f)
  {
    r.miniHeader == StartOf(f) && (r.hasMask <==> f.mask.Some?)
  }

  /**
    The start of any frame, of which a read brings one octet or two: the connection is where it should
    be exactly if it was two. The number alone is right also if the octet that was not read is zero,
    but then this octet is still to come.
   */
  lemma StartIff(r: Reader, f: Frame, start: nat, k: nat)
    requires IsFrame(f) && 1 <= k <= 2 && r.state == MINI_HEADER && Reading(r, f, start, start)
    ensures var next := OnRead(r, FrameStart(f)[..k]);
      && (Reading(next, f, start, start + k) <==> k == 2)
      && (next.miniHeader == StartOf(f) <==> k == 2 || FrameStart(f)[1] == 0)
      && next.inbox == r.inbox && next.state != MINI_HEADER
  {
    StartReads(f);
    assert FrameStart(f)[..2] == FrameStart(f);
  }

  /** How much a connection still has to do in a frame. */
  function Rank(r: Reader): nat {
    match r.state
    case MINI_HEADER => 0x1_0000_0000_0000_0000 + 4
    case LEN16 => 0x1_0000_0000_0000_0000 + 3
    case LEN64 => 0x1_0000_0000_0000_0000 + 3
    case MASK => 0x1_0000_0000_0000_0000 + 2
    case PAYLOAD => r.remaining + 1
  }

  /** What the next read takes of the frame. */
  predicate IsNext(r: Reader, f: Frame, octets: seq<byte>)
    requires IsFrame(f)
  {
    match r.state
    case MINI_HEADER => octets == FrameStart(f)
    case LEN16 => octets == FrameLength(f)
    case LEN64 => octets == FrameLength(f)
    case MASK => octets == FrameMask(f)
    case PAYLOAD =>
      |r.fragment| + |octets| <= |f.payload| && (octets == [] ==> |r.fragment| == |f.payload|) &&
      octets == FramePayload(f)[|r.fragment|..|r.fragment| + |octets|]
  }

  /** The frame is done and handled: nothing of it is left behind, unless it has closed the connection. */
  predicate HasHandled(r: Reader, before: Inbox, f: Frame) {
    && r.inbox == Handle(before, f.opcode, f.fin, f.payload)
    && (r.stopped <==> f.opcode == 8)
    && (!r.stopped ==> r.state == MINI_HEADER && r.fragment == [])
  }

  /** A read in a frame brings the connection further, or to the end of the frame. */
  lemma FrameStep(r: Reader, f: Frame, start: nat, pos: nat, octets: seq<byte>)
    requires IsFrame(f) && |f.payload| <= r.limit && Reading(r, f, start, pos) && r.inbox.closed.None?
    requires |octets| == Taken(r, |octets|) && IsNext(r, f, octets)
    ensures r.state == MINI_HEADER ==> octets != []
    ensures var next := OnRead(r, octets);
      if r.state == PAYLOAD && r.remaining == |octets|
      then HasHandled(next, r.inbox, f) && pos + |octets| == start + |Wire(f)|
      else Reading(next, f, start, pos + |octets|) && next.inbox == r.inbox && next.limit == r.limit
           && Rank(next) < Rank(r) && next.state != MINI_HEADER
  {
    hide Wire, FramePayload, Network, Masked, Load, Handle, StartOf, FrameLength, FrameHead, Opcode, IsFin;
    HeadLength(f);
    match r.state {
      case MINI_HEADER =>
        StartIff(r, f, start, 2);
        assert FrameStart(f)[..2] == FrameStart(f);
      case LEN16 =>
        LengthReads(f);
      case LEN64 =>
        LengthReads(f);
      case MASK =>
        MaskStep(r, f, start, octets);
      case PAYLOAD =>
        PieceStep(r, f, start, pos, octets);
    }
  }

  lemma HeadLength(f: Frame)
    requires IsFrame(f)
    ensures |FrameLength(f)| == match f.form case SHORT => 0 case MEDIUM => 2 case LONG => 8
    ensures |FrameHead(f)| == 2 + |FrameLength(f)| + |FrameMask(f)|
    ensures |FrameMask(f)| == if f.mask.Some? then 4 else 0
    ensures |Wire(f)| == |FrameHead(f)| + |f.payload|
  {
  }

  lemma LengthReads(f: Frame)
    requires IsFrame(f) && f.form != SHORT
    ensures |FrameLength(f)| <= 8 && Number(FrameLength(f)) == |f.payload|
  {
    Powers();
    LoadStore(|f.payload|, if f.form == MEDIUM then 2 else 8, false);
  }

  lemma MaskStep(r: Reader, f: Frame, start: nat, octets: seq<byte>)
    requires IsFrame(f) && |f.payload| <= r.limit && r.state == MASK && octets == FrameMask(f)
    requires Reading(r, f, start, start + 2 + |FrameLength(f)|)
    ensures |octets| == Taken(r, |octets|)
    ensures Reading(OnMask(r, octets), f, start, start + |FrameHead(f)|)
    ensures OnMask(r, octets).state == PAYLOAD && OnMask(r, octets).inbox == r.inbox
            && OnMask(r, octets).limit == r.limit
  {
    hide FrameHead, FrameLength, FramePayload;
    HeadLength(f);
    assert FramePayload(f)[..0] == [];
  }

  lemma PieceStep(r: Reader, f: Frame, start: nat, pos: nat, piece: seq<byte>)
    requires IsFrame(f) && r.state == PAYLOAD && Reading(r, f, start, pos) && IsNext(r, f, piece)
    requires |piece| <= r.remaining && r.inbox.closed.None?
    ensures var next := OnPiece(r, piece);
      if r.remaining == |piece| then HasHandled(next, r.inbox, f) && pos + |piece| == start + |Wire(f)|
      else Reading(next, f, start, pos + |piece|) && next.inbox == r.inbox && next.limit == r.limit
           && next.remaining < r.remaining && next.state == PAYLOAD
  {
    hide Wire, FramePayload, Network, Masked, Handle, StartOf, FrameLength, FrameHead, Opcode, IsFin;
    HeadLength(f);
    var payload, at := FramePayload(f), |r.fragment|;
    assert payload[..at + |piece|] == payload[..at] + payload[at..at + |piece|];
    if r.remaining == |piece| {
      assert payload[..|payload|] == payload;
      FinishStep(r.(fragment := r.fragment + piece, remaining := 0), f);
    }
  }

  lemma FinishStep(r: Reader, f: Frame)
    requires IsFrame(f) && Started(r, f) && r.fragment == FramePayload(f) && !r.stopped
    requires (f.mask.Some? ==> r.mask == f.mask.value) && r.inbox.closed.None?
    ensures HasHandled(Finish(r), r.inbox, f)
  {
    hide Handle, Masked;
    StartReads(f);
    if f.mask.Some? {
      MaskedTwice(f.payload, f.mask.value);
    }
  }

  // ---------------------------------------------------------------- a start that is read in halves

  const EMPTY_TEXT: Frame := Frame(true, 1, SHORT, None, [])

  lemma TwoTexts()
    ensures IsFrame(EMPTY_TEXT) && WireAll([EMPTY_TEXT, EMPTY_TEXT]) == [0x81, 0, 0x81, 0]
    ensures HandleAll(EMPTY_INBOX, [EMPTY_TEXT, EMPTY_TEXT]).delivered == [Message([], false), Message([], false)]
  {
    var f := EMPTY_TEXT;
    var one := Message([], false);
    assert Wire(f) == [0x81, 0];
    assert [f, f][..1] == [f] && [f][..0] == [];
    assert WireAll([]) == [] && WireAll([f]) == [0x81, 0];
    assert FrameStart(f) == [0x81, 0];
    HandleOne(EMPTY_INBOX, f);
    assert EMPTY_INBOX.partial + [] == [] && [] + [one] == [one];
    assert Handle(EMPTY_INBOX, 1, true, []).delivered == [one];
    HandleBoth(EMPTY_INBOX, [f], [f]);
    HandleOne(HandleAll(EMPTY_INBOX, [f]), f);
    assert [f] + [f] == [f, f];
  }

  /** An empty text message is handled. */
  lemma EmptyTextHandled(r: Reader)
    requires r.fragment == [] && !r.hasMask && Opcode(r.miniHeader) == 1 && IsFin(r.miniHeader)
    requires r.inbox.closed.None? && r.inbox.partial == []
    ensures Finish(r) == r.(state := MINI_HEADER, fragment := [], stopped := false, inbox := r.inbox.(binary := false,
                            delivered := r.inbox.delivered + [Message([], false)]))
  {
    assert [] + r.fragment == [];
  }

  /**
    Two empty messages. Where the first read brings one octet, the second octet becomes the first of the
    next start, which then stands for a masked fragment of one octet: the reader waits for a mask that
    does not come, and the second message is never delivered, whatever arrives after that.
   */
  lemma HalfAStart(more: seq<Arrival>)
    ensures var r := ReadAll(NewReader(NO_LIMIT, false), WireAll([EMPTY_TEXT, EMPTY_TEXT]), 0, [1, 1, 1, 2] + more);
      r.inbox.delivered == [Message([], false)] && r.state == MASK && r.hasMask && r.remaining == 1
  {
    hide ReadAll, OnRead, Opcode, IsFin;
    TwoTexts();
    var wire: seq<byte> := [0x81, 0, 0x81, 0];
    var r := NewReader(NO_LIMIT, false);
    assert [1, 1, 1, 2] + more == [1] + ([1] + ([1] + ([2] + more)));
    assert wire[0..1] == [0x81] && wire[1..1] == [] && wire[1..3] == [0, 0x81];
    Halves();
    var a := OnRead(r, [0x81]);
    var b := OnRead(a, []);
    var c := OnRead(b, []);
    var d := OnRead(c, [0, 0x81]);
    ReadOne(r, wire, 0, 1, [1] + ([1] + ([2] + more)));
    ReadOne(a, wire, 1, 1, [1] + ([2] + more));
    ReadOne(b, wire, 1, 1, [2] + more);
    ReadOne(c, wire, 1, 2, more);
    NotFilled(d, wire, 3, more);
  }

  lemma Halves()
    ensures var a := OnRead(NewReader(NO_LIMIT, false), [0x81]);
      a == NewReader(NO_LIMIT, false).(state := MASK, miniHeader := 0x8100) &&
      var b := OnRead(a, []);
      b == a.(state := PAYLOAD) &&
      var c := OnRead(b, []);
      c == a.(state := MINI_HEADER, inbox := EMPTY_INBOX.(delivered := [Message([], false)])) &&
      OnRead(c, [0, 0x81]) == c.(state := MASK, miniHeader := 0x81, hasMask := true, remaining := 1)
  {
    var a := OnRead(NewReader(NO_LIMIT, false), [0x81]);
    assert a == NewReader(NO_LIMIT, false).(state := MASK, miniHeader := 0x8100);
    var b := OnRead(a, []);
    assert b.fragment == [] && [] + b.fragment == [];
    assert [] + [Message([], false)] == [Message([], false)];
    EmptyTextHandled(b);
  }

  /** A read that cannot be filled does not end. */
  lemma NotFilled(r: Reader, wire: seq<byte>, pos: nat, arrivals: seq<Arrival>)
    requires r.state != MINI_HEADER && r.state != PAYLOAD && pos + Taken(r, 1) > |wire|
    ensures ReadAll(r, wire, pos, arrivals) == r
  {
  }

  lemma ReadOne(r: Reader, wire: seq<byte>, pos: nat, k: Arrival, more: seq<Arrival>)
    requires !r.stopped && pos + Taken(r, k) <= |wire|
    ensures var next := pos + Taken(r, k);
      ReadAll(r, wire, pos, [k] + more) == ReadAll(OnRead(r, wire[pos..next]), wire, next, more)
  {
    assert ([k] + more)[1..] == more;
  }
}
