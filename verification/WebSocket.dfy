/**
  The reading side of a connection in `3rdparty/crow/websocket.h`: one asynchronous read after the other,
  each of as many octets as happen to arrive, and the fragment that is collected from them.
 */
module WebSocket {
  import opened Wrappers
  import opened Bytes
  import opened WebSocketSpec
  import opened WebSocketProof
  import opened WebSocketReader

  class Connection {
    const maxPayload: uint64
    /** The byte order of the machine. */
    const little: bool
    var state: ReadState
    var miniHeader: nat
    var remaining: uint64
    var hasMask: bool
    var mask: Key
    var fragment: seq<byte>
    var message: seq<byte>
    var isBinary: bool
    var hasSentClose: bool
    var hasRecvClose: bool
    /** Set where the connection is given up for a payload above the limit. */
    var closeConnection: bool
    /** What the message handler and the close handler were given, and the pongs that were sent. */
    var delivered: seq<Message>
    var pongs: seq<seq<byte>>
    var closed: Option<Closing>

    function Received(): Inbox
      reads this
    {
      Inbox(message, isBinary, delivered, pongs, hasSentClose, closed)
    }

    function Value(): Reader
      reads this
    {
      Reader(maxPayload, state, miniHeader, remaining, hasMask, mask, fragment, Received(),
        hasRecvClose || closeConnection)
    }

    constructor (maxPayload: uint64, sentClose: bool, little: bool)
      ensures Value() == NewReader(maxPayload, sentClose) && this.maxPayload == maxPayload && this.little == little
    {
      this.maxPayload, this.little := maxPayload, little;
      state, miniHeader, remaining, hasMask, mask := MINI_HEADER, 0, 0, false, [0, 0, 0, 0];
      fragment, message, isBinary, delivered, pongs := [], [], false, [], [];
      hasSentClose, hasRecvClose, closeConnection, closed := sentClose, false, false, None;
    }

    // -------------------------------------------------------------- the completion handlers

    method OnMiniHeader(octets: seq<byte>)
      requires state == MINI_HEADER && 1 <= |octets| <= 2
      modifies this`state, this`miniHeader, this`hasMask, this`remaining
      ensures Value() == OnRead(old(Value()), octets)
    {
      StartLoads(octets, little);
      hide Store, Load, StartRead, Swap;
      miniHeader := Swap(Load(if |octets| == 2 then octets else octets + [0], little), 2, little);
      hasMask := miniHeader / 0x80 % 2 == 1;
      if miniHeader % 0x80 == 127 {
        state := LEN64;
      } else if miniHeader % 0x80 == 126 {
        state := LEN16;
      } else {
        remaining := miniHeader % 0x80;
        state := MASK;
      }
    }

    method OnLen16(octets: seq<byte>)
      requires state == LEN16 && |octets| == 2
      modifies this`state, this`remaining
      ensures Value() == OnRead(old(Value()), octets)
    {
      NumberLoads(octets, little);
      hide Store, Load;
      remaining := Swap(Load(octets, little), 2, little);
      state := MASK;
    }

    method OnLen64(octets: seq<byte>)
      requires state == LEN64 && |octets| == 8
      modifies this`state, this`remaining
      ensures Value() == OnRead(old(Value()), octets)
    {
      Number64Loads(octets, little);
      hide Store, Load;
      remaining := Swap64(Load(octets, little), little);
      state := MASK;
    }

    /** Too long a payload gives the connection up; without a mask, nothing is read here. */
    method OnMaskRead(octets: seq<byte>)
      requires state == MASK && |octets| == Taken(Value(), |octets|)
      modifies this`state, this`mask, this`closeConnection
      ensures Value() == OnRead(old(Value()), octets)
    {
      if remaining > maxPayload {
        closeConnection := true;
      } else {
        if hasMask {
          mask := octets;
        }
        state := PAYLOAD;
      }
    }

    /** A piece of the payload; with the last one the fragment is complete. */
    method OnPayload(piece: seq<byte>)
      requires state == PAYLOAD && |piece| == Taken(Value(), |piece|) && !hasRecvClose && !closeConnection
               && closed == None
      modifies this`state, this`fragment, this`remaining, this`message, this`isBinary, this`delivered, this`pongs
      modifies this`hasSentClose, this`hasRecvClose, this`closed
      ensures Value() == OnRead(old(Value()), piece) && (closed.Some? ==> hasRecvClose)
    {
      hide Handle, Opcode, IsFin, Masked;
      fragment := fragment + piece;
      remaining := remaining as int - |piece|;
      if remaining == 0 {
        var more := HandleFragment();
        if more {
          state := MINI_HEADER;
        }
      }
    }

    /** `handle_fragment`; false if the connection is closed and was already closing. */
    method HandleFragment() returns (more: bool)
      requires !hasRecvClose && !closeConnection && closed == None
      modifies this`fragment, this`message, this`isBinary, this`delivered, this`pongs
      modifies this`hasSentClose, this`hasRecvClose, this`closed
      ensures more <==> !(Opcode(miniHeader) == 8 && old(hasSentClose))
      ensures Finish(old(Value())) == if more then Value().(state := MINI_HEADER) else Value()
      ensures closed.Some? ==> hasRecvClose
    {
      hide Masked, Opcode, IsFin, Handle;
      if hasMask {
        Unmask();
      }
      more := HandlePayload();
      if more {
        fragment := [];
      }
    }

    /** The switch over the opcodes. */
    method HandlePayload() returns (more: bool)
      requires !hasRecvClose && !closeConnection && closed == None
      modifies this`message, this`isBinary, this`delivered, this`pongs, this`hasSentClose, this`hasRecvClose,
               this`closed
      ensures Received() == Handle(old(Received()), Opcode(miniHeader), IsFin(miniHeader), fragment)
      ensures more <==> !(Opcode(miniHeader) == 8 && old(hasSentClose))
      ensures (hasRecvClose <==> Opcode(miniHeader) == 8) && (closed.Some? ==> hasRecvClose)
    {
      hide Opcode, IsFin, ClosingOf;
      more := true;
      match Opcode(miniHeader) {
        case 0 =>
          AppendFragment();
        case 1 =>
          isBinary := false;
          AppendFragment();
        case 2 =>
          isBinary := true;
          AppendFragment();
        case 8 =>
          more := OnClose();
        case 9 =>
          pongs := pongs + [fragment];
        case _ =>
      }
    }

    method AppendFragment()
      modifies this`message, this`delivered
      ensures Received() == Append(old(Received()), fragment, isBinary, IsFin(miniHeader))
    {
      message := message + fragment;
      if IsFin(miniHeader) {
        delivered := delivered + [Message(message, isBinary)];
        message := [];
      }
    }

    /** The close handler is told, and a close frame goes back unless one was sent before. */
    method OnClose() returns (more: bool)
      requires closed == None
      modifies this`hasSentClose, this`hasRecvClose, this`closed
      ensures hasRecvClose && hasSentClose && (more <==> !old(hasSentClose))
      ensures closed == Some(ClosingOf(fragment, old(hasSentClose)))
    {
      hasRecvClose := true;
      var status, messageStart := NO_STATUS_CODE_PRESENT, 2;
      if |fragment| >= 2 {
        StartLoads(fragment[..2], little);
        status := Swap(Load(fragment[..2], little), 2, little);
      } else {
        messageStart := 0;
      }
      closed := Some(Closing(status, fragment[messageStart..], !hasSentClose));
      more := !hasSentClose;
      hasSentClose := true;
    }

    /** The loop over the octets of the fragment. */
    method Unmask()
      modifies this`fragment
      ensures fragment == Masked(old(fragment), mask)
    {
      ghost var masked := fragment;
      for i := 0 to |fragment|
        invariant |fragment| == |masked|
        invariant forall k :: 0 <= k < i ==> fragment[k] == Masked(masked, mask)[k]
        invariant forall k :: i <= k < |fragment| ==> fragment[k] == masked[k]
      {
        fragment := fragment[i := Xor(fragment[i], mask[i % 4])];
      }
    }

    // -------------------------------------------------------------- one read after the other

    /**
      `do_read` and the completion of what it asks for: of a stream, on any octets and in any state.
      `next` is what has been read of the stream then.
     */
    method DoRead(wire: seq<byte>, pos: nat, arrived: Arrival) returns (next: nat)
      requires !hasRecvClose && !closeConnection && closed == None && pos + Taken(Value(), arrived) <= |wire|
      modifies this
      ensures next == pos + Taken(old(Value()), arrived)
      ensures Value() == OnRead(old(Value()), wire[pos..next]) && (closed.Some? ==> hasRecvClose)
    {
      hide OnRead;
      next := pos + Taken(Value(), arrived);
      var octets := wire[pos..next];
      match state {
        case MINI_HEADER => OnMiniHeader(octets);
        case LEN16 => OnLen16(octets);
        case LEN64 => OnLen64(octets);
        case MASK => OnMaskRead(octets);
        case PAYLOAD => OnPayload(octets);
      }
    }

    /** A whole frame, of whose start the first read brings `arrived` octets: `do_read` until the next one. */
    method ReadFrame(wire: seq<byte>, start: nat, arrived: Arrival, ghost f: Frame) returns (next: nat)
      requires IsFrame(f) && |f.payload| <= maxPayload && Has(wire, start, Wire(f)) && arrived >= 2
      requires Reading(Value(), f, start, start) && state == MINI_HEADER && closed == None
      modifies this
      ensures HasHandled(Value(), old(Received()), f) && next == start + |Wire(f)|
      ensures closed.Some? <==> hasRecvClose
      ensures !hasRecvClose ==> state == MINI_HEADER && fragment == [] && !closeConnection
    {
      hide OnRead, Wire, Reading, Handle;
      ReadingRuns(Value(), f, start, start);
      next := start;
      var k := arrived;
      var whole := false;
      while !whole
        invariant !whole ==> Reading(Value(), f, start, next) && Received() == old(Received()) && closed == None
        invariant !whole ==> state != MINI_HEADER || k >= 2
        invariant whole ==> HasHandled(Value(), old(Received()), f) && next == start + |Wire(f)|
        invariant !whole ==> !hasRecvClose && !closeConnection
        invariant closed.Some? ==> hasRecvClose
        decreases if whole then 0 else 1 + Rank(Value())
      {
        ghost var r := Value();
        NextIsThere(r, f, wire, start, next, k);
        ghost var octets := wire[next..next + Taken(r, k)];
        FrameStep(r, f, start, next, octets);
        whole := state == PAYLOAD && remaining == Taken(Value(), k);
        next := DoRead(wire, next, k);
        if !whole {
          ReadingRuns(Value(), f, start, next);
        }
        k :| k > 0;
      }
      ClosedIff(f, old(Received()), Received());
    }

    /**
      A stream of frames, masked or not, up to a close frame where there is one: if every read of the
      start of a frame brings both octets, whatever other reads bring, the connection has handled exactly
      those frames, in order. `starts` says what the start reads bring.
     */
    method ReadStream(wire: seq<byte>, starts: nat -> Arrival, ghost frames: seq<Frame>)
      requires forall f :: f in frames ==> IsFrame(f) && |f.payload| <= maxPayload
      requires forall i :: starts(i) >= 2
      requires wire == WireAll(frames) && state == MINI_HEADER && fragment == [] && closed == None
      requires !hasRecvClose && !closeConnection
      modifies this
      ensures Received() == HandleAll(old(Received()), frames)
    {
      hide Wire, Handle;
      var pos, i := 0, 0;
      while pos < |wire| && !hasRecvClose
        invariant i <= |frames| && pos == |WireAll(frames[..i])| <= |wire|
        invariant !hasRecvClose ==> state == MINI_HEADER && fragment == [] && closed == None && !closeConnection
        invariant hasRecvClose ==> closed.Some?
        invariant Received() == HandleAll(old(Received()), frames[..i])
        decreases |wire| - pos
      {
        NotAllRead(frames, i);
        FramesAreThere(frames, i, wire);
        pos := ReadFrame(wire, pos, starts(i), frames[i]);
        i := i + 1;
      }
      if hasRecvClose {
        assert frames == frames[..i] + frames[i..];
        HandleBoth(old(Received()), frames[..i], frames[i..]);
        ClosedStays(Received(), frames[i..]);
      } else {
        if i < |frames| {
          FramesAreThere(frames, i, wire);
        }
        assert i == |frames| && frames[..i] == frames;
      }
    }
  }

  // ---------------------------------------------------------------- numbers

  lemma NumberLoads(octets: seq<byte>, little: bool)
    requires |octets| <= 8
    ensures Swap(Load(octets, little), |octets|, little) == Number(octets)
  {
    StoreLoad(octets, false);
    LoadFits(octets, false);
    SwapLoads(Number(octets), |octets|, little);
  }

  lemma Number64Loads(octets: seq<byte>, little: bool)
    requires |octets| == 8
    ensures Swap64(Load(octets, little), little) == Number(octets)
  {
    StoreLoad(octets, false);
    Swap64Loads(Number(octets), little);
  }

  lemma StartLoads(octets: seq<byte>, little: bool)
    requires 1 <= |octets| <= 2
    ensures Swap(Load(if |octets| == 2 then octets else octets + [0], little), 2, little) == StartRead(octets)
  {
    var field := if |octets| == 2 then octets else octets + [0];
    NumberLoads(field, little);
    assert field[..1] == [field[0]] && Load(field[..0], false) == 0;
    assert Load(field[..1], false) == field[0];
  }

  // ---------------------------------------------------------------- the stream

  /** The stream has these octets at this position. */
  predicate Has(wire: seq<byte>, pos: nat, octets: seq<byte>) {
    pos + |octets| <= |wire| && wire[pos..pos + |octets|] == octets
  }

  lemma HasBoth(wire: seq<byte>, pos: nat, a: seq<byte>, b: seq<byte>)
    requires Has(wire, pos, a + b)
    ensures Has(wire, pos, a) && Has(wire, pos + |a|, b)
  {
    assert wire[pos..pos + |a|] == (a + b)[..|a|];
    assert wire[pos + |a|..pos + |a| + |b|] == (a + b)[|a|..];
  }

  /** Where the parts of a frame are in the stream. */
  lemma FrameIsThere(wire: seq<byte>, start: nat, f: Frame)
    requires IsFrame(f) && Has(wire, start, Wire(f))
    ensures Has(wire, start, FrameStart(f)) && Has(wire, start + 2, FrameLength(f))
    ensures Has(wire, start + 2 + |FrameLength(f)|, FrameMask(f))
    ensures Has(wire, start + |FrameHead(f)|, FramePayload(f))
  {
    hide Has;
    var head := FrameStart(f) + FrameLength(f);
    HasBoth(wire, start, FrameHead(f), FramePayload(f));
    HasBoth(wire, start, head, FrameMask(f));
    HasBoth(wire, start, FrameStart(f), FrameLength(f));
  }

  lemma PieceIsThere(wire: seq<byte>, at: nat, payload: seq<byte>, from: nat, k: nat)
    requires Has(wire, at, payload) && from + k <= |payload|
    ensures at + from + k <= |wire| && wire[at + from..at + from + k] == payload[from..from + k]
  {
    hide Has;
    var rest := payload[from + k..];
    assert payload == payload[..from] + (payload[from..from + k] + rest);
    HasBoth(wire, at, payload[..from], payload[from..from + k] + rest);
    HasBoth(wire, at + from, payload[from..from + k], rest);
    HasSlice(wire, at + from, payload[from..from + k]);
  }

  lemma HasSlice(wire: seq<byte>, pos: nat, octets: seq<byte>)
    requires Has(wire, pos, octets)
    ensures pos + |octets| <= |wire| && wire[pos..pos + |octets|] == octets
  {
  }

  lemma NotAllRead(frames: seq<Frame>, i: nat)
    requires (forall f :: f in frames ==> IsFrame(f)) && i <= |frames|
    requires |WireAll(frames[..i])| < |WireAll(frames)|
    ensures i < |frames|
  {
    assert frames[..|frames|] == frames;
  }

  /** The frame that comes after the first `i` is in the stream behind them. */
  lemma {:induction false} FramesAreThere(frames: seq<Frame>, i: nat, wire: seq<byte>)
    requires (forall f :: f in frames ==> IsFrame(f)) && wire == WireAll(frames) && i < |frames|
    ensures frames[i] in frames && frames[..i + 1][..i] == frames[..i] && frames[..i + 1][i] == frames[i]
    ensures Has(wire, |WireAll(frames[..i])|, Wire(frames[i]))
    ensures |WireAll(frames[..i + 1])| == |WireAll(frames[..i])| + |Wire(frames[i])| <= |wire|
    decreases |frames|
  {
    hide Wire;
    var n := |frames| - 1;
    var before := frames[..n];
    assert wire == WireAll(before) + Wire(frames[n]);
    if i < n {
      FramesAreThere(before, i, WireAll(before));
      assert before[..i] == frames[..i] && before[..i + 1] == frames[..i + 1];
      HasInPrefix(WireAll(before), Wire(frames[n]), |WireAll(frames[..i])|, Wire(frames[i]));
    } else {
      assert frames[..i + 1] == frames;
    }
  }

  lemma HasInPrefix(a: seq<byte>, b: seq<byte>, pos: nat, octets: seq<byte>)
    requires Has(a, pos, octets)
    ensures Has(a + b, pos, octets)
  {
    assert (a + b)[pos..pos + |octets|] == a[pos..pos + |octets|];
  }

  /** What the next read in a frame takes is there. */
  lemma NextIsThere(r: Reader, f: Frame, wire: seq<byte>, start: nat, pos: nat, k: Arrival)
    requires IsFrame(f) && |f.payload| <= r.limit && Has(wire, start, Wire(f)) && Reading(r, f, start, pos)
    requires r.state == MINI_HEADER ==> k >= 2
    ensures pos + Taken(r, k) <= |wire|
    ensures var octets := wire[pos..pos + Taken(r, k)];
      |octets| == Taken(r, |octets|) && IsNext(r, f, octets)
  {
    hide Wire, FrameHead, FrameLength, FramePayload, Started, Has;
    FrameIsThere(wire, start, f);
    HeadLength(f);
    match r.state {
      case MINI_HEADER => HasSlice(wire, start, FrameStart(f));
      case LEN16 => HasSlice(wire, start + 2, FrameLength(f));
      case LEN64 => HasSlice(wire, start + 2, FrameLength(f));
      case MASK =>
        MaskedIff(r, f);
        HasSlice(wire, start + 2 + |FrameLength(f)|, FrameMask(f));
      case PAYLOAD =>
        PieceIsThere(wire, start + |FrameHead(f)|, FramePayload(f), |r.fragment|, Taken(r, k));
    }
  }

  lemma ReadingRuns(r: Reader, f: Frame, start: nat, pos: nat)
    requires IsFrame(f) && Reading(r, f, start, pos)
    ensures !r.stopped
  {
  }

  lemma MaskedIff(r: Reader, f: Frame)
    requires IsFrame(f) && Started(r, f)
    ensures r.hasMask <==> f.mask.Some?
  {
  }

  lemma ClosedIff(f: Frame, before: Inbox, after: Inbox)
    requires before.closed == None && after == Handle(before, f.opcode, f.fin, f.payload)
    ensures after.closed.Some? <==> f.opcode == 8
  {
  }

  lemma {:induction false} StreamIsFrames(items: seq<Item>)
    requires forall item :: item in items ==> ValidItem(item) && forall p :: p in item.parts ==> FitsForm(p)
    ensures forall f :: f in Stream(items) ==> IsFrame(f)
    decreases |items|
  {
    if items != [] {
      assert items[0] in items;
      PartsAreFrames(items[0].parts, if items[0].binary then 2 else 1);
      StreamIsFrames(items[1..]);
    }
  }

  predicate FitsForm(p: Part) {
    IsFrame(Frame(true, 0, p.form, p.mask, p.payload))
  }

  lemma {:induction false} PartsAreFrames(parts: seq<Part>, opcode: nat)
    requires opcode <= 2 && (forall p :: p in parts ==> FitsForm(p))
    requires forall p :: p in parts ==> forall c :: c in p.controls ==> IsControl(c)
    ensures forall f :: f in FramesOfParts(parts, opcode) ==> IsFrame(f)
    decreases |parts|
  {
    if parts != [] {
      assert parts[0] in parts;
      PartsAreFrames(parts[1..], 0);
    }
  }

  /**
    Reassembly on the wire: for every valid stream of messages, in any fragments, masked or not, with
    pings and pongs between them, and with nothing behind it or a close frame, after which anything may
    come: if every read of a start brings both octets, and whatever the pieces of the payloads, the
    handlers are given the messages and what the close frame says.
   */
  method Receive(items: seq<Item>, tail: seq<Frame>, wire: seq<byte>, starts: nat -> Arrival, sentClose: bool,
                 little: bool)
    returns (connection: Connection)
    requires forall item :: item in items ==> ValidItem(item) && forall p :: p in item.parts ==> FitsForm(p)
    requires (forall f :: f in tail ==> IsFrame(f)) && (tail != [] ==> tail[0].opcode == 8)
    requires (forall f :: f in Stream(items) + tail ==> IsFrame(f)) && wire == WireAll(Stream(items) + tail)
    requires forall i :: starts(i) >= 2
    ensures connection.delivered == Messages(items) && connection.pongs == Pings(Stream(items))
    ensures connection.closed == if tail == [] then None else Some(ClosingOf(tail[0].payload, sentClose))
  {
    hide Stream, WireAll, HandleAll, Messages, Pings;
    connection := new Connection(NO_LIMIT, sentClose, little);
    forall f | f in Stream(items) + tail ensures |f.payload| <= connection.maxPayload {
      assert IsFrame(f);
    }
    connection.ReadStream(wire, starts, Stream(items) + tail);
    ClosedStream(items, tail, sentClose);
  }
}
