/**
  The writing side of a connection in `3rdparty/crow/websocket.h`: messages are queued in
  `write_buffers_`, and all that is queued is handed to the socket in one asynchronous write at a time.
 */
module WebSocketWrites {
  import opened Wrappers
  import opened Bytes
  import opened WebSocketSpec
  import opened WebSocketProof

  type Buffer = seq<byte>

  /** The two buffers of a frame that `send_data_impl` queues. */
  function FrameBuffers(opcode: nat, payload: seq<byte>, little: bool): seq<Buffer>
    requires opcode < 16 && |payload| < 0x1_0000_0000_0000_0000
  {
    [BuildHeader(opcode, |payload|, little), payload]
  }

  /** What `close` queues. */
  function CloseBuffers(status: nat, msg: seq<byte>, little: bool): seq<Buffer>
    requires status < 0x1_0000 && |msg| < 0x1_0000_0000_0000_0000 - 2
  {
    if status == NO_STATUS_CODE_PRESENT then [BuildHeader(8, 0, little)]
    else [BuildHeader(8, |msg| + 2, little), Store(Swap(status, 2, little), 2, little), msg]
  }

  /**
    What can happen to a connection: someone sends, someone closes, the write in flight ends, or the
    reading side gives the connection up. `reading` is whether a read is pending at that moment.
   */
  datatype Event =
    | Send(opcode: nat, payload: seq<byte>)
    | Shut(status: nat, msg: seq<byte>)
    | Written(failed: bool, reading: bool)
    | Lost(reading: bool)

  predicate Sendable(e: Event) {
    match e
    case Send(opcode, payload) => opcode < 16 && |payload| < 0x1_0000_0000_0000_0000
    case Shut(status, msg) => status < 0x1_0000 && |msg| < 0x1_0000_0000_0000_0000 - 2
    case _ => true
  }

  predicate SendableAll(events: seq<Event>) {
    forall i :: 0 <= i < |events| ==> Sendable(events[i])
  }

  /** What an event queues on a connection that lives. */
  function Buffers(e: Event, little: bool): seq<Buffer>
    requires Sendable(e)
  {
    match e
    case Send(opcode, payload) => FrameBuffers(opcode, payload, little)
    case Shut(status, msg) => CloseBuffers(status, msg, little)
    case _ => []
  }

  // ---------------------------------------------------------------- the queue, event by event

  /**
    The two buffers of the connection, its flags, all writes that were begun, and how many have ended.
    The connection is destroyed when it is given up with no write in flight and no read pending.
   */
  datatype Queue = Queue(waiting: seq<Buffer>, sending: seq<Buffer>, hasSentClose: bool, closeConnection: bool,
                         destroyed: bool, writes: seq<seq<Buffer>>, ended: nat)

  const EMPTY_QUEUE: Queue := Queue([], [], false, false, false, [], 0)

  /** `do_write`. */
  function Begin(q: Queue): Queue {
    if q.sending == [] then q.(sending := q.waiting, waiting := [], writes := q.writes + [q.waiting]) else q
  }

  /** `check_destroy`, after the connection was given up. */
  function Abandon(q: Queue, reading: bool): Queue {
    q.(closeConnection := true, destroyed := q.sending == [] && !reading)
  }

  /** The completion handler of a write. */
  function End(q: Queue, failed: bool, reading: bool): Queue {
    var free := q.(sending := [], ended := q.ended + 1);
    if failed || q.closeConnection then Abandon(free, reading)
    else (if free.waiting == [] then free else Begin(free)).(closeConnection := q.hasSentClose)
  }

  /** The socket reports no end of a write where none is in flight, and nothing happens to what is destroyed. */
  function Step(q: Queue, e: Event, little: bool): Queue
    requires Sendable(e)
  {
    if q.destroyed then q
    else match e
      case Send(_, _) => Begin(q.(waiting := q.waiting + Buffers(e, little)))
      case Shut(_, _) => Begin(q.(waiting := q.waiting + Buffers(e, little), hasSentClose := true))
      case Written(failed, reading) => if q.ended == |q.writes| then q else End(q, failed, reading)
      case Lost(reading) => Abandon(q, reading)
  }

  function After(events: seq<Event>, little: bool): Queue
    requires SendableAll(events)
    decreases |events|
  {
    if events == [] then EMPTY_QUEUE
    else Step(After(events[..|events| - 1], little), events[|events| - 1], little)
  }

  // ---------------------------------------------------------------- what every run keeps

  /** All that was queued, in the order in which it was. */
  function Queued(events: seq<Event>, little: bool): seq<Buffer>
    requires SendableAll(events)
    decreases |events|
  {
    if events == [] then []
    else
      var before, e := events[..|events| - 1], events[|events| - 1];
      Queued(before, little) + if After(before, little).destroyed then [] else Buffers(e, little)
  }

  function Concat<T>(parts: seq<seq<T>>): seq<T> {
    if parts == [] then [] else Concat(parts[..|parts| - 1]) + parts[|parts| - 1]
  }

  lemma ConcatMore<T>(parts: seq<seq<T>>, part: seq<T>)
    ensures Concat(parts + [part]) == Concat(parts) + part
  {
    assert (parts + [part])[..|parts|] == parts;
  }

  /**
    At most one write is in flight, and it is of the buffers being sent; until the connection is given
    up nothing waits while none is.
   */
  predicate OneAtATime(q: Queue) {
    && q.ended <= |q.writes| <= q.ended + 1
    && (q.sending == [] <==> |q.writes| == q.ended)
    && (q.sending != [] ==> q.writes[q.ended] == q.sending)
    && (!q.closeConnection && q.sending == [] ==> q.waiting == [])
  }

  /** All that was handed to the socket, and what waits. */
  function Total(q: Queue): seq<Buffer> {
    Concat(q.writes) + q.waiting
  }

  lemma BeginKeeps(q: Queue)
    requires q.waiting != [] && q.ended <= |q.writes| <= q.ended + 1 && (q.sending == [] <==> |q.writes| == q.ended)
    requires q.sending != [] ==> q.writes[q.ended] == q.sending
    ensures OneAtATime(Begin(q)) && Total(Begin(q)) == Total(q) && q.writes <= Begin(q).writes
  {
    if q.sending == [] {
      ConcatMore(q.writes, q.waiting);
      assert Concat(q.writes + [q.waiting]) + [] == Concat(q.writes) + q.waiting;
    }
  }

  lemma StepKeeps(q: Queue, e: Event, little: bool)
    requires Sendable(e) && OneAtATime(q)
    ensures OneAtATime(Step(q, e, little)) && q.writes <= Step(q, e, little).writes
    ensures Total(Step(q, e, little)) == Total(q) + if q.destroyed then [] else Buffers(e, little)
  {
    hide Total, Concat, FrameBuffers, CloseBuffers;
    var more := Buffers(e, little);
    if !q.destroyed && (e.Send? || e.Shut?) {
      Nonempty(e, little);
      Longer(q, more, q.hasSentClose || e.Shut?);
      BeginKeeps(q.(waiting := q.waiting + more, hasSentClose := q.hasSentClose || e.Shut?));
    } else {
      SameTotal(q, Step(q, e, little));
      if !q.destroyed && e.Written? && q.ended < |q.writes| && q.waiting != [] {
        BeginKeeps(q.(sending := [], ended := q.ended + 1));
        SameTotal(q, q.(sending := [], ended := q.ended + 1));
        SameTotal(Begin(q.(sending := [], ended := q.ended + 1)), Step(q, e, little));
      }
    }
  }

  lemma Nonempty(e: Event, little: bool)
    requires Sendable(e) && (e.Send? || e.Shut?)
    ensures Buffers(e, little) != []
  {
  }

  lemma Longer(q: Queue, more: seq<Buffer>, closing: bool)
    ensures Total(q.(waiting := q.waiting + more, hasSentClose := closing)) == Total(q) + more
  {
  }

  lemma SameTotal(q: Queue, r: Queue)
    ensures q.writes == r.writes && q.waiting == r.waiting ==> Total(r) == Total(q) && Total(r) == Total(q) + []
  {
  }

  /**
    Every run, in every interleaving: at most one write is in flight, and what was handed to the socket,
    followed by what waits, is what was queued, buffer by buffer in the order of queueing. So no two
    frames are mixed.
   */
  lemma {:induction false} InOrder(events: seq<Event>, little: bool)
    requires SendableAll(events)
    ensures OneAtATime(After(events, little)) && Total(After(events, little)) == Queued(events, little)
    decreases |events|
  {
    hide OneAtATime, Total, Step, Buffers;
    if events == [] {
      NothingQueued(little);
    } else {
      var before, e := events[..|events| - 1], events[|events| - 1];
      InOrder(before, little);
      StepKeeps(After(before, little), e, little);
    }
  }

  lemma NothingQueued(little: bool)
    ensures OneAtATime(After([], little)) && Total(After([], little)) == Queued([], little) == []
  {
  }

  /** Nothing that was handed over is taken back, and what was queued stays queued. */
  lemma {:induction false} OnlyMore(events: seq<Event>, n: nat, little: bool)
    requires SendableAll(events) && n <= |events|
    ensures After(events[..n], little).writes <= After(events, little).writes
    ensures Queued(events[..n], little) <= Queued(events, little)
    decreases |events|
  {
    hide OneAtATime, Total, Step, Buffers;
    if n < |events| {
      var before, e := events[..|events| - 1], events[|events| - 1];
      InOrder(before, little);
      OnlyMore(before, n, little);
      StepKeeps(After(before, little), e, little);
      assert before[..n] == events[..n];
    } else {
      assert events[..n] == events;
    }
  }

  /** While the connection is not given up, it has handed over all that was queued once no write is in flight. */
  lemma AllHanded(events: seq<Event>, little: bool)
    requires SendableAll(events)
    requires var q := After(events, little); !q.closeConnection && q.ended == |q.writes|
    ensures Concat(After(events, little).writes) == Queued(events, little)
  {
    var q := After(events, little);
    InOrder(events, little);
    assert Concat(q.writes) + [] == Concat(q.writes);
  }

  // ---------------------------------------------------------------- frames

  /**
    The frame that an event means: final, without a mask, its length in the shortest form. A close frame
    has the status and the reason (section 5.5.1).
   */
  function FramesBy(e: Event): seq<Frame> {
    match e
    case Send(opcode, payload) => [Frame(true, opcode, FormOf(|payload|), None, payload)]
    case Shut(status, msg) =>
      var payload := if status == 1005 then [] else [status / 0x100 % 0x100, status % 0x100] + msg;
      [Frame(true, 8, FormOf(|payload|), None, payload)]
    case _ => []
  }

  /** The frames of a run, until the connection is destroyed. */
  function Frames(events: seq<Event>, little: bool): seq<Frame>
    requires SendableAll(events)
    decreases |events|
  {
    if events == [] then []
    else
      var before, e := events[..|events| - 1], events[|events| - 1];
      Frames(before, little) + if After(before, little).destroyed then [] else FramesBy(e)
  }

  /** What an event queues is its frame. */
  lemma BuffersAreFrames(e: Event, little: bool)
    requires Sendable(e)
    ensures forall f :: f in FramesBy(e) ==> IsFrame(f)
    ensures Concat(Buffers(e, little)) == WireAll(FramesBy(e))
  {
    hide CloseBuffers, FrameBuffers, WireAll, Concat;
    match e {
      case Send(opcode, payload) => SentIsFrame(opcode, payload, little);
      case Shut(status, msg) => ShutIsFrame(status, msg, little);
      case _ => NoFrames();
    }
  }

  lemma NoFrames()
    ensures Concat<byte>([]) == [] == WireAll([])
  {
  }

  lemma SentIsFrame(opcode: nat, payload: seq<byte>, little: bool)
    requires opcode < 16 && |payload| < 0x1_0000_0000_0000_0000
    ensures var f := Frame(true, opcode, FormOf(|payload|), None, payload);
      IsFrame(f) && Concat(FrameBuffers(opcode, payload, little)) == WireAll([f])
  {
    hide BuildHeader, FrameHead, FormOf;
    BuiltHeaderIsFrameHead(opcode, payload, little);
    WireOfOne(Frame(true, opcode, FormOf(|payload|), None, payload));
    ConcatPair(BuildHeader(opcode, |payload|, little), payload);
  }

  lemma ShutIsFrame(status: nat, msg: seq<byte>, little: bool)
    requires status < 0x1_0000 && |msg| < 0x1_0000_0000_0000_0000 - 2
    ensures var payload := if status == 1005 then [] else [status / 0x100 % 0x100, status % 0x100] + msg;
      var f := Frame(true, 8, FormOf(|payload|), None, payload);
      IsFrame(f) && Concat(CloseBuffers(status, msg, little)) == WireAll([f])
  {
    hide Store, Load, BuildHeader, FrameHead, FormOf, WireAll, Wire, Concat;
    if status == NO_STATUS_CODE_PRESENT {
      BuiltHeaderIsFrameHead(8, [], little);
      WireOfOne(Frame(true, 8, FormOf(0), None, []));
      ConcatOne(BuildHeader(8, 0, little));
    } else {
      StatusStored(status, little);
      var stored := Store(Swap(status, 2, little), 2, little);
      var payload := stored + msg;
      BuiltHeaderIsFrameHead(8, payload, little);
      WireOfOne(Frame(true, 8, FormOf(|payload|), None, payload));
      var head := BuildHeader(8, |payload|, little);
      ConcatPair(head, stored);
      ConcatMore([head, stored], msg);
      assert [head, stored] + [msg] == [head, stored, msg];
      assert head + stored + msg == head + (stored + msg);
    }
  }

  lemma ConcatOne<T>(a: seq<T>)
    ensures Concat([a]) == a + []
  {
    ConcatMore([], a);
    assert [] + [a] == [a] && [] + a == a;
  }

  lemma StatusStored(status: nat, little: bool)
    requires status < 0x1_0000
    ensures Store(Swap(status, 2, little), 2, little) == [status / 0x100 % 0x100, status % 0x100]
  {
    SwapStores(status, 2, little);
    assert Network(status, 2) == Network(status / 0x100, 1) + [status % 0x100];
    assert Network(status / 0x100, 1) == Network(status / 0x100 / 0x100, 0) + [status / 0x100 % 0x100];
  }

  lemma ConcatPair<T>(a: seq<T>, b: seq<T>)
    ensures Concat([a, b]) == a + b
  {
    ConcatMore([], a);
    ConcatMore([a], b);
    assert [] + [a] == [a] && [a] + [b] == [a, b] && [] + a == a;
  }

  lemma WireOfOne(f: Frame)
    requires IsFrame(f)
    ensures WireAll([f]) == Wire(f)
    ensures f.mask.None? ==> Wire(f) == FrameHead(f) + f.payload
  {
    assert [f][..0] == [] && [] + Wire(f) == Wire(f);
  }

  lemma {:induction false} WireOfBoth(a: seq<Frame>, b: seq<Frame>)
    requires (forall f :: f in a ==> IsFrame(f)) && (forall f :: f in b ==> IsFrame(f))
    ensures (forall f :: f in a + b ==> IsFrame(f)) && WireAll(a + b) == WireAll(a) + WireAll(b)
    decreases |b|
  {
    hide Wire;
    if b == [] {
      assert a + b == a && WireAll(a) + [] == WireAll(a);
    } else {
      var front, last := b[..|b| - 1], b[|b| - 1];
      assert (a + b)[..|a + b| - 1] == a + front && (a + b)[|a + b| - 1] == last;
      WireOfBoth(a, front);
      assert WireAll(a) + WireAll(front) + Wire(last) == WireAll(a) + (WireAll(front) + Wire(last));
    }
  }

  /** All that is queued in a run is, octet by octet, the frames that were asked for, one behind the other. */
  lemma {:induction false} QueuedAreFrames(events: seq<Event>, little: bool)
    requires SendableAll(events)
    ensures forall f :: f in Frames(events, little) ==> IsFrame(f)
    ensures Concat(Queued(events, little)) == WireAll(Frames(events, little))
    decreases |events|
  {
    hide Buffers, FramesBy, After, Wire;
    if events == [] {
      assert Queued(events, little) == [] && Concat<byte>([]) == [];
    } else {
      var before, e := events[..|events| - 1], events[|events| - 1];
      QueuedAreFrames(before, little);
      if After(before, little).destroyed {
        assert Queued(before, little) + [] == Queued(before, little);
        assert Frames(before, little) + [] == Frames(before, little);
      } else {
        BuffersAreFrames(e, little);
        ConcatBoth(Queued(before, little), Buffers(e, little));
        WireOfBoth(Frames(before, little), FramesBy(e));
      }
    }
  }

  /**
    The octets: with any part of the write in flight behind the writes that have ended, what the socket
    has taken begins the frames that were asked for, in the order in which they were.
   */
  lemma OctetsInOrder(events: seq<Event>, little: bool, k: nat)
    requires SendableAll(events) && k <= |Concat(After(events, little).sending)|
    ensures forall f :: f in Frames(events, little) ==> IsFrame(f)
    ensures var q := After(events, little);
      q.ended <= |q.writes| &&
      Concat(Concat(q.writes[..q.ended])) + Concat(q.sending)[..k] <= WireAll(Frames(events, little))
  {
    hide Step, Buffers, Queued, Concat, After, Frames, WireAll;
    var q := After(events, little);
    InOrder(events, little);
    QueuedAreFrames(events, little);
    var ended := Concat(q.writes[..q.ended]);
    EndedAndSending(q);
    ConcatBoth(ended, q.sending + q.waiting);
    ConcatBoth(q.sending, q.waiting);
    PrefixOfThree(Concat(ended), Concat(q.sending), Concat(q.waiting), k);
  }

  lemma EndedAndSending(q: Queue)
    requires OneAtATime(q)
    ensures Total(q) == Concat(q.writes[..q.ended]) + (q.sending + q.waiting)
  {
    hide Concat;
    var ended := q.writes[..q.ended];
    if q.sending != [] {
      ConcatMore(ended, q.sending);
      assert q.writes == ended + [q.sending];
    } else {
      assert q.writes == ended;
    }
  }

  lemma PrefixOfThree<T>(a: seq<T>, b: seq<T>, c: seq<T>, k: nat)
    requires k <= |b|
    ensures a + b[..k] <= a + (b + c)
  {
    assert a + (b + c) == a + b[..k] + (b[k..] + c);
  }

  lemma ConcatNothing<T>()
    ensures Concat<T>([]) == []
  {
  }

  lemma {:induction false} ConcatBoth<T>(a: seq<seq<T>>, b: seq<seq<T>>)
    ensures Concat(a + b) == Concat(a) + Concat(b)
    decreases |b|
  {
    hide Concat;
    if b == [] {
      ConcatNothing<T>();
      assert a + b == a && Concat(a) + [] == Concat(a);
    } else {
      var front, last := b[..|b| - 1], b[|b| - 1];
      ConcatBoth(a, front);
      ConcatMore(a + front, last);
      ConcatMore(front, last);
      assert b == front + [last] && a + b == a + front + [last];
      assert Concat(a) + Concat(front) + last == Concat(a) + (Concat(front) + last);
    }
  }

  // ---------------------------------------------------------------- the connection

  class Writer {
    const little: bool
    var writeBuffers: seq<Buffer>
    var sendingBuffers: seq<Buffer>
    var hasSentClose: bool
    var closeConnection: bool
    /** Set when the object is deleted. */
    var destroyed: bool
    /** The writes the socket was given, and how many it has reported as ended. */
    ghost var writes: seq<seq<Buffer>>
    ghost var ended: nat

    ghost function Value(): Queue
      reads this
    {
      Queue(writeBuffers, sendingBuffers, hasSentClose, closeConnection, destroyed, writes, ended)
    }

    constructor (little: bool)
      ensures Value() == EMPTY_QUEUE && this.little == little
    {
      this.little := little;
      writeBuffers, sendingBuffers, hasSentClose, closeConnection, destroyed := [], [], false, false, false;
      writes, ended := [], 0;
    }

    /** `do_write`: a new write begins only if none is in flight. */
    method DoWrite()
      modifies this`writeBuffers, this`sendingBuffers, this`writes
      ensures Value() == Begin(old(Value()))
    {
      if sendingBuffers == [] {
        sendingBuffers, writeBuffers := writeBuffers, [];
        writes := writes + [sendingBuffers];
      }
    }

    /** `send_data_impl`. */
    method SendData(opcode: nat, payload: seq<byte>)
      requires !destroyed && opcode < 16 && |payload| < 0x1_0000_0000_0000_0000
      modifies this`writeBuffers, this`sendingBuffers, this`writes
      ensures Value() == Step(old(Value()), Send(opcode, payload), little)
    {
      writeBuffers := writeBuffers + FrameBuffers(opcode, payload, little);
      DoWrite();
    }

    /** `close`, as far as it writes. */
    method Close(status: nat, msg: seq<byte>)
      requires !destroyed && status < 0x1_0000 && |msg| < 0x1_0000_0000_0000_0000 - 2
      modifies this`writeBuffers, this`sendingBuffers, this`writes, this`hasSentClose
      ensures Value() == Step(old(Value()), Shut(status, msg), little)
    {
      hasSentClose := true;
      writeBuffers := writeBuffers + CloseBuffers(status, msg, little);
      DoWrite();
    }

    method CheckDestroy(reading: bool)
      requires closeConnection && !destroyed
      modifies this`destroyed
      ensures Value() == Abandon(old(Value()), reading)
    {
      if sendingBuffers == [] && !reading {
        destroyed := true;
      }
    }

    /** The completion handler of a write. */
    method OnWritten(failed: bool, reading: bool)
      requires !destroyed && ended < |writes|
      modifies this
      ensures Value() == Step(old(Value()), Written(failed, reading), little)
    {
      ended := ended + 1;
      if !failed && !closeConnection {
        sendingBuffers := [];
        if writeBuffers != [] {
          DoWrite();
        }
        if hasSentClose {
          closeConnection := true;
        }
      } else {
        sendingBuffers := [];
        closeConnection := true;
        CheckDestroy(reading);
      }
    }

    /** One event. */
    method On(e: Event)
      requires Sendable(e) && OneAtATime(Value())
      modifies this
      ensures Value() == Step(old(Value()), e, little)
    {
      if !destroyed {
        match e
        case Send(opcode, payload) => SendData(opcode, payload);
        case Shut(status, msg) => Close(status, msg);
        case Written(failed, reading) =>
          if sendingBuffers != [] {
            OnWritten(failed, reading);
          }
        case Lost(reading) =>
          closeConnection := true;
          CheckDestroy(reading);
      }
    }
  }

  /** A connection through any events: it is as `After` says, so what is handed over begins what was queued. */
  method Run(events: seq<Event>, little: bool) returns (writer: Writer)
    requires SendableAll(events)
    ensures writer.Value() == After(events, little)
    ensures Concat(writer.writes) + writer.writeBuffers == Queued(events, little)
    ensures writer.ended <= |writer.writes| <= writer.ended + 1
  {
    hide Step, Buffers;
    writer := new Writer(little);
    for i := 0 to |events|
      invariant fresh(writer) && writer.little == little && writer.Value() == After(events[..i], little)
    {
      InOrder(events[..i], little);
      assert events[..i + 1][..i] == events[..i];
      writer.On(events[i]);
    }
    assert events[..|events|] == events;
    InOrder(events, little);
  }
}
