/**
  Headers of `3rdparty/crow/websocket.h` decode to what they were built from, on machines of either
  byte order, and any valid stream of frames amounts to its messages.
 */
module WebSocketProof {
  import opened Wrappers
  import opened Bytes
  import opened WebSocketSpec

  // ---------------------------------------------------------------- byte order

  function Power256(n: nat): (p: nat)
    ensures p > 0
  {
    if n == 0 then 1 else 0x100 * Power256(n - 1)
  }

  function Reverse(b: seq<byte>): (r: seq<byte>)
    ensures |r| == |b|
  {
    if b == [] then [] else Reverse(b[1..]) + [b[0]]
  }

  lemma {:induction false} ReverseEnds(b: seq<byte>)
    requires b != []
    ensures Reverse(b) == [b[|b| - 1]] + Reverse(b[..|b| - 1])
  {
    if |b| > 1 {
      ReverseEnds(b[1..]);
      assert b[1..][..|b| - 2] == b[..|b| - 1][1..];
      assert b[..|b| - 1][0] == b[0];
      assert [b[|b| - 1]] + Reverse(b[..|b| - 1][1..]) + [b[0]] == [b[|b| - 1]] + (Reverse(b[..|b| - 1][1..]) + [b[0]]);
    } else {
      assert Reverse(b[1..]) == [] && b[..0] == [];
    }
  }

  lemma {:induction false} StoreReversed(n: nat, size: nat)
    ensures Store(n, size, false) == Reverse(Store(n, size, true))
  {
    if size > 0 {
      StoreReversed(n / 0x100, size - 1);
      assert Store(n, size, true)[1..] == Store(n / 0x100, size - 1, true);
    }
  }

  lemma {:induction false} LoadReversed(b: seq<byte>)
    ensures Load(Reverse(b), false) == Load(b, true)
    ensures Load(Reverse(b), true) == Load(b, false)
    decreases |b|
  {
    if b != [] {
      var n := |b|;
      LoadReversed(b[1..]);
      LoadReversed(b[..n - 1]);
      ReverseEnds(b);
      assert Reverse(b)[..n - 1] == Reverse(b[1..]);
      assert Reverse(b)[1..] == Reverse(b[..n - 1]);
    }
  }

  lemma {:induction false} StoreLoad(b: seq<byte>, little: bool)
    ensures Store(Load(b, little), |b|, little) == b
    decreases |b|
  {
    if b != [] {
      var n := |b|;
      if little {
        StoreLoad(b[1..], little);
        LowOctet(b[0], Load(b[1..], little));
        assert [b[0]] + b[1..] == b;
      } else {
        StoreLoad(b[..n - 1], little);
        LowOctet(b[n - 1], Load(b[..n - 1], little));
        assert b[..n - 1] + [b[n - 1]] == b;
      }
    }
  }

  lemma LowOctet(octet: byte, rest: nat)
    ensures (octet + 0x100 * rest) % 0x100 == octet && (octet + 0x100 * rest) / 0x100 == rest
  {
  }

  lemma {:induction false} LoadStore(n: nat, size: nat, little: bool)
    requires n < Power256(size)
    ensures Load(Store(n, size, little), little) == n
  {
    if size > 0 {
      var b := Store(n, size, little);
      LoadStore(n / 0x100, size - 1, little);
      if little {
        assert b[1..] == Store(n / 0x100, size - 1, little);
      } else {
        assert b[..size - 1] == Store(n / 0x100, size - 1, little);
      }
    }
  }

  lemma {:induction false} LoadFits(b: seq<byte>, little: bool)
    ensures Load(b, little) < Power256(|b|)
    decreases |b|
  {
    if b != [] {
      if little {
        LoadFits(b[1..], little);
      } else {
        LoadFits(b[..|b| - 1], little);
      }
    }
  }

  /** Swapping, then storing, puts the octets in network order. */
  lemma SwapStores(n: nat, size: nat, little: bool)
    ensures Store(Swap(n, size, little), size, little) == Network(n, size)
  {
    StoreLoad(Store(n, size, false), little);
  }

  /** Loading octets in network order, then swapping, gives the number. */
  lemma SwapLoads(n: nat, size: nat, little: bool)
    requires n < Power256(size)
    ensures Swap(Load(Network(n, size), little), size, little) == n
  {
    var b := Network(n, size);
    LoadStore(n, size, false);
    StoreLoad(b, little);
    if little {
      StoreReversed(Load(b, true), size);
      LoadReversed(b);
    }
  }

  lemma Powers()
    ensures Power256(1) == 0x100 && Power256(2) == 0x1_0000 && Power256(4) == 0x1_0000_0000
    ensures Power256(8) == 0x1_0000_0000_0000_0000
  {
    assert Power256(1) == 0x100 && Power256(2) == 0x1_0000;
    assert Power256(3) == 0x100_0000 && Power256(4) == 0x1_0000_0000;
    assert Power256(5) == 0x100_0000_0000 && Power256(6) == 0x1_0000_0000_0000;
    assert Power256(7) == 0x100_0000_0000_0000;
  }

  /** The octets of a number, low half and high half. */
  lemma {:induction false} StoreHalves(low: nat, high: nat, k: nat, size: nat)
    requires low < Power256(k)
    ensures Store(low + Power256(k) * high, k + size, true) == Store(low, k, true) + Store(high, size, true)
    decreases k
  {
    if k > 0 {
      var n := low + Power256(k) * high;
      var rest := low / 0x100 + Power256(k - 1) * high;
      Shift(low, high, Power256(k - 1));
      StoreHalves(low / 0x100, high, k - 1, size);
      assert Store(n, k + size, true) == [n % 0x100] + Store(rest, k - 1 + size, true);
      assert Store(low, k, true) == [low % 0x100] + Store(low / 0x100, k - 1, true);
    }
  }

  lemma Shift(low: nat, high: nat, p: nat)
    ensures (low + 0x100 * p * high) / 0x100 == low / 0x100 + p * high
    ensures (low + 0x100 * p * high) % 0x100 == low % 0x100
  {
    var m := p * high;
    assert 0x100 * p * high == 0x100 * m;
  }

  lemma {:induction false} NetworkHalves(low: nat, high: nat, k: nat, size: nat)
    requires low < Power256(k)
    ensures Network(low + Power256(k) * high, size + k) == Network(high, size) + Network(low, k)
    decreases k
  {
    if k > 0 {
      var n := low + Power256(k) * high;
      var rest := low / 0x100 + Power256(k - 1) * high;
      Shift(low, high, Power256(k - 1));
      NetworkHalves(low / 0x100, high, k - 1, size);
      assert Network(n, size + k) == Network(rest, size + k - 1) + [n % 0x100];
      assert Network(low, k) == Network(low / 0x100, k - 1) + [low % 0x100];
    }
  }

  lemma SwapFits(n: nat, size: nat, little: bool)
    ensures Swap(n, size, little) < Power256(size)
  {
    LoadFits(Store(n, size, false), little);
  }

  lemma Swap64Stores(n: uint64, little: bool)
    ensures Store(Swap64(n, little), 8, little) == Network(n, 8)
  {
    if little {
      Powers();
      var low, high := n % 0x1_0000_0000, n / 0x1_0000_0000;
      SwapFits(high, 4, true);
      SwapStores(low, 4, true);
      SwapStores(high, 4, true);
      StoreHalves(Swap(high, 4, true), Swap(low, 4, true), 4, 4);
      NetworkHalves(low, high, 4, 4);
    }
  }

  lemma SwapTwice(n: nat, size: nat)
    requires n < Power256(size)
    ensures Swap(Swap(n, size, true), size, true) == n
  {
    SwapStores(n, size, true);
    var b := Network(n, size);
    StoreReversed(Swap(n, size, true), size);
    LoadReversed(b);
    LoadStore(n, size, false);
  }

  lemma Swap64Loads(n: uint64, little: bool)
    ensures Swap64(Load(Network(n, 8), little), little) == n
  {
    Powers();
    if little {
      var low, high := n % 0x1_0000_0000, n / 0x1_0000_0000;
      SwapFits(low, 4, true);
      SwapFits(high, 4, true);
      Swap64Stores(n, true);
      Swap64Fits(low, high, Swap(low, 4, true), Swap(high, 4, true));
      LoadStore(Swap64(n, true), 8, true);
      SwapTwice(low, 4);
      SwapTwice(high, 4);
    } else {
      LoadStore(n, 8, false);
    }
  }

  lemma Swap64Fits(low: nat, high: nat, swappedLow: nat, swappedHigh: nat)
    requires swappedLow < 0x1_0000_0000 && swappedHigh < 0x1_0000_0000
    ensures swappedLow * 0x1_0000_0000 + swappedHigh < 0x1_0000_0000_0000_0000
    ensures (swappedLow * 0x1_0000_0000 + swappedHigh) % 0x1_0000_0000 == swappedHigh
    ensures (swappedLow * 0x1_0000_0000 + swappedHigh) / 0x1_0000_0000 == swappedLow
  {
  }

  /** Masking twice with the same key gives the payload back. */
  lemma MaskedTwice(payload: seq<byte>, mask: seq<byte>)
    requires |mask| == 4
    ensures Masked(Masked(payload, mask), mask) == payload
  {
    forall i | 0 <= i < |payload| ensures Masked(Masked(payload, mask), mask)[i] == payload[i] {
      XorIsInvolution(payload[i], mask[i % 4]);
    }
  }

  /** A bit of the result is set exactly if the bits of the two operands differ. */
  lemma {:induction false} XorBitsDiffer(a: nat, b: nat, bits: nat, k: nat)
    requires k < bits
    ensures Bit(XorBits(a, b, bits), k) <==> Bit(a, k) != Bit(b, k)
  {
    var x, bit := XorBits(a / 2, b / 2, bits - 1), (a % 2 + b % 2) % 2;
    LowBit(x, bit);
    if k == 0 {
      assert Power2(0) == 1;
    } else {
      XorBitsDiffer(a / 2, b / 2, bits - 1, k - 1);
      HalfThenPower(a, Power2(k - 1));
      HalfThenPower(b, Power2(k - 1));
      HalfThenPower(2 * x + bit, Power2(k - 1));
    }
  }

  lemma HalfThenPower(n: nat, p: nat)
    requires p > 0
    ensures n / (2 * p) == n / 2 / p
  {
    var q, r := n / 2 / p, n / 2 % p;
    assert n / 2 == q * p + r;
    var rest := 2 * r + n % 2;
    assert n == q * (2 * p) + rest by {
      assert 2 * (q * p) == q * (2 * p);
    }
    QuotientIs(n, 2 * p, q, rest);
  }

  lemma QuotientIs(n: nat, d: nat, q: nat, r: nat)
    requires n == q * d + r && r < d
    ensures n / d == q
  {
    var e, s := n / d, n % d;
    assert n == e * d + s;
    assert (q - e) * d == q * d - e * d;
    TimesIsMore(q - e, d);
  }

  lemma TimesIsMore(x: int, d: nat)
    ensures x >= 1 ==> x * d >= d
    ensures x <= -1 ==> x * d <= 0 - d
  {
    if x >= 1 {
      assert x * d == (x - 1) * d + d;
    } else if x <= -1 {
      assert x * d == (x + 1) * d - d;
    }
  }

  /** Exclusive or, bit by bit. */
  lemma XorIsBitwise(a: byte, b: byte, k: nat)
    requires k < 8
    ensures Bit(Xor(a, b), k) <==> Bit(a, k) != Bit(b, k)
  {
    XorBitsDiffer(a, b, 8, k);
  }

  /** Every bit of every octet of a masked payload, by the mask's octets in turn (section 5.3). */
  lemma MaskedIsBitwise(payload: seq<byte>, mask: seq<byte>, i: nat, k: nat)
    requires |mask| == 4 && i < |payload| && k < 8
    ensures Bit(Masked(payload, mask)[i], k) <==> Bit(payload[i], k) != Bit(mask[i % 4], k)
  {
    XorIsBitwise(payload[i], mask[i % 4], k);
  }

  lemma XorIsInvolution(a: byte, b: byte)
    ensures Xor(Xor(a, b), b) == a
  {
    assert Power2(8) == 256 by {
      assert Power2(4) == 16;
    }
    XorTwice(a, b, 8);
  }

  // ---------------------------------------------------------------- headers

  /** The form in which `build_header` writes a length: the shortest there is. */
  function FormOf(size: nat): Form {
    if size < 126 then SHORT else if size < 0x1_0000 then MEDIUM else LONG
  }

  /** What is built is, for every opcode and size, the head of a final frame without a mask. */
  lemma BuiltHeaderIsFrameHead(opcode: nat, payload: seq<byte>, little: bool)
    requires opcode < 16 && |payload| < 0x1_0000_0000_0000_0000
    ensures IsFrame(Frame(true, opcode, FormOf(|payload|), None, payload))
    ensures BuildHeader(opcode, |payload|, little) == FrameHead(Frame(true, opcode, FormOf(|payload|), None, payload))
  {
    SwapStores(|payload|, 2, little);
    Swap64Stores(|payload|, little);
  }

  // ---------------------------------------------------------------- reassembly

  lemma {:induction false} HandleBoth(inbox: Inbox, a: seq<Frame>, b: seq<Frame>)
    ensures HandleAll(inbox, a + b) == HandleAll(HandleAll(inbox, a), b)
    decreases |b|
  {
    if b == [] {
      assert a + b == a;
    } else {
      assert (a + b)[..|a + b| - 1] == a + b[..|b| - 1];
      HandleBoth(inbox, a, b[..|b| - 1]);
    }
  }

  lemma HandleOne(inbox: Inbox, f: Frame)
    ensures HandleAll(inbox, [f]) == Handle(inbox, f.opcode, f.fin, f.payload)
  {
    assert [f][..0] == [];
  }

  /** A fragment of a message, with the pings and pongs that come before it. */
  datatype Part = Part(controls: seq<Frame>, form: Form, mask: Option<seq<byte>>, payload: seq<byte>)

  /** A message and its fragments. */
  datatype Item = Item(binary: bool, parts: seq<Part>)

  predicate IsControl(f: Frame) {
    IsFrame(f) && f.fin && (f.opcode == 9 || f.opcode == 10) && |f.payload| < 126
  }

  /** Sections 5.4 and 5.5: a message has at least one fragment, and control frames are not fragmented. */
  predicate ValidItem(item: Item) {
    item.parts != [] && forall p :: p in item.parts ==> forall c :: c in p.controls ==> IsControl(c)
  }

  /** The first fragment has the type of the message, the others continue it, the last is final. */
  function FramesOfParts(parts: seq<Part>, opcode: nat): seq<Frame> {
    if parts == [] then []
    else
      var first := Frame(|parts| == 1, opcode, parts[0].form, parts[0].mask, parts[0].payload);
      parts[0].controls + ([first] + FramesOfParts(parts[1..], 0))
  }

  function FramesOf(item: Item): seq<Frame> {
    FramesOfParts(item.parts, if item.binary then 2 else 1)
  }

  function Stream(items: seq<Item>): seq<Frame> {
    if items == [] then [] else FramesOf(items[0]) + Stream(items[1..])
  }

  function Payloads(parts: seq<Part>): seq<byte> {
    if parts == [] then [] else parts[0].payload + Payloads(parts[1..])
  }

  /** The messages that were sent. */
  function Messages(items: seq<Item>): seq<Message> {
    if items == [] then [] else [Message(Payloads(items[0].parts), items[0].binary)] + Messages(items[1..])
  }

  function Pings(frames: seq<Frame>): seq<seq<byte>> {
    if frames == [] then []
    else (if frames[0].opcode == 9 then [frames[0].payload] else []) + Pings(frames[1..])
  }

  lemma {:induction false} PingsOfBoth(a: seq<Frame>, b: seq<Frame>)
    ensures Pings(a + b) == Pings(a) + Pings(b)
    decreases |a|
  {
    if a == [] {
      assert a + b == b;
    } else {
      assert (a + b)[1..] == a[1..] + b;
      PingsOfBoth(a[1..], b);
    }
  }

  lemma PingsOfOne(f: Frame)
    ensures Pings([f]) == if f.opcode == 9 then [f.payload] else []
  {
    assert Pings([f][1..]) == [];
  }

  /** Control frames leave a message in parts alone. */
  lemma {:induction false} HandleControls(inbox: Inbox, controls: seq<Frame>)
    requires inbox.closed.None? && forall c :: c in controls ==> IsControl(c)
    ensures HandleAll(inbox, controls) == inbox.(pongs := inbox.pongs + Pings(controls))
    decreases |controls|
  {
    hide HandleAll, Pings;
    if controls == [] {
      HandleNothing(inbox);
    } else {
      var c, rest := controls[0], controls[1..];
      assert controls == [c] + rest;
      assert c in controls;
      HandleBoth(inbox, [c], rest);
      HandleOne(inbox, c);
      PingsOfBoth([c], rest);
      PingsOfOne(c);
      HandleControls(Handle(inbox, c.opcode, c.fin, c.payload), rest);
      assert inbox.pongs + Pings([c]) + Pings(rest) == inbox.pongs + (Pings([c]) + Pings(rest));
    }
  }

  lemma HandleNothing(inbox: Inbox)
    ensures HandleAll(inbox, []) == inbox && Pings([]) == [] && inbox.pongs + [] == inbox.pongs
  {
  }

  /** Control frames, a fragment, and what comes then. */
  lemma HandleStep(inbox: Inbox, controls: seq<Frame>, frame: Frame, more: seq<Frame>)
    requires inbox.closed.None? && (forall c :: c in controls ==> IsControl(c)) && frame.opcode <= 2
    ensures HandleAll(inbox, controls + ([frame] + more)) ==
      HandleAll(Handle(inbox.(pongs := inbox.pongs + Pings(controls)), frame.opcode, frame.fin, frame.payload), more)
    ensures Pings(controls + ([frame] + more)) == Pings(controls) + Pings(more)
  {
    hide HandleAll, Pings;
    HandleControls(inbox, controls);
    var quiet := inbox.(pongs := inbox.pongs + Pings(controls));
    HandleBoth(inbox, controls, [frame] + more);
    HandleBoth(quiet, [frame], more);
    HandleOne(quiet, frame);
    PingsOfBoth(controls, [frame] + more);
    PingsOfBoth([frame], more);
    PingsOfOne(frame);
    assert [] + Pings(more) == Pings(more);
  }

  /** What a message leaves behind. */
  function Received(inbox: Inbox, payload: seq<byte>, binary: bool, pings: seq<seq<byte>>): Inbox {
    inbox.(partial := [], binary := binary, pongs := inbox.pongs + pings,
           delivered := inbox.delivered + [Message(inbox.partial + payload, binary)])
  }

  lemma {:induction false} HandleParts(inbox: Inbox, parts: seq<Part>, opcode: nat)
    requires inbox.closed.None? && parts != []
    requires forall p :: p in parts ==> forall c :: c in p.controls ==> IsControl(c)
    requires opcode == 0 || (inbox.partial == [] && (opcode == 1 || opcode == 2))
    ensures HandleAll(inbox, FramesOfParts(parts, opcode)) ==
            Received(inbox, Payloads(parts), if opcode == 0 then inbox.binary else opcode == 2,
                     Pings(FramesOfParts(parts, opcode)))
    decreases |parts|
  {
    hide HandleAll, Pings, FramesOfParts, Payloads;
    var part, rest := parts[0], parts[1..];
    var frame := Frame(|parts| == 1, opcode, part.form, part.mask, part.payload);
    var more := FramesOfParts(rest, 0);
    assert part in parts;
    PartsBegin(parts, opcode);
    HandleStep(inbox, part.controls, frame, more);
    var pongs := inbox.pongs + Pings(part.controls);
    assert pongs + Pings(more) == inbox.pongs + (Pings(part.controls) + Pings(more));
    var next := Handle(inbox.(pongs := pongs), opcode, frame.fin, frame.payload);
    assert inbox.partial + part.payload + Payloads(rest) == inbox.partial + (part.payload + Payloads(rest));
    if |parts| == 1 {
      HandleNothing(next);
      assert part.payload + [] == part.payload;
    } else {
      HandleParts(next, rest, 0);
    }
  }

  lemma PartsBegin(parts: seq<Part>, opcode: nat)
    requires parts != []
    ensures FramesOfParts(parts, opcode) == parts[0].controls
      + ([Frame(|parts| == 1, opcode, parts[0].form, parts[0].mask, parts[0].payload)] + FramesOfParts(parts[1..], 0))
    ensures Payloads(parts) == parts[0].payload + Payloads(parts[1..])
    ensures |parts| == 1 ==> FramesOfParts(parts[1..], 0) == [] && Payloads(parts[1..]) == []
  {
  }

  /**
    Any valid stream: every message reaches the handler once, whole, in order and with the type of its
    first fragment, and every ping is to be answered with its own payload.
   */
  lemma {:induction false} StreamIsMessages(inbox: Inbox, items: seq<Item>)
    requires inbox.partial == [] && inbox.closed.None? && forall item :: item in items ==> ValidItem(item)
    ensures var after := HandleAll(inbox, Stream(items));
      && after.delivered == inbox.delivered + Messages(items)
      && after.pongs == inbox.pongs + Pings(Stream(items))
      && after.partial == [] && after.closed.None? && after.sentClose == inbox.sentClose
    decreases |items|
  {
    hide HandleAll, Pings, FramesOfParts, Payloads;
    if items == [] {
      HandleNothing(inbox);
    } else {
      var item, rest := items[0], items[1..];
      assert ValidItem(item);
      HandleParts(inbox, item.parts, if item.binary then 2 else 1);
      var frames := FramesOf(item);
      var next := HandleAll(inbox, frames);
      HandleBoth(inbox, frames, Stream(rest));
      PingsOfBoth(frames, Stream(rest));
      StreamIsMessages(next, rest);
      assert [] + Payloads(item.parts) == Payloads(item.parts);
      var message := [Message(Payloads(item.parts), item.binary)];
      assert inbox.delivered + message + Messages(rest) == inbox.delivered + (message + Messages(rest));
      assert inbox.pongs + Pings(frames) + Pings(Stream(rest)) == inbox.pongs + (Pings(frames) + Pings(Stream(rest)));
    }
  }

  /** Behind a close frame nothing is handled. */
  lemma {:induction false} ClosedStays(inbox: Inbox, frames: seq<Frame>)
    requires inbox.closed.Some?
    ensures HandleAll(inbox, frames) == inbox
    decreases |frames|
  {
    if frames != [] {
      ClosedStays(inbox, frames[..|frames| - 1]);
    }
  }

  /** What a stream of messages amounts to with a close frame behind it, or with nothing. */
  lemma ClosedStream(items: seq<Item>, tail: seq<Frame>, sentClose: bool)
    requires forall item :: item in items ==> ValidItem(item)
    requires tail != [] ==> tail[0].opcode == 8
    ensures var after := HandleAll(EMPTY_INBOX.(sentClose := sentClose), Stream(items) + tail);
      && after.delivered == Messages(items) && after.pongs == Pings(Stream(items))
      && after.closed == if tail == [] then None else Some(ClosingOf(tail[0].payload, sentClose))
  {
    hide Stream, Messages, Pings, HandleAll;
    var inbox := EMPTY_INBOX.(sentClose := sentClose);
    StreamIsMessages(inbox, items);
    assert [] + Messages(items) == Messages(items) && [] + Pings(Stream(items)) == Pings(Stream(items));
    HandleBoth(inbox, Stream(items), tail);
    var before := HandleAll(inbox, Stream(items));
    if tail == [] {
      HandleNothing(before);
    } else {
      assert tail == [tail[0]] + tail[1..];
      HandleBoth(before, [tail[0]], tail[1..]);
      HandleOne(before, tail[0]);
      ClosedStays(HandleAll(before, [tail[0]]), tail[1..]);
    }
  }
}
