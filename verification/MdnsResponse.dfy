/**
  What a peer learns from a response of `3rdparty/mdns.h`, said of the records that were given and the
  entries that are received, in the terms of RFC 1035 and RFC 6762.
 */
module MdnsResponse {
  import opened Wrappers
  import opened Bytes
  import opened MdnsDecode
  import opened MdnsEncode
  import opened MdnsRoundTrip
  import opened MdnsMessage
  import opened MdnsMessageProof
  import opened MdnsMessageRoundTrip

  /** Section 3.2.2 of RFC 1035, section 2.1 of RFC 3596 and the description of SRV in RFC 2782. */
  function TypeCode(data: Data): nat {
    match data
    case A(_) => 1
    case Ptr(_) => 12
    case Txt(_, _) => 16
    case Aaaa(_) => 28
    case Srv(_, _, _, _) => 33
    case Plain(t) => t
  }

  /** A goodbye has lifetime zero; otherwise the record's own counts, and the default where it has none. */
  function Lifetime(own: nat, ttl: nat): nat {
    if ttl == 0 then 0 else if own != 0 then own else ttl
  }

  /**
    Of the record's class, or the default where it has none, the lowest bit and the highest are kept:
    IN and the cache-flush bit, which a pointer record never has.
   */
  predicate KeepsClass(rclass: nat, r: Record, default: nat) {
    forall k: nat :: k < 16 ==>
      (Bit(rclass, k) <==> (k == 0 || (k == 15 && !r.data.Ptr?)) && Bit(if r.rclass != 0 then r.rclass else default, k))
  }

  /** The entry has the name, type, class and lifetime of the record. */
  predicate TellsHead(b: seq<byte>, e: Entry, r: Record, rclass: uint16, ttl: uint32, n: nat) {
    && Extracted(b, e.nameOffset, n) == AsRead(r.name, n)
    && e.rtype == TypeCode(r.data) && e.ttl == Lifetime(r.ttl, ttl) && KeepsClass(e.rclass, r, rclass)
  }

  /** Its data is that of the record; a service on the root name comes back empty. */
  predicate TellsData(b: seq<byte>, e: Entry, data: Data, n: nat)
    requires !data.Txt?
  {
    var offset, length := e.recordOffset, e.recordLength;
    match data
    case Ptr(target) => ParsePtr(b, offset, length, n) == AsRead(target, n)
    case Srv(priority, weight, port, host) =>
      ParseSrv(b, offset, length, n) ==
      if host == ['.' as int] then SrvData(0, 0, 0, []) else SrvData(priority, weight, port, AsRead(host, n))
    case A(address) => ParseAddress(b, offset, length, 4) == address
    case Aaaa(address) => ParseAddress(b, offset, length, 16) == address
    case Plain(_) => length == 0
  }

  function PlainOnes(rs: seq<Record>): (ps: seq<Record>)
    ensures forall i :: 0 <= i < |ps| ==> !ps[i].data.Txt?
  {
    if rs == [] then [] else (if rs[0].data.Txt? then [] else [rs[0]]) + PlainOnes(rs[1..])
  }

  function TextOnes(rs: seq<Record>): (ts: seq<Record>)
    ensures forall i :: 0 <= i < |ts| ==> ts[i].data.Txt?
  {
    if rs == [] then [] else (if rs[0].data.Txt? then [rs[0]] else []) + TextOnes(rs[1..])
  }

  /**
    A section: its records other than text records, in order, and behind them its text records as one,
    under the name, class and lifetime of the first, with all their pairs in order.
   */
  ghost predicate TellsSection(b: seq<byte>, es: seq<Entry>, rs: seq<Record>, rclass: uint16, ttl: uint32, n: nat) {
    var plain, texts := PlainOnes(rs), TextOnes(rs);
    && |es| == |plain| + (if texts == [] then 0 else 1)
    && (forall i :: 0 <= i < |plain| ==> Tells(b, es[i], plain[i], rclass, ttl, n))
    && (texts != [] ==> TellsTexts(b, es[|plain|], texts, rclass, ttl, n))
  }

  predicate Tells(b: seq<byte>, e: Entry, r: Record, rclass: uint16, ttl: uint32, n: nat)
    requires !r.data.Txt?
  {
    TellsHead(b, e, r, rclass, ttl, n) && TellsData(b, e, r.data, n)
  }

  ghost predicate TellsTexts(b: seq<byte>, e: Entry, texts: seq<Record>, rclass: uint16, ttl: uint32, n: nat)
    requires texts != [] && forall i :: 0 <= i < |texts| ==> texts[i].data.Txt?
  {
    && TellsHead(b, e, texts[0], rclass, ttl, n) && e.recordOffset + e.recordLength <= |b|
    && (|texts| <= n ==>
          var pairs := ParseTxt(b, e.recordOffset, e.recordOffset + e.recordLength, n);
          && |pairs| == |texts|
          && forall i :: 0 <= i < |texts| ==> pairs[i] == Pair(texts[i].data.key, Some(texts[i].data.value)))
  }

  /** The names that the round trip is for: at most 64 labels of 1 to 63 octets (section 2.3.4 of RFC 1035). */
  lemma WellFormedMeans(labels: seq<Label>)
    ensures WellFormed(labels) <==> |labels| <= 64 && forall i :: 0 <= i < |labels| ==> 1 <= |labels[i]| <= 63
  {
    assert forall i :: 0 <= i < |labels| ==> labels[i] in labels;
  }

  // ---------------------------------------------------------------- one record

  lemma UpdatedHead(r: Record, rclass: uint16, ttl: uint32)
    ensures var u := Update(r, rclass, ttl);
      && u.name == r.name && u.data == r.data && u.ttl == Lifetime(r.ttl, ttl) && KeepsClass(u.rclass, r, rclass)
  {
    var u := Update(r, rclass, ttl);
    var c := if r.rclass != 0 then r.rclass else rclass;
    var high, low := if r.data.Ptr? then 0 else c / 0x8000, c % 2;
    assert u.rclass == high * 0x8000 + low;
    forall k: nat | k < 16
      ensures Bit(u.rclass, k) <==> (k == 0 || (k == 15 && !r.data.Ptr?)) && Bit(c, k)
    {
      EndBits(c);
      TwoBits(high, low, k);
    }
  }

  lemma EndBits(c: uint16)
    ensures (Bit(c, 0) <==> c % 2 == 1) && (Bit(c, 15) <==> c / 0x8000 == 1)
  {
    PowersOf2();
  }

  lemma PowersOf2()
    ensures Power2(0) == 1 && Power2(1) == 2 && Power2(2) == 4 && Power2(3) == 8 && Power2(4) == 0x10
    ensures Power2(5) == 0x20 && Power2(6) == 0x40 && Power2(7) == 0x80 && Power2(8) == 0x100 && Power2(9) == 0x200
    ensures Power2(10) == 0x400 && Power2(11) == 0x800 && Power2(12) == 0x1000 && Power2(13) == 0x2000
    ensures Power2(14) == 0x4000 && Power2(15) == 0x8000
  {
    assert Power2(3) == 8;
    assert Power2(6) == 0x40;
    assert Power2(9) == 0x200;
    assert Power2(12) == 0x1000;
    assert Power2(14) == 0x4000;
  }

  /** A number with nothing but its lowest and its highest bit of sixteen. */
  lemma TwoBits(high: nat, low: nat, k: nat)
    requires high < 2 && low < 2 && k < 16
    ensures Bit(high * 0x8000 + low, k) <==> (k == 0 && low == 1) || (k == 15 && high == 1)
  {
    PowersOf2();
    var p := Power2(k);
    if 0 < k < 15 {
      MiddleBit(high, low, k);
    }
  }

  lemma MiddleBit(high: nat, low: nat, k: nat)
    requires high < 2 && low < 2 && 0 < k < 15
    ensures !Bit(high * 0x8000 + low, k)
  {
    PowersOf2();
    var n := high * 0x8000 + low;
    assert n / 2 == high * 0x4000 && n / 4 == high * 0x2000 && n / 8 == high * 0x1000 && n / 0x10 == high * 0x800;
    assert n / 0x20 == high * 0x400 && n / 0x40 == high * 0x200 && n / 0x80 == high * 0x100 && n / 0x100 == high * 0x80;
    assert n / 0x200 == high * 0x40 && n / 0x400 == high * 0x20 && n / 0x800 == high * 0x10;
    assert n / 0x1000 == high * 8 && n / 0x2000 == high * 4 && n / 0x4000 == high * 2;
  }

  lemma NameTold(b: seq<byte>, e: Entry, name: Text, n: nat)
    requires Name(b, e.nameOffset) == Some(NameLabels(name))
    ensures Extracted(b, e.nameOffset, n) == AsRead(name, n)
  {
    hide ReadName, Labels, Dotted, WithDot;
    DottedOfLabels(TrimDot(name));
  }

  lemma HeadTold(b: seq<byte>, e: Entry, r: Record, w: Wire, rclass: uint16, ttl: uint32, n: nat)
    requires Describes(b, e, w, n) && w.name == NameLabels(r.name) && w.rtype == r.data.Type()
    requires w.rclass == Update(r, rclass, ttl).rclass && w.ttl == Update(r, rclass, ttl).ttl
    ensures TellsHead(b, e, r, rclass, ttl, n)
  {
    hide Update, KeepsClass, Lifetime, ReadName, DataRead, AsRead;
    UpdatedHead(r, rclass, ttl);
    NameTold(b, e, r.name, n);
  }

  lemma RootHost(host: Text)
    ensures NameLabels(host) == [] <==> host == [DOT]
    ensures Dotted(NameLabels(host)) == WithDot(TrimDot(host))
  {
    hide Labels, Dotted;
    DottedOfLabels(TrimDot(host));
    NoLabelsIff(TrimDot(host));
  }

  lemma NoLabelsIff(s: seq<byte>)
    ensures Labels(s) == [] <==> s == []
  {
  }

  lemma DataTold(b: seq<byte>, e: Entry, data: Data, n: nat)
    requires !data.Txt? && DataRead(b, e.recordOffset, e.recordLength, BodyOf(data), n)
    ensures TellsData(b, e, data, n)
  {
    hide NameLabels, Dotted, WithDot;
    match data {
      case Ptr(target) => RootHost(target);
      case Srv(_, _, _, host) => RootHost(host);
      case _ =>
    }
  }

  lemma RecordTold(b: seq<byte>, e: Entry, r: Record, rclass: uint16, ttl: uint32, n: nat)
    requires !r.data.Txt? && Describes(b, e, WireOf(Update(r, rclass, ttl)), n)
    ensures Tells(b, e, r, rclass, ttl, n)
  {
    hide Update, BodyOf, TellsHead, TellsData, ReadName, DataRead;
    UpdatedHead(r, rclass, ttl);
    HeadTold(b, e, r, WireOf(Update(r, rclass, ttl)), rclass, ttl, n);
    DataTold(b, e, r.data, n);
  }

  // ---------------------------------------------------------------- sections

  lemma {:induction false} DescribedAt(b: seq<byte>, es: seq<Entry>, ws: seq<Wire>, n: nat, i: nat)
    requires DescribesAll(b, es, ws, n) && i < |ws|
    ensures |es| == |ws| && Describes(b, es[i], ws[i], n)
    decreases |ws|
  {
    hide Describes;
    if i > 0 {
      DescribedAt(b, es[1..], ws[1..], n, i - 1);
    }
  }

  lemma {:induction false} PlainWireAt(rs: seq<Record>, rclass: uint16, ttl: uint32, i: nat)
    requires i < |PlainOnes(rs)|
    ensures i < |PlainWires(rs, rclass, ttl)|
    ensures PlainWires(rs, rclass, ttl)[i] == WireOf(Update(PlainOnes(rs)[i], rclass, ttl))
    ensures !Update(PlainOnes(rs)[i], rclass, ttl).data.Txt?
    decreases |rs|
  {
    hide WireOf;
    if rs[0].data.Txt? {
      PlainWireAt(rs[1..], rclass, ttl, i);
    } else if i > 0 {
      PlainWireAt(rs[1..], rclass, ttl, i - 1);
    }
  }

  lemma {:induction false} PlainWireCount(rs: seq<Record>, rclass: uint16, ttl: uint32)
    ensures |PlainWires(rs, rclass, ttl)| == |PlainOnes(rs)|
  {
    if rs != [] {
      PlainWireCount(rs[1..], rclass, ttl);
    }
  }

  lemma {:induction false} TxtWireIs(rs: seq<Record>, rclass: uint16, ttl: uint32)
    ensures TxtWires(rs, rclass, ttl) ==
            if TextOnes(rs) == [] then [] else [TxtWire(Update(TextOnes(rs)[0], rclass, ttl), Pairs(rs))]
    decreases |rs|
  {
    hide TxtWire, Update;
    if rs != [] && !rs[0].data.Txt? {
      TxtWireIs(rs[1..], rclass, ttl);
    }
  }

  lemma {:induction false} PairAt(rs: seq<Record>)
    ensures |Pairs(rs)| == |TextOnes(rs)| == |AsPairs(Pairs(rs))|
    ensures forall i :: 0 <= i < |TextOnes(rs)| ==>
      AsPairs(Pairs(rs))[i] == Pair(TextOnes(rs)[i].data.key, Some(TextOnes(rs)[i].data.value))
    decreases |rs|
  {
    if rs != [] {
      PairAt(rs[1..]);
      if rs[0].data.Txt? {
        var pair, rest := (rs[0].data.key, rs[0].data.value), Pairs(rs[1..]);
        assert ([pair] + rest)[1..] == rest;
        assert AsPairs(Pairs(rs)) == [Pair(pair.0, Some(pair.1))] + AsPairs(rest);
      }
    }
  }

  lemma TextsTold(b: seq<byte>, e: Entry, rs: seq<Record>, rclass: uint16, ttl: uint32, n: nat)
    requires TextOnes(rs) != []
    requires Describes(b, e, TxtWire(Update(TextOnes(rs)[0], rclass, ttl), Pairs(rs)), n)
    ensures TellsTexts(b, e, TextOnes(rs), rclass, ttl, n)
  {
    hide Update, TellsHead, ReadName;
    var first := TextOnes(rs)[0];
    UpdatedHead(first, rclass, ttl);
    HeadTold(b, e, first, TxtWire(Update(first, rclass, ttl), Pairs(rs)), rclass, ttl, n);
    PairAt(rs);
  }

  lemma SectionTold(b: seq<byte>, es: seq<Entry>, rs: seq<Record>, rclass: uint16, ttl: uint32, n: nat)
    requires DescribesAll(b, es, SectionWires(rs, rclass, ttl), n)
    ensures TellsSection(b, es, rs, rclass, ttl, n)
  {
    hide DescribesAll, Describes, WireOf, Update, Tells, TellsTexts, TxtWire, PlainWires;
    var plain, ws := PlainOnes(rs), SectionWires(rs, rclass, ttl);
    PlainWireCount(rs, rclass, ttl);
    TxtWireIs(rs, rclass, ttl);
    SameCount(b, es, ws, n);
    forall i | 0 <= i < |plain| ensures Tells(b, es[i], plain[i], rclass, ttl, n) {
      PlainWireAt(rs, rclass, ttl, i);
      DescribedAt(b, es, ws, n, i);
      RecordTold(b, es[i], plain[i], rclass, ttl, n);
    }
    if TextOnes(rs) != [] {
      DescribedAt(b, es, ws, n, |plain|);
      TextsTold(b, es[|plain|], rs, rclass, ttl, n);
    }
  }

  lemma SameCount(b: seq<byte>, es: seq<Entry>, ws: seq<Wire>, n: nat)
    requires DescribesAll(b, es, ws, n)
    ensures |es| == |ws|
  {
  }

  // ---------------------------------------------------------------- the response

  lemma HeaderIs(authority: nat, additional: nat)
    ensures MessageHeader(authority, additional)[..8] == [0, 0, 0x84, 0, 0, 0, 0, 1]
  {
    assert Octets16(0x8400) == [0x84, 0] && Octets16(0) == [0, 0] && Octets16(1) == [0, 1];
  }

  /**
    The round trip of a whole response. Whatever is put together, from records whose names are well
    formed and disciplined and whose keys are proper, is an authoritative answer with identifier zero
    and no questions; the peer is told of the answer and of both sections, record by record: names,
    types, classes, lifetimes and data are those given, under the defaults for this response.
   */
  lemma MessageRoundTrip(b: seq<byte>, answer: Record, authority: seq<Record>, additional: seq<Record>,
                         rclass: uint16, ttl: uint32, q: Packet, finals: set<Label>, capacity: nat)
    requires HEADER_SIZE <= |b| && ZeroFrom(b, HEADER_SIZE)
    requires RecordGood(answer, finals) && RecordsGood(authority, finals) && RecordsGood(additional, finals)
    requires !answer.data.Txt?
    requires Assemble(b, answer, authority, additional, rclass, ttl) == Some(q) && q.w <= 0x4000
    ensures HEADER_SIZE <= q.w <= |q.b| && q.b[..8] == [0, 0, 0x84, 0, 0, 0, 0, 1]
    ensures var sent := q.b[..q.w];
            var r := Receive(sent);
            && |r.answers| == 1 && Tells(sent, r.answers[0], answer, rclass, ttl, capacity)
            && TellsSection(sent, r.authority, authority, rclass, ttl, capacity)
            && TellsSection(sent, r.additional, additional, rclass, ttl, capacity)
  {
    hide Assemble, RecordGood, Receive, WireOf, Update, SectionWires, TellsSection, Tells, Describes, MessageHeader;
    WiresReceived(b, answer, authority, additional, rclass, ttl, q, finals, capacity);
    HeaderIs(RecordCount(authority), RecordCount(additional));
    assert q.b[..8] == q.b[..HEADER_SIZE][..8];
    var sent := q.b[..q.w];
    var r := Receive(sent);
    UpdatedHead(answer, rclass, ttl);
    DescribedAt(sent, r.answers, [WireOf(Update(answer, rclass, ttl))], capacity, 0);
    RecordTold(sent, r.answers[0], answer, rclass, ttl, capacity);
    SectionTold(sent, r.authority, authority, rclass, ttl, capacity);
    SectionTold(sent, r.additional, additional, rclass, ttl, capacity);
  }
}
