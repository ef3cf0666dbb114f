/**
  A response that has been put together reads back: the counts of its header are the numbers of its
  records, and every record has its name, class, lifetime and data again.
 */
module MdnsMessageProof {
  import opened Wrappers
  import opened Bytes
  import opened MdnsDecode
  import opened MdnsEncode
  import opened MdnsRoundTrip
  import opened MdnsMessage

  // ---------------------------------------------------------------- records on the wire

  datatype Body =
    | Target(labels: seq<Label>)
    | Service(priority: uint16, weight: uint16, port: uint16, host: seq<Label>)
    | Octets(octets: seq<byte>)
    | Strings(pairs: seq<(seq<byte>, seq<byte>)>)

  datatype Wire = Wire(name: seq<Label>, rtype: uint16, rclass: uint16, ttl: uint32, body: Body)

  function BodyOf(data: Data): Body
    requires !data.Txt?
  {
    match data
    case Ptr(target) => Target(NameLabels(target))
    case Srv(priority, weight, port, host) => Service(priority, weight, port, NameLabels(host))
    case A(address) => Octets(address)
    case Aaaa(address) => Octets(address)
    case Plain(_) => Octets([])
  }

  function WireOf(r: Record): Wire
    requires !r.data.Txt?
  {
    Wire(NameLabels(r.name), r.data.Type(), r.rclass, r.ttl, BodyOf(r.data))
  }

  function PairsOctets(pairs: seq<(seq<byte>, seq<byte>)>): seq<byte> {
    if pairs == [] then [] else TxtOctets(pairs[0].0, pairs[0].1) + PairsOctets(pairs[1..])
  }

  function FixedOctets(w: Wire): (s: seq<byte>)
    ensures |s| == 8
  {
    Octets16(w.rtype) + Octets16(w.rclass) + Octets32(w.ttl)
  }

  /** The octets at `pos` are final, and are these. */
  ghost predicate OctetsAt(b: seq<byte>, known: set<nat>, pos: nat, s: seq<byte>) {
    pos + |s| <= |b| && Known(known, pos, pos + |s|) && b[pos..pos + |s|] == s
  }

  ghost predicate BodyAt(b: seq<byte>, known: set<nat>, pos: nat, end: nat, body: Body) {
    match body
    case Target(labels) => NameAt(b, known, pos, end, labels)
    case Service(priority, weight, port, host) =>
      && OctetsAt(b, known, pos, Octets16(priority) + Octets16(weight) + Octets16(port))
      && NameAt(b, known, pos + 6, end, host) && (host == [] ==> end == pos + 7)
    case Octets(s) => OctetsAt(b, known, pos, s) && end == pos + |s|
    case Strings(pairs) => OctetsAt(b, known, pos, PairsOctets(pairs)) && end == pos + |PairsOctets(pairs)|
  }

  /** Name and fixed fields stand in front of `start`; the length right before it may still be open. */
  ghost predicate HeadAt(b: seq<byte>, known: set<nat>, pos: nat, start: nat, w: Wire) {
    && NameEnd(b, pos) + 10 == start <= |b|
    && NameAt(b, known, pos, NameEnd(b, pos), w.name)
    && OctetsAt(b, known, NameEnd(b, pos), FixedOctets(w))
  }

  ghost predicate WireAt(b: seq<byte>, known: set<nat>, pos: nat, start: nat, end: nat, w: Wire) {
    && HeadAt(b, known, pos, start, w)
    && start <= end && end - start < 0x1_0000
    && OctetsAt(b, known, start - 2, Octets16(end - start))
    && BodyAt(b, known, start, end, w.body)
  }

  lemma OctetsAtAgrees(b: seq<byte>, known: set<nat>, pos: nat, s: seq<byte>, c: seq<byte>, known': set<nat>)
    requires OctetsAt(b, known, pos, s) && Agree(b, known, c) && known <= known' && pos + |s| <= |c|
    ensures OctetsAt(c, known', pos, s)
  {
    assert forall i :: pos <= i < pos + |s| ==> i in known && c[i] == b[i];
  }

  lemma BodyAtAgrees(b: seq<byte>, known: set<nat>, pos: nat, end: nat, body: Body, c: seq<byte>, known': set<nat>)
    requires BodyAt(b, known, pos, end, body) && Agree(b, known, c) && known <= known' && end <= |c|
    ensures BodyAt(c, known', pos, end, body)
  {
    match body
    case Target(labels) => NameAtAgrees(b, known, pos, end, labels, c, known');
    case Service(priority, weight, port, host) =>
      OctetsAtAgrees(b, known, pos, Octets16(priority) + Octets16(weight) + Octets16(port), c, known');
      NameAtAgrees(b, known, pos + 6, end, host, c, known');
    case Octets(s) => OctetsAtAgrees(b, known, pos, s, c, known');
    case Strings(pairs) => OctetsAtAgrees(b, known, pos, PairsOctets(pairs), c, known');
  }

  lemma HeadAtAgrees(b: seq<byte>, known: set<nat>, pos: nat, start: nat, w: Wire, c: seq<byte>, known': set<nat>)
    requires HeadAt(b, known, pos, start, w) && Agree(b, known, c) && known <= known' && start <= |c|
    ensures HeadAt(c, known', pos, start, w)
  {
    NameAtAgrees(b, known, pos, NameEnd(b, pos), w.name, c, known');
    OctetsAtAgrees(b, known, NameEnd(b, pos), FixedOctets(w), c, known');
  }

  lemma WireAtAgrees(b: seq<byte>, known: set<nat>, pos: nat, start: nat, end: nat, w: Wire,
                     c: seq<byte>, known': set<nat>)
    requires WireAt(b, known, pos, start, end, w) && Agree(b, known, c) && known <= known' && end <= |c|
    ensures WireAt(c, known', pos, start, end, w)
  {
    HeadAtAgrees(b, known, pos, start, w, c, known');
    OctetsAtAgrees(b, known, start - 2, Octets16(end - start), c, known');
    BodyAtAgrees(b, known, start, end, w.body, c, known');
  }

  /** Records one after the other, from `pos` to `end`. */
  ghost predicate WiresAt(b: seq<byte>, known: set<nat>, pos: nat, end: nat, ws: seq<Wire>)
    decreases |ws|
  {
    if ws == [] then pos == end
    else exists start, mid :: WireAt(b, known, pos, start, mid, ws[0]) && WiresAt(b, known, mid, end, ws[1..])
  }

  lemma {:induction false} WiresAtAgrees(b: seq<byte>, known: set<nat>, pos: nat, end: nat, ws: seq<Wire>,
                                         c: seq<byte>, known': set<nat>)
    requires WiresAt(b, known, pos, end, ws) && Agree(b, known, c) && known <= known' && end <= |c|
    ensures WiresAt(c, known', pos, end, ws)
    decreases |ws|
  {
    if ws != [] {
      var start, mid :| WireAt(b, known, pos, start, mid, ws[0]) && WiresAt(b, known, mid, end, ws[1..]);
      WiresGrow(b, known, mid, end, ws[1..]);
      WireAtAgrees(b, known, pos, start, mid, ws[0], c, known');
      WiresAtAgrees(b, known, mid, end, ws[1..], c, known');
    }
  }

  /** A record takes at least eleven octets. */
  lemma {:induction false} WiresGrow(b: seq<byte>, known: set<nat>, pos: nat, end: nat, ws: seq<Wire>)
    requires WiresAt(b, known, pos, end, ws)
    ensures pos + 11 * |ws| <= end
    decreases |ws|
  {
    if ws != [] {
      var start, mid :| WireAt(b, known, pos, start, mid, ws[0]) && WiresAt(b, known, mid, end, ws[1..]);
      WiresGrow(b, known, mid, end, ws[1..]);
    }
  }

  lemma {:induction false} WiresAppend(b: seq<byte>, known: set<nat>, pos: nat, mid: nat, end: nat,
                                       ws: seq<Wire>, vs: seq<Wire>)
    requires WiresAt(b, known, pos, mid, ws) && WiresAt(b, known, mid, end, vs)
    ensures WiresAt(b, known, pos, end, ws + vs)
    decreases |ws|
  {
    if ws == [] {
      assert ws + vs == vs;
    } else {
      var w, rest := ws[0], ws[1..];
      var start, next :| WireAt(b, known, pos, start, next, w) && WiresAt(b, known, next, mid, rest);
      WiresAppend(b, known, next, mid, end, rest, vs);
      WiresCons(b, known, pos, start, next, end, w, rest + vs);
      ConsAppend(ws, vs);
    }
  }

  lemma ConsAppend<T>(s: seq<T>, t: seq<T>)
    requires s != []
    ensures s + t == [s[0]] + (s[1..] + t)
  {
  }

  lemma WiresCons(b: seq<byte>, known: set<nat>, pos: nat, start: nat, mid: nat, end: nat, w: Wire, ws: seq<Wire>)
    requires WireAt(b, known, pos, start, mid, w) && WiresAt(b, known, mid, end, ws)
    ensures WiresAt(b, known, pos, end, [w] + ws)
  {
    var all := [w] + ws;
    assert all[0] == w && all[1..] == ws;
    assert WireAt(b, known, pos, start, mid, all[0]) && WiresAt(b, known, mid, end, all[1..]);
  }

  // ---------------------------------------------------------------- writing keeps the state

  /** The state of the writer between two writes. */
  ghost predicate Good(p: Packet, known: set<nat>, names: map<nat, seq<Label>>, finals: set<Label>) {
    Inv(p, known, names) && AllDisciplined(names, finals) && ZeroFrom(p.b, p.w)
  }

  /** Octets that are no name: `known'` may leave some of them open. */
  lemma PutKeeps(p: Packet, s: seq<byte>, known: set<nat>, known': set<nat>, names: map<nat, seq<Label>>,
                 finals: set<Label>)
    requires Good(p, known, names, finals) && p.w + |s| <= |p.b|
    requires OnlyFrom(known, p.w, known') && Below(known', p.w + |s|)
    ensures Good(Put(p, s), known', names, finals) && Agree(p.b, known, Put(p, s).b)
  {
    hide Spells;
    var q := Put(p, s);
    assert Agree(p.b, known, q.b);
    NamesAgree(p.b, known, names, q.b, known');
  }

  lemma PutOctets(p: Packet, s: seq<byte>, known: set<nat>)
    requires p.w + |s| <= |p.b| && Known(known, p.w, p.w + |s|)
    ensures OctetsAt(Put(p, s).b, known, p.w, s)
  {
  }

  /** Filling in an open length field disturbs nothing. */
  lemma FillKeeps(p: Packet, start: nat, known: set<nat>, known': set<nat>, names: map<nat, seq<Label>>,
                  finals: set<Label>)
    requires Good(p, known, names, finals) && 2 <= start <= p.w && p.w - start < 0x1_0000
    requires start - 2 !in known && start - 1 !in known && known' == known + {start - 2, start - 1}
    ensures Good(FillLength(p, start), known', names, finals) && Agree(p.b, known, FillLength(p, start).b)
    ensures OctetsAt(FillLength(p, start).b, known', start - 2, Octets16(p.w - start))
  {
    hide Spells;
    var q := FillLength(p, start);
    assert Agree(p.b, known, q.b);
    NamesAgree(p.b, known, names, q.b, known');
    assert q.b[start - 2..start] == Octets16(p.w - start);
  }

  ghost predicate NameGood(name: Text, finals: set<Label>) {
    WellFormed(NameLabels(name)) && Disciplined(NameLabels(name), finals)
  }

  ghost predicate DataGood(data: Data, finals: set<Label>) {
    match data
    case Ptr(target) => NameGood(target, finals)
    case Srv(_, _, _, host) => NameGood(host, finals)
    case A(_) => true
    case Aaaa(_) => true
    case Txt(key, value) => GoodKey(key) && |key| + |value| + 1 < 0x100
    case Plain(_) => true
  }

  /** Keys as section 6.4 of RFC 6763 asks for them: not empty, printable, and no '='. */
  predicate GoodKey(key: seq<byte>) {
    key != [] && forall i :: 0 <= i < |key| ==> 0x20 <= key[i] <= 0x7E && key[i] != '=' as int
  }

  ghost predicate RecordGood(r: Record, finals: set<Label>) {
    NameGood(r.name, finals) && DataGood(r.data, finals)
  }

  ghost predicate RecordsGood(rs: seq<Record>, finals: set<Label>) {
    forall r :: r in rs ==> RecordGood(r, finals)
  }

  lemma HeaderKeeps(p: Packet, r: Record, h: Packet, w: Wire, known: set<nat>, names: map<nat, seq<Label>>,
                    finals: set<Label>)
    returns (known': set<nat>, names': map<nat, seq<Label>>)
    requires Good(p, known, names, finals) && NameGood(r.name, finals)
    requires RecordHeader(p, r) == Some(h) && h.w <= 0x4000
    requires w.name == NameLabels(r.name) && w.rtype == r.data.Type() && w.rclass == r.rclass && w.ttl == r.ttl
    ensures Good(h, known', names', finals) && OnlyFrom(known, p.w, known') && Agree(p.b, known, h.b)
    ensures HeadAt(h.b, known', p.w, h.w, w) && p.w + 11 <= h.w
    ensures h.w - 2 !in known' && h.w - 1 !in known'
  {
    hide Make, Spells, NamesOk;
    var n := Make(p, w.name).value;
    var known1, names1 := MakeKeeps(p, w.name, n, known, names, finals);
    known', names' := known1 + Range(n.w, n.w + 8), names1;
    PutKeeps(n, HeaderOctets(w.rtype, w.rclass, w.ttl), known1, known', names1, finals);
    HeadWritten(p.w, n, w, known1, known');
  }

  lemma HeadWritten(pos: nat, n: Packet, w: Wire, known: set<nat>, known': set<nat>)
    requires n.w + 10 <= |n.b| && NameAt(n.b, known, pos, n.w, w.name)
    requires known <= known' && Known(known', n.w, n.w + 8)
    requires Agree(n.b, known, Put(n, HeaderOctets(w.rtype, w.rclass, w.ttl)).b)
    ensures HeadAt(Put(n, HeaderOctets(w.rtype, w.rclass, w.ttl)).b, known', pos, n.w + 10, w)
  {
    var s := HeaderOctets(w.rtype, w.rclass, w.ttl);
    var b := Put(n, s).b;
    NameAtAgrees(n.b, known, pos, n.w, w.name, b, known');
    assert b[n.w..n.w + 10] == s;
    assert b[n.w..n.w + 8] == s[..8] == FixedOctets(w);
  }

  lemma DataKeeps(p: Packet, data: Data, q: Packet, known: set<nat>, names: map<nat, seq<Label>>, finals: set<Label>)
    returns (known': set<nat>, names': map<nat, seq<Label>>)
    requires Good(p, known, names, finals) && DataGood(data, finals) && !data.Txt?
    requires RecordData(p, data) == Some(q) && q.w <= 0x4000
    ensures Good(q, known', names', finals) && OnlyFrom(known, p.w, known') && Agree(p.b, known, q.b)
    ensures BodyAt(q.b, known', p.w, q.w, BodyOf(data))
  {
    match data
    case Ptr(target) =>
      known', names' := MakeKeeps(p, NameLabels(target), q, known, names, finals);
    case Srv(priority, weight, port, host) =>
      known', names' := ServiceKeeps(p, priority, weight, port, host, q, known, names, finals);
    case A(address) =>
      known', names' := known + Range(p.w, q.w), names;
      PutKeeps(p, address, known, known', names, finals);
      PutOctets(p, address, known');
    case Aaaa(address) =>
      known', names' := known + Range(p.w, q.w), names;
      PutKeeps(p, address, known, known', names, finals);
      PutOctets(p, address, known');
    case Plain(_) =>
      known', names' := known, names;
      assert q.b[p.w..p.w] == [];
  }

  lemma ServiceKeeps(p: Packet, priority: uint16, weight: uint16, port: uint16, host: Text, q: Packet,
                     known: set<nat>, names: map<nat, seq<Label>>, finals: set<Label>)
    returns (known': set<nat>, names': map<nat, seq<Label>>)
    requires Good(p, known, names, finals) && NameGood(host, finals)
    requires RecordData(p, Srv(priority, weight, port, host)) == Some(q) && q.w <= 0x4000
    ensures Good(q, known', names', finals) && OnlyFrom(known, p.w, known') && Agree(p.b, known, q.b)
    ensures BodyAt(q.b, known', p.w, q.w, Service(priority, weight, port, NameLabels(host)))
  {
    var s := Octets16(priority) + Octets16(weight) + Octets16(port);
    var m := Put(p, s);
    var known1 := known + Range(p.w, m.w);
    PutKeeps(p, s, known, known1, names, finals);
    PutOctets(p, s, known1);
    known', names' := MakeKeeps(m, NameLabels(host), q, known1, names, finals);
    assert Agree(m.b, known1, q.b);
    OctetsAtAgrees(m.b, known1, p.w, s, q.b, known');
  }

  /** One record: it stands where the cursor was, and what stood before still stands. */
  lemma AddRecordKeeps(p: Packet, r: Record, q: Packet, known: set<nat>, names: map<nat, seq<Label>>,
                       finals: set<Label>)
    returns (known': set<nat>, names': map<nat, seq<Label>>)
    requires Good(p, known, names, finals) && RecordGood(r, finals) && !r.data.Txt?
    requires AddRecord(p, r) == Some(q) && q.w <= 0x4000
    ensures Good(q, known', names', finals) && known <= known' && Agree(p.b, known, q.b)
    ensures WiresAt(q.b, known', p.w, q.w, [WireOf(r)])
  {
    var w := WireOf(r);
    var h := RecordHeader(p, r).value;
    var d := RecordData(h, r.data).value;
    var known1, names1 := HeaderKeeps(p, r, h, w, known, names, finals);
    var known2, names2 := DataKeeps(h, r.data, d, known1, names1, finals);
    names' := names2;
    known' := FinishRecord(p, h, d, w, known1, known2, names2, finals);
    OneWire(q.b, known', p.w, h.w, q.w, w);
  }

  lemma OneWire(b: seq<byte>, known: set<nat>, pos: nat, start: nat, end: nat, w: Wire)
    requires WireAt(b, known, pos, start, end, w)
    ensures WiresAt(b, known, pos, end, [w])
  {
    WiresCons(b, known, pos, start, end, end, w, []);
    assert [w] + [] == [w];
  }

  /** Header and data are there: the length makes them a record. */
  lemma FinishRecord(p: Packet, h: Packet, d: Packet, w: Wire, known1: set<nat>, known2: set<nat>,
                     names: map<nat, seq<Label>>, finals: set<Label>)
    returns (known': set<nat>)
    requires HeadAt(h.b, known1, p.w, h.w, w) && p.w + 11 <= h.w <= d.w <= 0x4000
    requires h.w - 2 !in known1 && h.w - 1 !in known1
    requires OnlyFrom(known1, h.w, known2) && Agree(h.b, known1, d.b) && |d.b| == |h.b|
    requires Good(d, known2, names, finals) && BodyAt(d.b, known2, h.w, d.w, w.body)
    ensures Good(FillLength(d, h.w), known', names, finals)
    ensures known2 <= known' && Agree(d.b, known2, FillLength(d, h.w).b)
    ensures WireAt(FillLength(d, h.w).b, known', p.w, h.w, d.w, w)
  {
    hide HeadAt, BodyAt, WireAt, OctetsAt, Spells, FillLength;
    known' := known2 + {h.w - 2, h.w - 1};
    FillKeeps(d, h.w, known2, known', names, finals);
    HeadAtAgrees(h.b, known1, p.w, h.w, w, d.b, known2);
    FilledWire(p.w, d, h.w, w, known2, known');
  }

  lemma FilledWire(pos: nat, d: Packet, start: nat, w: Wire, known: set<nat>, known': set<nat>)
    requires 2 <= start <= d.w <= |d.b| && d.w - start < 0x1_0000 && known <= known'
    requires HeadAt(d.b, known, pos, start, w) && BodyAt(d.b, known, start, d.w, w.body)
    requires Agree(d.b, known, FillLength(d, start).b)
    requires OctetsAt(FillLength(d, start).b, known', start - 2, Octets16(d.w - start))
    ensures WireAt(FillLength(d, start).b, known', pos, start, d.w, w)
  {
    var c := FillLength(d, start).b;
    HeadAtAgrees(d.b, known, pos, start, w, c, known');
    BodyAtAgrees(d.b, known, start, d.w, w.body, c, known');
  }

  // ---------------------------------------------------------------- sections

  /** The records of a section that are not text records, as they are written. */
  function PlainWires(rs: seq<Record>, rclass: uint16, ttl: uint32): seq<Wire> {
    if rs == [] then []
    else if rs[0].data.Txt? then PlainWires(rs[1..], rclass, ttl)
    else [WireOf(Update(rs[0], rclass, ttl))] + PlainWires(rs[1..], rclass, ttl)
  }

  function Pairs(rs: seq<Record>): seq<(seq<byte>, seq<byte>)> {
    if rs == [] then []
    else if rs[0].data.Txt? then [(rs[0].data.key, rs[0].data.value)] + Pairs(rs[1..])
    else Pairs(rs[1..])
  }

  /** All text records of a section as one, under the name, class and lifetime of the first. */
  function TxtWires(rs: seq<Record>, rclass: uint16, ttl: uint32): seq<Wire> {
    if rs == [] then []
    else if rs[0].data.Txt? then [TxtWire(Update(rs[0], rclass, ttl), Pairs(rs))]
    else TxtWires(rs[1..], rclass, ttl)
  }

  function TxtWire(r: Record, pairs: seq<(seq<byte>, seq<byte>)>): Wire {
    Wire(NameLabels(r.name), r.data.Type(), r.rclass, r.ttl, Strings(pairs))
  }

  function SectionWires(rs: seq<Record>, rclass: uint16, ttl: uint32): seq<Wire> {
    PlainWires(rs, rclass, ttl) + TxtWires(rs, rclass, ttl)
  }

  lemma {:induction false} SectionCount(rs: seq<Record>, rclass: uint16, ttl: uint32)
    ensures |PlainWires(rs, rclass, ttl)| == PlainCount(rs)
    ensures |TxtWires(rs, rclass, ttl)| == if HasTxt(rs) then 1 else 0
  {
    if rs != [] {
      SectionCount(rs[1..], rclass, ttl);
    }
  }

  /** A section has as many records on the wire as its header count says. */
  lemma SectionSize(rs: seq<Record>, rclass: uint16, ttl: uint32)
    ensures |SectionWires(rs, rclass, ttl)| == RecordCount(rs)
  {
    SectionCount(rs, rclass, ttl);
  }

  lemma UpdateGood(r: Record, rclass: uint16, ttl: uint32, finals: set<Label>)
    requires RecordGood(r, finals)
    ensures RecordGood(Update(r, rclass, ttl), finals) && Update(r, rclass, ttl).data == r.data
  {
    hide NameGood, DataGood;
  }

  lemma {:induction false} AddRecordsKeeps(p: Packet, rs: seq<Record>, rclass: uint16, ttl: uint32, q: Packet,
                                           known: set<nat>, names: map<nat, seq<Label>>, finals: set<Label>)
    returns (known': set<nat>, names': map<nat, seq<Label>>)
    requires Good(p, known, names, finals) && RecordsGood(rs, finals)
    requires AddRecords(p, rs, rclass, ttl) == Some(q) && q.w <= 0x4000
    ensures Good(q, known', names', finals) && known <= known' && Agree(p.b, known, q.b)
    ensures WiresAt(q.b, known', p.w, q.w, PlainWires(rs, rclass, ttl))
    decreases |rs|
  {
    if rs == [] {
      known', names' := known, names;
    } else {
      var r, rest := Update(rs[0], rclass, ttl), rs[1..];
      var m := AddRecord(p, r).value;
      assert rs[0] in rs && forall x :: x in rest ==> x in rs;
      if r.data.Txt? {
        known', names' := AddRecordsKeeps(m, rest, rclass, ttl, q, known, names, finals);
      } else {
        var known1, names1 := AddRecordKeeps(p, r, m, known, names, finals);
        known', names' := AddRecordsKeeps(m, rest, rclass, ttl, q, known1, names1, finals);
        WiresAtAgrees(m.b, known1, p.w, m.w, [WireOf(r)], q.b, known');
        WiresAppend(q.b, known', p.w, m.w, q.w, [WireOf(r)], PlainWires(rest, rclass, ttl));
      }
    }
  }

  lemma {:induction false} PairsSnoc(pairs: seq<(seq<byte>, seq<byte>)>, key: seq<byte>, value: seq<byte>)
    ensures PairsOctets(pairs + [(key, value)]) == PairsOctets(pairs) + TxtOctets(key, value)
  {
    if pairs == [] {
      assert (pairs + [(key, value)])[1..] == [];
    } else {
      PairsSnoc(pairs[1..], key, value);
      assert (pairs + [(key, value)])[1..] == pairs[1..] + [(key, value)];
    }
  }

  /** The text record under way: its head, and the strings so far. */
  ghost predicate TxtAt(p: Packet, known: set<nat>, pos: nat, start: nat, w: Wire, done: seq<(seq<byte>, seq<byte>)>) {
    && HeadAt(p.b, known, pos, start, w) && pos + 11 <= start
    && start - 2 !in known && start - 1 !in known
    && OctetsAt(p.b, known, start, PairsOctets(done)) && p.w == start + |PairsOctets(done)|
  }

  lemma AddStringKeeps(p: Packet, key: seq<byte>, value: seq<byte>, q: Packet, pos: nat, start: nat, w: Wire,
                       done: seq<(seq<byte>, seq<byte>)>, known: set<nat>, names: map<nat, seq<Label>>,
                       finals: set<Label>)
    returns (known': set<nat>)
    requires Good(p, known, names, finals) && TxtAt(p, known, pos, start, w, done)
    requires AddString(p, key, value) == Some(q)
    ensures Good(q, known', names, finals) && known <= known' && Agree(p.b, known, q.b)
    ensures TxtAt(q, known', pos, start, w, done + [(key, value)])
  {
    var s := TxtOctets(key, value);
    known' := known + Range(p.w, q.w);
    PutKeeps(p, s, known, known', names, finals);
    HeadAtAgrees(p.b, known, pos, start, w, q.b, known');
    OctetsAtAgrees(p.b, known, start, PairsOctets(done), q.b, known');
    PutOctets(p, s, known');
    OctetsAppend(q.b, known', start, PairsOctets(done), s);
    PairsSnoc(done, key, value);
  }

  lemma OctetsAppend(b: seq<byte>, known: set<nat>, pos: nat, s: seq<byte>, t: seq<byte>)
    requires OctetsAt(b, known, pos, s) && OctetsAt(b, known, pos + |s|, t)
    ensures OctetsAt(b, known, pos, s + t)
  {
    assert b[pos..pos + |s + t|] == b[pos..pos + |s|] + b[pos + |s|..pos + |s| + |t|];
  }

  lemma TxtEnds(p: Packet, pos: nat, start: nat, w: Wire, done: seq<(seq<byte>, seq<byte>)>,
                known: set<nat>, names: map<nat, seq<Label>>, finals: set<Label>)
    returns (known': set<nat>)
    requires Good(p, known, names, finals) && TxtAt(p, known, pos, start, w, done)
    requires w.body == Strings(done) && p.w <= 0x4000
    ensures var q := FillLength(p, start);
            && Good(q, known', names, finals) && known <= known' && Agree(p.b, known, q.b)
            && WiresAt(q.b, known', pos, q.w, [w])
  {
    known' := known + {start - 2, start - 1};
    FillKeeps(p, start, known, known', names, finals);
    FilledWire(pos, p, start, w, known, known');
    OneWire(FillLength(p, start).b, known', pos, start, p.w, w);
  }

  /** From the first text record on. */
  lemma {:induction false} TxtTailKeeps(p: Packet, rs: seq<Record>, rclass: uint16, ttl: uint32, q: Packet,
                                        pos: nat, start: nat, w: Wire, done: seq<(seq<byte>, seq<byte>)>,
                                        known: set<nat>, names: map<nat, seq<Label>>, finals: set<Label>)
    returns (known': set<nat>)
    requires Good(p, known, names, finals) && TxtAt(p, known, pos, start, w, done)
    requires AddTxt(p, rs, rclass, ttl, Some(start)) == Some(q) && q.w <= 0x4000
    requires w.body == Strings(done + Pairs(rs))
    ensures Good(q, known', names, finals) && known <= known' && Agree(p.b, known, q.b)
    ensures WiresAt(q.b, known', pos, q.w, [w])
    decreases |rs|
  {
    hide HeadAt, OctetsAt, Spells, WiresAt, FillLength;
    if rs == [] {
      assert done + Pairs(rs) == done;
      known' := TxtEnds(p, pos, start, w, done, known, names, finals);
    } else if !rs[0].data.Txt? {
      known' := TxtTailKeeps(p, rs[1..], rclass, ttl, q, pos, start, w, done, known, names, finals);
    } else {
      var key, value := rs[0].data.key, rs[0].data.value;
      var m := AddString(p, key, value).value;
      var known1 := AddStringKeeps(p, key, value, m, pos, start, w, done, known, names, finals);
      ConsAppend([(key, value)], Pairs(rs[1..]));
      assert done + [(key, value)] + Pairs(rs[1..]) == done + Pairs(rs);
      known' := TxtTailKeeps(m, rs[1..], rclass, ttl, q, pos, start, w, done + [(key, value)], known1, names, finals);
    }
  }

  lemma {:induction false} AddTxtKeeps(p: Packet, rs: seq<Record>, rclass: uint16, ttl: uint32, q: Packet,
                                       known: set<nat>, names: map<nat, seq<Label>>, finals: set<Label>)
    returns (known': set<nat>, names': map<nat, seq<Label>>)
    requires Good(p, known, names, finals) && RecordsGood(rs, finals)
    requires AddTxt(p, rs, rclass, ttl, None) == Some(q) && q.w <= 0x4000
    ensures Good(q, known', names', finals) && known <= known' && Agree(p.b, known, q.b)
    ensures WiresAt(q.b, known', p.w, q.w, TxtWires(rs, rclass, ttl))
    decreases |rs|
  {
    if rs == [] {
      known', names' := known, names;
    } else if !rs[0].data.Txt? {
      assert forall x :: x in rs[1..] ==> x in rs;
      known', names' := AddTxtKeeps(p, rs[1..], rclass, ttl, q, known, names, finals);
    } else {
      var r := Update(rs[0], rclass, ttl);
      var w := TxtWire(r, Pairs(rs));
      var h := RecordHeader(p, r).value;
      assert rs[0] in rs;
      var known1, names1 := HeaderKeeps(p, r, h, w, known, names, finals);
      known' := TxtStart(h, rs, rclass, ttl, q, p.w, w, known1, names1, finals);
      names' := names1;
    }
  }

  lemma TxtStart(h: Packet, rs: seq<Record>, rclass: uint16, ttl: uint32, q: Packet, pos: nat, w: Wire,
                 known: set<nat>, names: map<nat, seq<Label>>, finals: set<Label>)
    returns (known': set<nat>)
    requires Good(h, known, names, finals) && HeadAt(h.b, known, pos, h.w, w) && pos + 11 <= h.w
    requires h.w - 2 !in known && h.w - 1 !in known
    requires AddTxt(h, rs, rclass, ttl, Some(h.w)) == Some(q) && q.w <= 0x4000
    requires w.body == Strings(Pairs(rs))
    ensures Good(q, known', names, finals) && known <= known' && Agree(h.b, known, q.b)
    ensures WiresAt(q.b, known', pos, q.w, [w])
  {
    assert h.b[h.w..h.w] == [];
    assert [] + Pairs(rs) == Pairs(rs);
    known' := TxtTailKeeps(h, rs, rclass, ttl, q, pos, h.w, w, [], known, names, finals);
  }

  /** One section of the message. */
  lemma AddSectionKeeps(p: Packet, rs: seq<Record>, rclass: uint16, ttl: uint32, q: Packet,
                        known: set<nat>, names: map<nat, seq<Label>>, finals: set<Label>)
    returns (known': set<nat>, names': map<nat, seq<Label>>)
    requires Good(p, known, names, finals) && RecordsGood(rs, finals)
    requires AddSection(p, rs, rclass, ttl) == Some(q) && q.w <= 0x4000
    ensures Good(q, known', names', finals) && known <= known' && Agree(p.b, known, q.b)
    ensures WiresAt(q.b, known', p.w, q.w, SectionWires(rs, rclass, ttl))
  {
    var m := AddRecords(p, rs, rclass, ttl).value;
    var known1, names1 := AddRecordsKeeps(p, rs, rclass, ttl, m, known, names, finals);
    known', names' := AddTxtKeeps(m, rs, rclass, ttl, q, known1, names1, finals);
    WiresAtAgrees(m.b, known1, p.w, m.w, PlainWires(rs, rclass, ttl), q.b, known');
    WiresAppend(q.b, known', p.w, m.w, q.w, PlainWires(rs, rclass, ttl), TxtWires(rs, rclass, ttl));
  }
}
