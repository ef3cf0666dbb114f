/**
  Multicast DNS messages of `3rdparty/mdns.h`: how a response is put together and taken apart.

  The functions say what is written and what is read; `MdnsAssembly` holds the library's procedures,
  proved to write exactly that, and `MdnsMessageProof` that it reads back.
 */
module MdnsMessage {
  import opened Wrappers
  import opened Bytes
  import opened MdnsDecode
  import opened MdnsEncode

  type Text = s: seq<byte> | s != [] witness [46]
  type Address4 = s: seq<byte> | |s| == 4 witness [0, 0, 0, 0]
  type Address16 = s: seq<byte> | |s| == 16 witness seq(16, _ => 0)

  const TYPE_A: uint16 := 1
  const TYPE_PTR: uint16 := 12
  const TYPE_TXT: uint16 := 16
  const TYPE_AAAA: uint16 := 28
  const TYPE_SRV: uint16 := 33

  /** A record type for which the library writes no data. */
  type PlainType = n: uint16 | n !in {TYPE_A, TYPE_PTR, TYPE_TXT, TYPE_AAAA, TYPE_SRV} witness 0

  datatype Data =
    | Ptr(target: Text)
    | Srv(priority: uint16, weight: uint16, port: uint16, host: Text)
    | A(address: Address4)
    | Aaaa(address6: Address16)
    | Txt(key: seq<byte>, value: seq<byte>)
    | Plain(plainType: PlainType)
  {
    function Type(): uint16 {
      match this
      case Ptr(_) => TYPE_PTR
      case Srv(_, _, _, _) => TYPE_SRV
      case A(_) => TYPE_A
      case Aaaa(_) => TYPE_AAAA
      case Txt(_, _) => TYPE_TXT
      case Plain(t) => t
    }
  }

  datatype Record = Record(name: Text, data: Data, rclass: uint16, ttl: uint32)

  /**
    `mdns_record_update_rclass_ttl`: defaults for what is zero, a zero lifetime for all when the
    message is a goodbye, and of the class only IN and the cache-flush bit, which a PTR never has.
   */
  function Update(r: Record, rclass: uint16, ttl: uint32): Record {
    var c := if r.rclass == 0 then rclass else r.rclass;
    var t := if r.ttl == 0 || ttl == 0 then ttl else r.ttl;
    var masked := c / 0x8000 * 0x8000 + c % 2;
    r.(rclass := if r.data.Ptr? then masked % 0x8000 else masked, ttl := t)
  }

  // ---------------------------------------------------------------- what is written

  function Put(p: Packet, s: seq<byte>): (q: Packet)
    requires p.w + |s| <= |p.b|
    ensures |q.b| == |p.b| && q.w == p.w + |s| && q.t == p.t
    ensures forall i :: 0 <= i < p.w || q.w <= i < |p.b| ==> q.b[i] == p.b[i]
  {
    Packet(Overwrite(p.b, p.w, s), p.w + |s|, p.t)
  }

  function NameLabels(name: Text): seq<Label> {
    Labels(TrimDot(name))
  }

  function HeaderOctets(rtype: uint16, rclass: uint16, ttl: uint32): (s: seq<byte>)
    ensures |s| == 10
  {
    Octets16(rtype) + Octets16(rclass) + Octets32(ttl) + Octets16(0)
  }

  function Remain(p: Packet): int {
    |p.b| - p.w
  }

  ghost predicate Room(p: Packet, q: Option<Packet>) {
    q.Some? ==> q.value.t.Valid() && p.w <= q.value.w <= |q.value.b| == |p.b|
  }

  function RecordHeader(p: Packet, r: Record): (q: Option<Packet>)
    requires p.t.Valid() && p.w <= |p.b|
    ensures Room(p, q) && (q.Some? ==> p.w + 10 < q.value.w)
  {
    match Make(p, NameLabels(r.name))
    case None => None
    case Some(n) =>
      if Remain(n) < 10 then None else Some(Put(n, HeaderOctets(r.data.Type(), r.rclass, r.ttl)))
  }

  function RecordData(p: Packet, data: Data): (q: Option<Packet>)
    requires p.t.Valid() && p.w <= |p.b|
    ensures Room(p, q)
  {
    match data
    case Ptr(target) => Make(p, NameLabels(target))
    case Srv(priority, weight, port, host) =>
      if Remain(p) <= 6 then None
      else Make(Put(p, Octets16(priority) + Octets16(weight) + Octets16(port)), NameLabels(host))
    case A(address) => if Remain(p) < 4 then None else Some(Put(p, address))
    case Aaaa(address) => if Remain(p) < 16 then None else Some(Put(p, address))
    case Txt(_, _) => Some(p)
    case Plain(_) => Some(p)
  }

  /** The length field right before `start`, filled in with what has been written since. */
  function FillLength(p: Packet, start: nat): (q: Packet)
    requires 2 <= start <= p.w <= |p.b|
    ensures |q.b| == |p.b| && q.w == p.w && q.t == p.t
    ensures forall i :: 0 <= i < start - 2 || start <= i < |p.b| ==> q.b[i] == p.b[i]
  {
    p.(b := Overwrite(p.b, start - 2, Octets16((p.w - start) % 0x1_0000)))
  }

  /** `mdns_answer_add_record`: text records are left for later. */
  function AddRecord(p: Packet, r: Record): (q: Option<Packet>)
    requires p.t.Valid() && p.w <= |p.b|
    ensures Room(p, q)
  {
    if r.data.Txt? then Some(p)
    else match RecordHeader(p, r)
      case None => None
      case Some(h) =>
        match RecordData(h, r.data)
        case None => None
        case Some(q) => Some(FillLength(q, h.w))
  }

  function AddRecords(p: Packet, rs: seq<Record>, rclass: uint16, ttl: uint32): (q: Option<Packet>)
    requires p.t.Valid() && p.w <= |p.b|
    ensures Room(p, q)
    decreases |rs|
  {
    if rs == [] then Some(p)
    else match AddRecord(p, Update(rs[0], rclass, ttl))
      case None => None
      case Some(q) => AddRecords(q, rs[1..], rclass, ttl)
  }

  function TxtOctets(key: seq<byte>, value: seq<byte>): seq<byte> {
    [(|key| + |value| + 1) % 0x100] + key + ['=' as int] + value
  }

  function AddString(p: Packet, key: seq<byte>, value: seq<byte>): (q: Option<Packet>)
    requires p.t.Valid() && p.w <= |p.b|
    ensures Room(p, q)
  {
    var length := |key| + |value| + 1;
    if Remain(p) <= length || length > 0x3FFF then None else Some(Put(p, TxtOctets(key, value)))
  }

  /**
    `mdns_answer_add_txt_record`: all text records as one, under the header of the first; `start` is
    where its data began, once it has.
   */
  function AddTxt(p: Packet, rs: seq<Record>, rclass: uint16, ttl: uint32, start: Option<nat>): (q: Option<Packet>)
    requires p.t.Valid() && p.w <= |p.b| && (start.Some? ==> 2 <= start.value <= p.w)
    ensures Room(p, q)
    decreases |rs|
  {
    if rs == [] then
      match start case None => Some(p) case Some(s) => Some(FillLength(p, s))
    else if !rs[0].data.Txt? then AddTxt(p, rs[1..], rclass, ttl, start)
    else
      match (if start.Some? then Some(p) else RecordHeader(p, Update(rs[0], rclass, ttl)))
      case None => None
      case Some(h) =>
        match AddString(h, rs[0].data.key, rs[0].data.value)
        case None => None
        case Some(q) => AddTxt(q, rs[1..], rclass, ttl, if start.Some? then start else Some(h.w))
  }

  /** `mdns_answer_get_record_count`: one for each record, and one for all text records together. */
  function RecordCount(rs: seq<Record>): nat {
    PlainCount(rs) + if HasTxt(rs) then 1 else 0
  }

  function PlainCount(rs: seq<Record>): nat {
    if rs == [] then 0 else (if rs[0].data.Txt? then 0 else 1) + PlainCount(rs[1..])
  }

  predicate HasTxt(rs: seq<Record>) {
    rs != [] && (rs[0].data.Txt? || HasTxt(rs[1..]))
  }

  const HEADER_SIZE: nat := 12

  function MessageHeader(authority: nat, additional: nat): (s: seq<byte>)
    ensures |s| == HEADER_SIZE
  {
    Octets16(0) + Octets16(0x8400) + Octets16(0) + Octets16(1)
    + Octets16(authority % 0x1_0000) + Octets16(additional % 0x1_0000)
  }

  /** One section: its records, then its text records as one. */
  function AddSection(p: Packet, rs: seq<Record>, rclass: uint16, ttl: uint32): (q: Option<Packet>)
    requires p.t.Valid() && p.w <= |p.b|
    ensures Room(p, q)
  {
    match AddRecords(p, rs, rclass, ttl)
    case None => None
    case Some(m) => AddTxt(m, rs, rclass, ttl, None)
  }

  /** The answer and the two sections behind the header. */
  function AddAll(p: Packet, answer: Record, authority: seq<Record>, additional: seq<Record>,
                  rclass: uint16, ttl: uint32): (q: Option<Packet>)
    requires p.t.Valid() && p.w <= |p.b|
    ensures Room(p, q)
  {
    match AddRecord(p, Update(answer, rclass, ttl))
    case None => None
    case Some(m) =>
      match AddSection(m, authority, rclass, ttl)
      case None => None
      case Some(n) => AddSection(n, additional, rclass, ttl)
  }

  /** `mdns_answer_multicast_rclass_ttl`, up to the sending: the buffer and how much of it to send. */
  function Assemble(b: seq<byte>, answer: Record, authority: seq<Record>, additional: seq<Record>,
                    rclass: uint16, ttl: uint32): (q: Option<Packet>)
  {
    if |b| < HEADER_SIZE + 32 + 4 then None
    else AddAll(Put(Packet(b, 0, EMPTY_TABLE), MessageHeader(RecordCount(authority), RecordCount(additional))),
                answer, authority, additional, rclass, ttl)
  }

  // ---------------------------------------------------------------- what is read

  /** What the callback is told of one record. */
  datatype Entry = Entry(rtype: uint16, rclass: uint16, ttl: uint32, nameOffset: nat, nameLength: int,
                         recordOffset: nat, recordLength: nat)

  function SkipName(b: seq<byte>, offset: nat): nat {
    if Skippable(b, offset, MAX_SUBSTRINGS) then NameEnd(b, offset) else offset
  }

  /** The record at `offset`: its name is stepped over if that can be done, then come ten octets. */
  function EntryAt(b: seq<byte>, offset: nat): (e: Option<Entry>)
    ensures e.Some? ==> e.value.recordOffset <= |b|
  {
    var at := SkipName(b, offset);
    if |b| < at + 10 then None
    else Some(Entry(Get16(b, at), Get16(b, at + 2), Get32(b, at + 4), offset, at - offset, at + 10, Get16(b, at + 8)))
  }

  /**
    `mdns_records_parse` with a callback that never stops it: what the callback is told. A record
    whose data is not all there is passed over.
   */
  function ParseRecords(b: seq<byte>, offset: nat, records: nat): (es: seq<Entry>)
    decreases records
  {
    if records == 0 then []
    else match EntryAt(b, offset)
      case None => []
      case Some(e) => Told(|b|, e) + ParseRecords(b, e.recordOffset + e.recordLength, records - 1)
  }

  function Told(size: nat, e: Entry): seq<Entry> {
    if e.recordLength <= size - e.recordOffset then [e] else []
  }

  /** The offset that `mdns_records_parse` leaves behind. */
  function ParseEnd(b: seq<byte>, offset: nat, records: nat): nat
    decreases records
  {
    if records == 0 then offset
    else match EntryAt(b, offset)
      case None => SkipName(b, offset)
      case Some(e) => ParseEnd(b, e.recordOffset + e.recordLength, records - 1)
  }

  /** One record: it is told of if its data is all there, and parsing goes on behind it. */
  lemma ParseRecordsUnfolds(b: seq<byte>, offset: nat, e: Entry, records: nat, next: nat)
    requires records > 0 && EntryAt(b, offset) == Some(e) && next == e.recordOffset + e.recordLength
    ensures ParseRecords(b, offset, records) == Told(|b|, e) + ParseRecords(b, next, records - 1)
    ensures ParseEnd(b, offset, records) == ParseEnd(b, next, records - 1)
  {
    hide EntryAt;
  }

  /** The questions are stepped over: a name, a type and a class each. */
  function SkipQuestions(b: seq<byte>, offset: nat, questions: nat): Option<nat>
    decreases questions
  {
    if questions == 0 then Some(offset)
    else if !Skippable(b, offset, MAX_SUBSTRINGS) then None
    else SkipQuestions(b, NameEnd(b, offset) + 4, questions - 1)
  }

  datatype Received = Received(answers: seq<Entry>, authority: seq<Entry>, additional: seq<Entry>)

  /** `mdns_query_recv`, on the octets that arrived: a section that comes up short is the last. */
  function Receive(b: seq<byte>): Received
    requires HEADER_SIZE <= |b|
  {
    match SkipQuestions(b, HEADER_SIZE, Get16(b, 4))
    case None => Received([], [], [])
    case Some(offset) =>
      var answers := ParseRecords(b, offset, Get16(b, 6));
      if |answers| != Get16(b, 6) then Received(answers, [], [])
      else
        var second := ParseEnd(b, offset, Get16(b, 6));
        var authority := ParseRecords(b, second, Get16(b, 8));
        if |authority| != Get16(b, 8) then Received(answers, authority, [])
        else Received(answers, authority, ParseRecords(b, ParseEnd(b, second, Get16(b, 8)), Get16(b, 10)))
  }

  function Extracted(b: seq<byte>, offset: nat, capacity: nat): seq<byte> {
    match Name(b, offset) case None => [] case Some(labels) => Take(Dotted(labels), capacity)
  }

  function ParsePtr(b: seq<byte>, offset: nat, length: nat, capacity: nat): seq<byte> {
    if offset + length <= |b| && 2 <= length then Extracted(b, offset, capacity) else []
  }

  datatype SrvData = SrvData(priority: uint16, weight: uint16, port: uint16, host: seq<byte>)

  function ParseSrv(b: seq<byte>, offset: nat, length: nat, capacity: nat): SrvData {
    if offset + length <= |b| && 8 <= length then
      SrvData(Get16(b, offset), Get16(b, offset + 2), Get16(b, offset + 4), Extracted(b, offset + 6, capacity))
    else SrvData(0, 0, 0, [])
  }

  /** `mdns_record_parse_a` and `mdns_record_parse_aaaa`: an address of `size` octets. */
  function ParseAddress(b: seq<byte>, offset: nat, length: nat, size: nat): seq<byte> {
    if offset + length <= |b| && length == size then b[offset..offset + length] else seq(size, _ => 0)
  }

  datatype Pair = Pair(key: seq<byte>, value: Option<seq<byte>>)

  /** Where the key ends: at the first '=', and nowhere when a non-printable octet comes before it. */
  function Separator(s: seq<byte>): (n: nat)
    ensures n <= |s|
    decreases |s|
  {
    SeparatorFrom(s, 0)
  }

  function SeparatorFrom(s: seq<byte>, c: nat): (n: nat)
    requires c <= |s|
    ensures n <= |s|
    decreases |s| - c
  {
    if c == |s| then |s|
    else if s[c] < 0x20 || s[c] > 0x7E then 0
    else if s[c] == '=' as int then c
    else SeparatorFrom(s, c + 1)
  }

  /** One string of a text record, or nothing when it has no key. */
  function ParseString(s: seq<byte>): Option<Pair> {
    var n := Separator(s);
    if n == 0 then None
    else if n < |s| then Some(Pair(s[..n], Some(s[n + 1..])))
    else Some(Pair(s, None))
  }

  /** `mdns_record_parse_txt`: at most `capacity` pairs from the octets up to `end`. */
  function ParseTxt(b: seq<byte>, offset: nat, end: nat, capacity: nat): seq<Pair>
    requires end <= |b|
    decreases end - offset
  {
    if offset >= end || capacity == 0 then []
    else if b[offset] >= end - offset then []
    else
      var next := offset + 1 + b[offset];
      match ParseString(b[offset + 1..next])
      case None => ParseTxt(b, next, end, capacity)
      case Some(pair) => [pair] + ParseTxt(b, next, end, capacity - 1)
  }
}
