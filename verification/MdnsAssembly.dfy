/**
  The procedures of `3rdparty/mdns.h` that put a response together and take one apart, over the packet
  array and the shared offset table. Each is proved to do what `MdnsMessage` says.
 */
module MdnsAssembly {
  import opened Wrappers
  import opened Bytes
  import opened MdnsDecode
  import opened MdnsEncode
  import opened MdnsMessage

  /** The octets of a field or of an address, written at the cursor. */
  method Write(buffer: array<byte>, data: nat, s: seq<byte>) returns (next: nat)
    requires data + |s| <= buffer.Length
    modifies buffer
    ensures next == data + |s|
    ensures buffer[..] == Overwrite(old(buffer[..]), data, s)
  {
    forall k | 0 <= k < |s| {
      buffer[data + k] := s[k];
    }
    next := data + |s|;
  }

  /** `mdns_answer_add_record_header`. */
  method AddRecordHeader(buffer: array<byte>, data: nat, r: Record, table: StringTable) returns (next: Option<nat>)
    requires table.Valid() && data <= buffer.Length
    modifies buffer, table, table.offset
    ensures table.Valid()
    ensures Outcome(next, buffer[..], table.Value()) == RecordHeader(old(Packet(buffer[..], data, table.Value())), r)
  {
    hide Make, Labels;
    next := StringMake(buffer, data, r.name, table);
    if next.Some? {
      if buffer.Length - next.value < 10 {
        next := None;
      } else {
        var after := Write(buffer, next.value, HeaderOctets(r.data.Type(), r.rclass, r.ttl));
        next := Some(after);
      }
    }
  }

  /** The part of `mdns_answer_add_record` that depends on the type. */
  method AddRecordData(buffer: array<byte>, data: nat, d: Data, table: StringTable) returns (next: Option<nat>)
    requires table.Valid() && data <= buffer.Length && !d.Txt?
    modifies buffer, table, table.offset
    ensures table.Valid()
    ensures Outcome(next, buffer[..], table.Value()) == RecordData(old(Packet(buffer[..], data, table.Value())), d)
  {
    hide Make, Labels, Overwrite;
    var remain := buffer.Length - data;
    match d {
      case Ptr(target) =>
        next := StringMake(buffer, data, target, table);
      case Srv(priority, weight, port, host) =>
        if remain <= 6 {
          next := None;
        } else {
          var after := Write(buffer, data, Octets16(priority) + Octets16(weight) + Octets16(port));
          next := StringMake(buffer, after, host, table);
        }
      case A(address) =>
        next := AddAddress(buffer, data, address);
      case Aaaa(address) =>
        next := AddAddress(buffer, data, address);
      case Plain(_) =>
        next := Some(data);
    }
  }

  method AddAddress(buffer: array<byte>, data: nat, address: seq<byte>) returns (next: Option<nat>)
    requires data <= buffer.Length
    modifies buffer
    ensures next == if buffer.Length - data < |address| then None else Some(data + |address|)
    ensures next.Some? ==> buffer[..] == Overwrite(old(buffer[..]), data, address)
    ensures next.None? ==> buffer[..] == old(buffer[..])
  {
    if buffer.Length - data < |address| {
      next := None;
    } else {
      var after := Write(buffer, data, address);
      next := Some(after);
    }
  }

  /** Fills in the length of the data from `start` to the cursor. */
  method WriteLength(buffer: array<byte>, start: nat, data: nat, ghost t: Table)
    requires 2 <= start <= data <= buffer.Length
    modifies buffer
    ensures Packet(buffer[..], data, t) == FillLength(old(Packet(buffer[..], data, t)), start)
  {
    var _ := Write(buffer, start - 2, Octets16((data - start) % 0x1_0000));
  }

  /** `mdns_answer_add_record`. */
  method AnswerAddRecord(buffer: array<byte>, data: nat, r: Record, table: StringTable) returns (next: Option<nat>)
    requires table.Valid() && data <= buffer.Length
    modifies buffer, table, table.offset
    ensures table.Valid()
    ensures Outcome(next, buffer[..], table.Value()) == AddRecord(old(Packet(buffer[..], data, table.Value())), r)
  {
    if r.data.Txt? {
      next := Some(data);
    } else {
      next := AddRecordHeader(buffer, data, r, table);
      if next.Some? {
        var start := next.value;
        next := AddRecordData(buffer, start, r.data, table);
        if next.Some? {
          WriteLength(buffer, start, next.value, table.Value());
        }
      }
    }
  }

  /** The loop over the records of a section in `mdns_answer_multicast_rclass_ttl`. */
  method AnswerAddRecords(buffer: array<byte>, data: nat, rs: seq<Record>, rclass: uint16, ttl: uint32,
                          table: StringTable)
    returns (next: Option<nat>)
    requires table.Valid() && data <= buffer.Length
    modifies buffer, table, table.offset
    ensures table.Valid()
    ensures Outcome(next, buffer[..], table.Value()) ==
            AddRecords(old(Packet(buffer[..], data, table.Value())), rs, rclass, ttl)
  {
    next := Some(data);
    var i := 0;
    while next.Some? && i < |rs|
      invariant table.Valid() && i <= |rs|
      invariant next.Some? ==> next.value <= buffer.Length
      invariant match Outcome(next, buffer[..], table.Value())
                case None => AddRecords(old(Packet(buffer[..], data, table.Value())), rs, rclass, ttl) == None
                case Some(p) => AddRecords(old(Packet(buffer[..], data, table.Value())), rs, rclass, ttl) ==
                                AddRecords(p, rs[i..], rclass, ttl)
      decreases |rs| - i
    {
      assert rs[i..][1..] == rs[i + 1..];
      next := AnswerAddRecord(buffer, next.value, Update(rs[i], rclass, ttl), table);
      i := i + 1;
    }
  }

  /** One text string, with its length octet. */
  method AnswerAddString(buffer: array<byte>, data: nat, key: seq<byte>, value: seq<byte>, ghost t: Table)
    returns (next: Option<nat>)
    requires data <= buffer.Length && t.Valid()
    modifies buffer
    ensures Outcome(next, buffer[..], t) == AddString(old(Packet(buffer[..], data, t)), key, value)
  {
    var length := |key| + |value| + 1;
    if buffer.Length - data <= length || length > 0x3FFF {
      next := None;
    } else {
      var after := Write(buffer, data, TxtOctets(key, value));
      next := Some(after);
    }
  }

  /** What one text record adds: the header if it is the first, and its string. */
  ghost function TxtStep(p: Packet, r: Record, start: Option<nat>): Option<(Packet, nat)>
    requires p.t.Valid() && p.w <= |p.b| && r.data.Txt?
  {
    match (if start.Some? then Some(p) else RecordHeader(p, r))
    case None => None
    case Some(h) =>
      match AddString(h, r.data.key, r.data.value)
      case None => None
      case Some(q) => Some((q, if start.Some? then start.value else h.w))
  }

  method AddTxtStep(buffer: array<byte>, data: nat, r: Record, begun: Option<nat>, table: StringTable)
    returns (next: Option<nat>, start: Option<nat>)
    requires table.Valid() && data <= buffer.Length && r.data.Txt? && (begun.Some? ==> 2 <= begun.value <= data)
    modifies buffer, table, table.offset
    ensures table.Valid()
    ensures next.Some? ==> start.Some? && 2 <= start.value <= next.value <= buffer.Length
    ensures TxtStep(old(Packet(buffer[..], data, table.Value())), r, begun) ==
            if next.None? then None else Some((Packet(buffer[..], next.value, table.Value()), start.value))
  {
    next, start := Some(data), begun;
    if start.None? {
      next := AddRecordHeader(buffer, data, r, table);
      start := next;
    }
    if next.Some? {
      next := AnswerAddString(buffer, next.value, r.data.key, r.data.value, table.Value());
    }
  }

  lemma AddTxtUnfolds(p: Packet, r: Record, rest: seq<Record>, rclass: uint16, ttl: uint32, start: Option<nat>)
    requires p.t.Valid() && p.w <= |p.b| && (start.Some? ==> 2 <= start.value <= p.w)
    ensures AddTxt(p, [r] + rest, rclass, ttl, start) ==
            if !r.data.Txt? then AddTxt(p, rest, rclass, ttl, start)
            else match TxtStep(p, Update(r, rclass, ttl), start)
              case None => None
              case Some(s) => AddTxt(s.0, rest, rclass, ttl, Some(s.1))
  {
    assert ([r] + rest)[1..] == rest;
  }

  /** `mdns_answer_add_txt_record`: the loop over all records that picks the text records. */
  method AnswerAddTxtRecord(buffer: array<byte>, data: nat, rs: seq<Record>, rclass: uint16, ttl: uint32,
                            table: StringTable)
    returns (next: Option<nat>)
    requires table.Valid() && data <= buffer.Length
    modifies buffer, table, table.offset
    ensures table.Valid()
    ensures Outcome(next, buffer[..], table.Value()) ==
            AddTxt(old(Packet(buffer[..], data, table.Value())), rs, rclass, ttl, None)
  {
    var start: Option<nat> := None;
    next := Some(data);
    var i := 0;
    ghost var rest := rs;
    ghost var all := AddTxt(Packet(buffer[..], data, table.Value()), rs, rclass, ttl, None);
    while next.Some? && i < |rs|
      invariant table.Valid() && i <= |rs| && rest == rs[i..]
      invariant next.Some? ==> next.value <= buffer.Length && (start.Some? ==> 2 <= start.value <= next.value)
      invariant next.None? ==> all == None
      invariant next.Some? ==> all == AddTxt(Packet(buffer[..], next.value, table.Value()), rest, rclass, ttl, start)
      decreases |rs| - i
    {
      AddTxtUnfolds(Packet(buffer[..], next.value, table.Value()), rs[i], rest[1..], rclass, ttl, start);
      assert rest == [rs[i]] + rest[1..];
      if rs[i].data.Txt? {
        next, start := AddTxtStep(buffer, next.value, Update(rs[i], rclass, ttl), start, table);
      }
      i, rest := i + 1, rest[1..];
    }
    if next.Some? && start.Some? {
      WriteLength(buffer, start.value, next.value, table.Value());
    }
  }

  /** `mdns_answer_get_record_count`, as a 16-bit sum. */
  method AnswerGetRecordCount(rs: seq<Record>) returns (n: uint16)
    ensures n == RecordCount(rs) % 0x1_0000
  {
    hide PlainCount, HasTxt;
    var total := 0;
    var txt := 0;
    assert rs[0..] == rs;
    for i := 0 to |rs|
      invariant 0 <= total < 0x1_0000 && (txt == 0 || txt == 1)
      invariant (total + PlainCount(rs[i..])) % 0x1_0000 == PlainCount(rs) % 0x1_0000
      invariant HasTxt(rs) <==> txt == 1 || HasTxt(rs[i..])
    {
      CountFirst(rs, i);
      if rs[i].data.Txt? {
        txt := 1;
      } else {
        OneMore(total, PlainCount(rs[i + 1..]));
        total := (total + 1) % 0x1_0000;
      }
    }
    CountNone(rs[|rs|..]);
    n := (total + txt) % 0x1_0000;
    SumWraps(PlainCount(rs), total, txt);
  }

  lemma SumWraps(plain: nat, total: nat, txt: nat)
    requires total < 0x1_0000 && total == plain % 0x1_0000
    ensures (total + txt) % 0x1_0000 == (plain + txt) % 0x1_0000
  {
    var q := plain / 0x1_0000;
    assert plain + txt == q * 0x1_0000 + (total + txt);
  }

  lemma CountFirst(rs: seq<Record>, i: nat)
    requires i < |rs|
    ensures PlainCount(rs[i..]) == (if rs[i].data.Txt? then 0 else 1) + PlainCount(rs[i + 1..])
    ensures HasTxt(rs[i..]) <==> rs[i].data.Txt? || HasTxt(rs[i + 1..])
  {
    assert rs[i..][1..] == rs[i + 1..];
  }

  lemma CountNone(none: seq<Record>)
    requires none == []
    ensures PlainCount(none) == 0 && !HasTxt(none)
  {
  }

  lemma OneMore(total: nat, more: nat)
    ensures ((total + 1) % 0x1_0000 + more) % 0x1_0000 == (total + (1 + more)) % 0x1_0000
  {
  }

  /** A section: the records, then the text records as one. */
  method AnswerAddSection(buffer: array<byte>, data: nat, rs: seq<Record>, rclass: uint16, ttl: uint32,
                          table: StringTable)
    returns (next: Option<nat>)
    requires table.Valid() && data <= buffer.Length
    modifies buffer, table, table.offset
    ensures table.Valid()
    ensures Outcome(next, buffer[..], table.Value()) ==
            AddSection(old(Packet(buffer[..], data, table.Value())), rs, rclass, ttl)
  {
    next := AnswerAddRecords(buffer, data, rs, rclass, ttl, table);
    if next.Some? {
      next := AnswerAddTxtRecord(buffer, next.value, rs, rclass, ttl, table);
    }
  }

  method AnswerAddAll(buffer: array<byte>, data: nat, answer: Record, authority: seq<Record>, additional: seq<Record>,
                      rclass: uint16, ttl: uint32, table: StringTable)
    returns (next: Option<nat>)
    requires table.Valid() && data <= buffer.Length
    modifies buffer, table, table.offset
    ensures table.Valid()
    ensures Outcome(next, buffer[..], table.Value()) ==
            AddAll(old(Packet(buffer[..], data, table.Value())), answer, authority, additional, rclass, ttl)
  {
    next := AnswerAddRecord(buffer, data, Update(answer, rclass, ttl), table);
    if next.Some? {
      next := AnswerAddSection(buffer, next.value, authority, rclass, ttl, table);
    }
    if next.Some? {
      next := AnswerAddSection(buffer, next.value, additional, rclass, ttl, table);
    }
  }

  /** `mdns_answer_multicast_rclass_ttl`, up to the sending: how many octets of the buffer to send. */
  method AnswerMulticast(buffer: array<byte>, answer: Record, authority: seq<Record>, additional: seq<Record>,
                         rclass: uint16, ttl: uint32)
    returns (tosend: Option<nat>)
    modifies buffer
    ensures match Assemble(old(buffer[..]), answer, authority, additional, rclass, ttl)
            case None => tosend == None
            case Some(q) => tosend == Some(q.w) && buffer[..] == q.b
  {
    hide AddAll, RecordCount, MessageHeader, Overwrite;
    if buffer.Length < HEADER_SIZE + 32 + 4 {
      tosend := None;
    } else {
      var table := new StringTable();
      var authorityCount := AnswerGetRecordCount(authority);
      var additionalCount := AnswerGetRecordCount(additional);
      var data := Write(buffer, 0, MessageHeader(authorityCount, additionalCount));
      HeaderCounts(RecordCount(authority), RecordCount(additional));
      tosend := AnswerAddAll(buffer, data, answer, authority, additional, rclass, ttl, table);
    }
  }

  /** The counts are cut to sixteen bits in any case. */
  lemma HeaderCounts(authority: nat, additional: nat)
    ensures MessageHeader(authority % 0x1_0000, additional % 0x1_0000) == MessageHeader(authority, additional)
  {
    hide Octets16;
  }

  // ---------------------------------------------------------------- taking apart

  lemma ParseRecordsStep(b: seq<byte>, entries: seq<Entry>, offset: nat, e: Entry, records: nat, next: nat)
    requires records > 0 && EntryAt(b, offset) == Some(e) && next == e.recordOffset + e.recordLength
    ensures entries + ParseRecords(b, offset, records) == entries + Told(|b|, e) + ParseRecords(b, next, records - 1)
    ensures ParseEnd(b, offset, records) == ParseEnd(b, next, records - 1)
  {
    ParseRecordsUnfolds(b, offset, e, records, next);
    Associates(entries, Told(|b|, e), ParseRecords(b, next, records - 1));
  }

  lemma Associates(a: seq<Entry>, b: seq<Entry>, c: seq<Entry>)
    ensures a + (b + c) == (a + b) + c
  {
  }

  /** `mdns_records_parse` with a callback that collects what it is told. */
  method RecordsParse(buffer: array<byte>, size: nat, offset: nat, records: nat)
    returns (entries: seq<Entry>, end: nat)
    requires size <= buffer.Length
    ensures entries == ParseRecords(buffer[..size], offset, records)
    ensures end == ParseEnd(buffer[..size], offset, records)
  {
    hide EntryAt;
    ghost var b := buffer[..size];
    ghost var all, last := ParseRecords(b, offset, records), ParseEnd(b, offset, records);
    entries, end := [], offset;
    var i := 0;
    ghost var left := records;
    assert [] + all == all;
    while i < records
      invariant i <= records && left == records - i
      invariant all == entries + ParseRecords(b, end, left) && last == ParseEnd(b, end, left)
      decreases left
    {
      var nameOffset := end;
      var next;
      next, end := NextEntry(buffer, size, nameOffset);
      if next.None? {
        assert ParseRecords(b, nameOffset, left) == [];
        return;
      }
      ParseRecordsStep(b, entries, nameOffset, next.value, left, end);
      if next.value.recordLength <= size - next.value.recordOffset {
        entries := entries + [next.value];
      }
      i, left := i + 1, left - 1;
    }
  }

  /** Name and fixed fields of a record, and where the next one begins. */
  method NextEntry(buffer: array<byte>, size: nat, nameOffset: nat) returns (e: Option<Entry>, end: nat)
    requires size <= buffer.Length
    ensures e == EntryAt(buffer[..size], nameOffset)
    ensures end == match e
                   case None => SkipName(buffer[..size], nameOffset)
                   case Some(r) => r.recordOffset + r.recordLength
  {
    hide NameEnd, Skippable, Get16;
    FieldsAt(buffer, size);
    var ok, at := StringSkip(buffer, size, nameOffset);
    if size < at + 10 {
      e, end := None, at;
    } else {
      var rtype := Word(buffer, at);
      var rclass := Word(buffer, at + 2);
      var high := Word(buffer, at + 4);
      var low := Word(buffer, at + 6);
      var length := Word(buffer, at + 8);
      e := Some(Entry(rtype, rclass, high as int * 0x1_0000 + low, nameOffset, at - nameOffset, at + 10, length));
      end := at + 10 + length;
    }
  }

  lemma FieldsAt(buffer: array<byte>, size: nat)
    requires size <= buffer.Length
    ensures forall at :: 0 <= at && at + 4 <= size ==>
      Get32(buffer[..size], at) == Get16(buffer[..size], at) as int * 0x1_0000 + Get16(buffer[..size], at + 2)
  {
  }

  method Word(buffer: array<byte>, i: nat) returns (n: uint16)
    requires i + 2 <= buffer.Length
    ensures forall size :: i + 2 <= size <= buffer.Length ==> n == Get16(buffer[..size], i)
  {
    n := buffer[i] as int * 0x100 + buffer[i + 1];
  }

  /** `mdns_query_recv` on a packet that has arrived. */
  method QueryRecv(buffer: array<byte>, size: nat) returns (r: Received)
    requires HEADER_SIZE <= size <= buffer.Length
    ensures r == Receive(buffer[..size])
  {
    hide ParseRecords, ParseEnd, SkipQuestions;
    ghost var b := buffer[..size];
    var questions := Word(buffer, 4);
    var answerRrs := Word(buffer, 6);
    var authorityRrs := Word(buffer, 8);
    var additionalRrs := Word(buffer, 10);
    var ok, offset := QuestionsSkip(buffer, size, 12, questions);
    r := Received([], [], []);
    if ok {
      var answers, second := RecordsParse(buffer, size, offset, answerRrs);
      r := r.(answers := answers);
      if |answers| == answerRrs as int {
        var authority, third := RecordsParse(buffer, size, second, authorityRrs);
        r := r.(authority := authority);
        if |authority| == authorityRrs as int {
          var additional, _ := RecordsParse(buffer, size, third, additionalRrs);
          r := r.(additional := additional);
        }
      }
    }
  }

  /** Its loop over the questions: a name, and two fields of two octets. */
  method QuestionsSkip(buffer: array<byte>, size: nat, start: nat, questions: nat) returns (ok: bool, offset: nat)
    requires size <= buffer.Length
    ensures SkipQuestions(buffer[..size], start, questions) == if ok then Some(offset) else None
  {
    hide NameEnd, Skippable;
    ghost var b := buffer[..size];
    ok, offset := true, start;
    var i := 0;
    while i < questions && ok
      invariant i <= questions
      invariant ok ==> SkipQuestions(b, start, questions) == SkipQuestions(b, offset, questions - i)
      invariant !ok ==> SkipQuestions(b, start, questions) == None
    {
      var end;
      ok, end := StringSkip(buffer, size, offset);
      offset, i := end + 4, i + 1;
    }
  }

  /** `mdns_record_parse_ptr`: how much of `str` is the name. */
  method RecordParsePtr(buffer: array<byte>, size: nat, offset: nat, length: nat, str: array<byte>, capacity: nat)
    returns (n: nat)
    requires size <= buffer.Length && capacity <= str.Length && buffer != str
    modifies str
    ensures n <= str.Length && str[..n] == ParsePtr(buffer[..size], offset, length, capacity)
  {
    hide ReadName, NameEnd, Dotted;
    n := 0;
    if size >= offset + length && length >= 2 {
      var end;
      n, end := StringExtract(buffer, size, offset, str, capacity);
    }
  }

  /** `mdns_record_parse_srv`: the numbers, and how much of `str` is the host. */
  method RecordParseSrv(buffer: array<byte>, size: nat, offset: nat, length: nat, str: array<byte>, capacity: nat)
    returns (priority: uint16, weight: uint16, port: uint16, n: nat)
    requires size <= buffer.Length && capacity <= str.Length && buffer != str
    modifies str
    ensures n <= str.Length
    ensures SrvData(priority, weight, port, str[..n]) == ParseSrv(buffer[..size], offset, length, capacity)
  {
    hide ReadName, NameEnd, Dotted;
    priority, weight, port, n := 0, 0, 0, 0;
    if size >= offset + length && length >= 8 {
      priority := Word(buffer, offset);
      weight := Word(buffer, offset + 2);
      port := Word(buffer, offset + 4);
      var end;
      n, end := StringExtract(buffer, size, offset + 6, str, capacity);
    }
  }

  /** `mdns_record_parse_a` and `mdns_record_parse_aaaa`, for addresses of four octets and of sixteen. */
  method RecordParseAddress(buffer: array<byte>, size: nat, offset: nat, length: nat, ipv6: bool)
    returns (address: seq<byte>)
    requires size <= buffer.Length
    ensures address == ParseAddress(buffer[..size], offset, length, if ipv6 then 16 else 4)
  {
    address := if ipv6 then seq(16, _ => 0) else seq(4, _ => 0);
    if size >= offset + length && length == |address| {
      address := buffer[offset..offset + length];
    }
  }

  /** The scan for the end of the key. */
  method ScanKey(buffer: array<byte>, start: nat, length: nat) returns (separator: nat)
    requires start + length <= buffer.Length
    ensures separator == Separator(buffer[start..start + length])
  {
    ghost var s := buffer[start..start + length];
    var c := 0;
    while c < length && 0x20 <= buffer[start + c] <= 0x7E && buffer[start + c] != '=' as int
      invariant c <= length
      invariant Separator(s) == SeparatorFrom(s, c)
    {
      c := c + 1;
    }
    separator := if c == length then length else if buffer[start + c] == '=' as int then c else 0;
  }

  lemma ParseTxtStep(b: seq<byte>, offset: nat, next: nat, end: nat, room: nat, records: seq<Pair>, s: seq<byte>)
    requires offset < end <= |b| && 0 < room && b[offset] < end - offset
    requires next == offset + 1 + b[offset] && s == b[offset + 1..next]
    ensures var pair := ParseString(s);
            records + ParseTxt(b, offset, end, room) ==
            Noted(records, pair) + ParseTxt(b, next, end, if pair.Some? then room - 1 else room)
  {
    hide ParseString;
  }

  function Noted(records: seq<Pair>, pair: Option<Pair>): seq<Pair> {
    match pair case None => records case Some(p) => records + [p]
  }

  /** One string: its pair, if it has a key. */
  method ReadString(buffer: array<byte>, strdata: nat, sublength: nat) returns (pair: Option<Pair>)
    requires strdata + sublength <= buffer.Length
    ensures pair == ParseString(buffer[strdata..strdata + sublength])
  {
    var separator := ScanKey(buffer, strdata, sublength);
    var s := buffer[strdata..strdata + sublength];
    if separator == 0 {
      pair := None;
    } else if separator < sublength {
      pair := Some(Pair(s[..separator], Some(s[separator + 1..])));
    } else {
      pair := Some(Pair(s, None));
    }
  }

  lemma TxtStops(b: seq<byte>, offset: nat, end: nat, room: nat)
    requires end <= |b| && (end <= offset || room == 0 || end - offset <= b[offset])
    ensures ParseTxt(b, offset, end, room) == []
  {
  }

  /** `mdns_record_parse_txt`. */
  method RecordParseTxt(buffer: array<byte>, size: nat, start: nat, length: nat, capacity: nat)
    returns (records: seq<Pair>)
    requires size <= buffer.Length
    ensures records == ParseTxt(buffer[..size], start, if size < start + length then size else start + length, capacity)
  {
    hide ParseTxt, ParseString;
    ghost var b := buffer[..size];
    var end := start + length;
    if size < end {
      end := size;
    }
    var offset := start;
    records := [];
    ghost var room := capacity;
    ghost var all := ParseTxt(b, start, end, capacity);
    assert [] + all == all;
    var stop := false;
    while !stop && offset < end && |records| < capacity
      invariant |records| + room == capacity
      invariant if stop then all == records else all == records + ParseTxt(b, offset, end, room)
      decreases end - offset, !stop
    {
      var sublength := buffer[offset];
      if sublength >= end - offset {
        TxtStops(b, offset, end, room);
        stop := true;
      } else {
        var next := offset + 1 + sublength;
        ghost var s := b[offset + 1..next];
        PrefixSlice(buffer, size, offset + 1, next);
        ParseTxtStep(b, offset, next, end, room, records, s);
        var pair := ReadString(buffer, offset + 1, sublength);
        records := Noted(records, pair);
        room := if pair.Some? then room - 1 else room;
        offset := next;
      }
    }
    if !stop {
      TxtStops(b, offset, end, room);
    }
  }
}
