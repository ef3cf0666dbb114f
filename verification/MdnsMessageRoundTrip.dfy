/**
  Taking a response apart again: the entries that the callback is told of, and what the parsers of
  their data return, are the records that were written.
 */
module MdnsMessageRoundTrip {
  import opened Wrappers
  import opened Bytes
  import opened MdnsDecode
  import opened MdnsEncode
  import opened MdnsRoundTrip
  import opened MdnsMessage
  import opened MdnsMessageProof

  // ---------------------------------------------------------------- text records

  function AsPairs(pairs: seq<(seq<byte>, seq<byte>)>): seq<Pair> {
    if pairs == [] then [] else [Pair(pairs[0].0, Some(pairs[0].1))] + AsPairs(pairs[1..])
  }

  lemma {:induction false} SeparatorOfKey(key: seq<byte>, value: seq<byte>, c: nat)
    requires c <= |key| && forall i :: 0 <= i < c ==> 0x20 <= key[i] <= 0x7E && key[i] != '=' as int
    ensures SeparatorFrom(key + ['=' as int] + value, c) == |key| <==> (key == [] || GoodKey(key))
    ensures SeparatorFrom(key + ['=' as int] + value, c) <= |key|
    decreases |key| - c
  {
    var s := key + ['=' as int] + value;
    if c < |key| {
      assert s[c] == key[c];
      if 0x20 <= key[c] <= 0x7E && key[c] != '=' as int {
        SeparatorOfKey(key, value, c + 1);
      }
    } else {
      assert s[c] == '=' as int;
    }
  }

  /** One string of a text record comes back as its key and value exactly when the key is a proper one. */
  lemma StringReadsBackIff(key: seq<byte>, value: seq<byte>)
    ensures ParseString(key + ['=' as int] + value) == Some(Pair(key, Some(value))) <==> GoodKey(key)
  {
    var s := key + ['=' as int] + value;
    SeparatorOfKey(key, value, 0);
    var n := Separator(s);
    assert s[..|key|] == key && s[|key| + 1..] == value;
    if n < |key| {
      assert |s[..n]| != |key|;
    }
  }

  ghost predicate PairsGood(pairs: seq<(seq<byte>, seq<byte>)>) {
    forall i :: 0 <= i < |pairs| ==> GoodKey(pairs[i].0) && |pairs[i].0| + |pairs[i].1| + 1 < 0x100
  }

  lemma FirstString(b: seq<byte>, pos: nat, end: nat, key: seq<byte>, value: seq<byte>, rest: seq<byte>)
    requires pos <= end <= |b| && b[pos..end] == TxtOctets(key, value) + rest
    requires |key| + |value| + 1 < 0x100
    ensures var next := pos + 1 + |key| + 1 + |value|;
            next <= end && b[pos] == |key| + |value| + 1 && b[next..end] == rest
            && b[pos + 1..next] == key + ['=' as int] + value
  {
    var t := TxtOctets(key, value);
    var next := pos + |t|;
    var s := b[pos..end];
    assert s[0] == t[0] && s[..|t|] == t && s[|t|..] == rest;
    assert b[pos..next] == s[..|t|] && b[next..end] == s[|t|..];
    assert b[pos + 1..next] == b[pos..next][1..] == t[1..] == key + ['=' as int] + value;
  }

  lemma {:induction false} StringsReadBack(b: seq<byte>, pos: nat, end: nat, pairs: seq<(seq<byte>, seq<byte>)>,
                                           capacity: nat)
    requires pos <= end <= |b| && b[pos..end] == PairsOctets(pairs)
    requires PairsGood(pairs) && |pairs| <= capacity
    ensures ParseTxt(b, pos, end, capacity) == AsPairs(pairs)
    decreases |pairs|
  {
    hide ParseString, TxtOctets, GoodKey;
    if pairs != [] {
      var key, value := pairs[0].0, pairs[0].1;
      FirstString(b, pos, end, key, value, PairsOctets(pairs[1..]));
      StringReadsBackIff(key, value);
      StringsReadBack(b, pos + 1 + |key| + 1 + |value|, end, pairs[1..], capacity - 1);
    }
  }

  // ---------------------------------------------------------------- one record

  ghost predicate BodyFits(body: Body) {
    match body
    case Target(labels) => |labels| <= MAX_SUBSTRINGS
    case Service(_, _, _, host) => |host| <= MAX_SUBSTRINGS
    case Octets(_) => true
    case Strings(pairs) => PairsGood(pairs)
  }

  ghost predicate Fits(w: Wire) {
    |w.name| <= MAX_SUBSTRINGS && BodyFits(w.body)
  }

  /**
    What the parsers return for the data of the record, given room for `n` octets or pairs. The
    service parser asks for eight octets, one more than a service whose host is the root takes: such
    a service comes back empty.
   */
  ghost predicate DataRead(b: seq<byte>, offset: nat, length: nat, body: Body, n: nat) {
    offset + length <= |b| &&
    match body
    case Target(labels) => ParsePtr(b, offset, length, n) == Take(Dotted(labels), n)
    case Service(priority, weight, port, host) =>
      ParseSrv(b, offset, length, n) ==
      if host == [] then SrvData(0, 0, 0, []) else SrvData(priority, weight, port, Take(Dotted(host), n))
    case Octets(s) => length == |s| && ParseAddress(b, offset, length, |s|) == s
    case Strings(pairs) => |pairs| <= n ==> ParseTxt(b, offset, offset + length, n) == AsPairs(pairs)
  }

  /** The entry tells of this record. */
  ghost predicate Describes(b: seq<byte>, e: Entry, w: Wire, n: nat) {
    && Name(b, e.nameOffset) == Some(w.name)
    && e.rtype == w.rtype && e.rclass == w.rclass && e.ttl == w.ttl
    && DataRead(b, e.recordOffset, e.recordLength, w.body, n)
  }

  /** As many entries as records, each telling of its own. */
  ghost predicate DescribesAll(b: seq<byte>, es: seq<Entry>, ws: seq<Wire>, n: nat)
    decreases |ws|
  {
    |es| == |ws| && (ws == [] || (Describes(b, es[0], ws[0], n) && DescribesAll(b, es[1..], ws[1..], n)))
  }

  lemma Get16Octets(b: seq<byte>, pos: nat, n: uint16)
    requires pos + 2 <= |b| && b[pos] == Octets16(n)[0] && b[pos + 1] == Octets16(n)[1]
    ensures Get16(b, pos) == n
  {
  }

  lemma FixedFields(b: seq<byte>, known: set<nat>, pos: nat, w: Wire)
    requires OctetsAt(b, known, pos, FixedOctets(w))
    ensures Get16(b, pos) == w.rtype && Get16(b, pos + 2) == w.rclass && Get32(b, pos + 4) == w.ttl
  {
    var s := FixedOctets(w);
    assert forall i :: 0 <= i < 8 ==> b[pos + i] == b[pos..pos + 8][i] == s[i];
    Get16Octets(b, pos, w.rtype);
    Get16Octets(b, pos + 2, w.rclass);
    Get16Octets(b, pos + 4, w.ttl / 0x1_0000);
    Get16Octets(b, pos + 6, w.ttl % 0x1_0000);
  }

  lemma ServiceFields(b: seq<byte>, known: set<nat>, pos: nat, priority: uint16, weight: uint16, port: uint16)
    requires OctetsAt(b, known, pos, Octets16(priority) + Octets16(weight) + Octets16(port))
    ensures Get16(b, pos) == priority && Get16(b, pos + 2) == weight && Get16(b, pos + 4) == port
  {
    var s := Octets16(priority) + Octets16(weight) + Octets16(port);
    assert forall i :: 0 <= i < 6 ==> b[pos + i] == b[pos..pos + 6][i] == s[i];
    Get16Octets(b, pos, priority);
    Get16Octets(b, pos + 2, weight);
    Get16Octets(b, pos + 4, port);
  }

  lemma NameTakes(b: seq<byte>, known: set<nat>, pos: nat, end: nat, labels: seq<Label>)
    requires NameAt(b, known, pos, end, labels)
    ensures labels != [] ==> pos + 2 <= end
  {
    if labels != [] && !IsRef(b[pos]) {
      assert LabelAt(b, known, pos, labels[0]);
      var next := pos + 1 + |labels[0]|;
      assert Spells(b, known, next, labels[1..]);
      assert NameEnd(b, pos) == NameEnd(b, next);
      NameEndGrows(b, next);
    }
  }

  lemma BodyReads(b: seq<byte>, known: set<nat>, pos: nat, length: nat, end: nat, body: Body, n: nat)
    requires BodyAt(b, known, pos, end, body) && BodyFits(body) && Agree(b, known, b) && end == pos + length
    ensures DataRead(b, pos, length, body, n)
  {
    match body
    case Target(labels) =>
      NameAtReads(b, known, pos, end, labels, b);
      NameTakes(b, known, pos, end, labels);
    case Service(priority, weight, port, host) =>
      ServiceFields(b, known, pos, priority, weight, port);
      NameAtReads(b, known, pos + 6, end, host, b);
      NameTakes(b, known, pos + 6, end, host);
    case Octets(s) =>
    case Strings(pairs) =>
      if |pairs| <= n {
        StringsReadBack(b, pos, end, pairs, n);
      }
  }

  // ---------------------------------------------------------------- the message

  function EntryOf(w: Wire, pos: nat, at: nat, start: nat, length: nat): Entry {
    Entry(w.rtype, w.rclass, w.ttl, pos, at - pos, start, length)
  }

  lemma NameSkips(b: seq<byte>, known: set<nat>, pos: nat, at: nat, labels: seq<Label>)
    requires NameAt(b, known, pos, at, labels) && |labels| <= MAX_SUBSTRINGS && Agree(b, known, b)
    ensures SkipName(b, pos) == at && Name(b, pos) == Some(labels)
  {
    NameAtReads(b, known, pos, at, labels, b);
    ReadImpliesSkip(b, pos, MAX_SUBSTRINGS);
  }

  lemma WireDescribed(b: seq<byte>, known: set<nat>, pos: nat, at: nat, start: nat, length: nat, end: nat, w: Wire,
                      n: nat)
    requires WireAt(b, known, pos, start, end, w) && Fits(w) && Agree(b, known, b)
    requires at == NameEnd(b, pos) && end == start + length
    ensures SkipName(b, pos) == at
    ensures Describes(b, EntryOf(w, pos, at, start, length), w, n)
  {
    NameSkips(b, known, pos, at, w.name);
    BodyReads(b, known, start, length, end, w.body, n);
  }

  lemma WireParses(b: seq<byte>, known: set<nat>, pos: nat, at: nat, start: nat, length: nat, end: nat, w: Wire)
    requires WireAt(b, known, pos, start, end, w) && end <= |b| && SkipName(b, pos) == at == NameEnd(b, pos)
    requires start == at + 10 && end == start + length
    ensures EntryAt(b, pos) == Some(EntryOf(w, pos, at, start, length))
  {
    hide SkipName, NameEnd, Spells, BodyAt;
    FixedFields(b, known, at, w);
    LengthField(b, known, start, length);
  }

  lemma LengthField(b: seq<byte>, known: set<nat>, start: nat, length: uint16)
    requires 2 <= start && OctetsAt(b, known, start - 2, Octets16(length))
    ensures Get16(b, start - 2) == length
  {
    assert b[start - 2..start][0] == b[start - 2] && b[start - 2..start][1] == b[start - 1];
    Get16Octets(b, start - 2, length);
  }

  lemma {:induction false} WiresParse(b: seq<byte>, known: set<nat>, pos: nat, end: nat, ws: seq<Wire>, n: nat)
    requires WiresAt(b, known, pos, end, ws) && (forall w :: w in ws ==> Fits(w)) && Agree(b, known, b) && end <= |b|
    ensures ParseEnd(b, pos, |ws|) == end && DescribesAll(b, ParseRecords(b, pos, |ws|), ws, n)
    decreases |ws|
  {
    if ws != [] {
      var w, rest := ws[0], ws[1..];
      var start: nat, mid: nat :| WireAt(b, known, pos, start, mid, w) && WiresAt(b, known, mid, end, rest);
      WiresGrow(b, known, mid, end, rest);
      assert forall v :: v in rest ==> v in ws;
      WiresParse(b, known, mid, end, rest, n);
      var e := WireEntry(b, known, pos, start, mid, w, n);
      EntryThenRest(b, pos, e, mid, ws, n);
    }
  }

  lemma WireEntry(b: seq<byte>, known: set<nat>, pos: nat, start: nat, end: nat, w: Wire, n: nat) returns (e: Entry)
    requires WireAt(b, known, pos, start, end, w) && Fits(w) && Agree(b, known, b) && end <= |b|
    ensures EntryAt(b, pos) == Some(e) && e.recordOffset + e.recordLength == end && Describes(b, e, w, n)
  {
    hide Fits, Describes, EntryAt, NameEnd;
    var at := NameEnd(b, pos);
    e := EntryOf(w, pos, at, start, end - start);
    WireDescribed(b, known, pos, at, start, end - start, end, w, n);
    WireParses(b, known, pos, at, start, end - start, end, w);
  }

  lemma EntryThenRest(b: seq<byte>, pos: nat, e: Entry, end: nat, ws: seq<Wire>, n: nat)
    requires ws != [] && EntryAt(b, pos) == Some(e) && e.recordOffset + e.recordLength == end <= |b|
    requires Describes(b, e, ws[0], n) && DescribesAll(b, ParseRecords(b, end, |ws| - 1), ws[1..], n)
    ensures ParseEnd(b, pos, |ws|) == ParseEnd(b, end, |ws| - 1)
    ensures DescribesAll(b, ParseRecords(b, pos, |ws|), ws, n)
  {
    hide EntryAt, Describes;
    ParseRecordsUnfolds(b, pos, e, |ws|, end);
    assert Told(|b|, e) == [e];
    var es := ParseRecords(b, end, |ws| - 1);
    assert ([e] + es)[1..] == es;
  }

  lemma WireFits(r: Record, rclass: uint16, ttl: uint32, finals: set<Label>)
    requires RecordGood(r, finals) && !r.data.Txt?
    ensures Fits(WireOf(Update(r, rclass, ttl)))
  {
    hide NameLabels, Disciplined;
  }

  lemma {:induction false} PlainWiresFit(rs: seq<Record>, rclass: uint16, ttl: uint32, finals: set<Label>)
    requires RecordsGood(rs, finals)
    ensures AllFit(PlainWires(rs, rclass, ttl))
    decreases |rs|
  {
    hide RecordGood, Fits, WireOf, Update;
    if rs != [] {
      assert rs[0] in rs && forall r :: r in rs[1..] ==> r in rs;
      PlainWiresFit(rs[1..], rclass, ttl, finals);
      if !rs[0].data.Txt? {
        WireFits(rs[0], rclass, ttl, finals);
      }
    }
  }

  lemma {:induction false} PairsFit(rs: seq<Record>, finals: set<Label>)
    requires RecordsGood(rs, finals)
    ensures PairsGood(Pairs(rs))
    decreases |rs|
  {
    hide NameGood, GoodKey;
    if rs != [] {
      assert rs[0] in rs && forall r :: r in rs[1..] ==> r in rs;
      PairsFit(rs[1..], finals);
    }
  }

  lemma {:induction false} TxtWiresFit(rs: seq<Record>, rclass: uint16, ttl: uint32, finals: set<Label>)
    requires RecordsGood(rs, finals)
    ensures AllFit(TxtWires(rs, rclass, ttl))
    decreases |rs|
  {
    hide NameLabels, Disciplined, DataGood, PairsGood;
    if rs != [] {
      assert rs[0] in rs && forall r :: r in rs[1..] ==> r in rs;
      TxtWiresFit(rs[1..], rclass, ttl, finals);
      PairsFit(rs, finals);
    }
  }

  ghost predicate AllFit(ws: seq<Wire>) {
    forall w :: w in ws ==> Fits(w)
  }

  /** The message on the wire: header, answer, authority section, additional section. */
  ghost predicate MessageAt(b: seq<byte>, known: set<nat>, m: nat, n: nat, end: nat, answers: seq<Wire>,
                            authority: seq<Wire>, additional: seq<Wire>) {
    && WiresAt(b, known, HEADER_SIZE, m, answers)
    && WiresAt(b, known, m, n, authority)
    && WiresAt(b, known, n, end, additional)
  }

  lemma MessageAgrees(b: seq<byte>, known: set<nat>, m: nat, n: nat, end: nat, answers: seq<Wire>,
                      authority: seq<Wire>, additional: seq<Wire>, c: seq<byte>)
    requires MessageAt(b, known, m, n, end, answers, authority, additional) && Agree(b, known, c) && end <= |c|
    ensures MessageAt(c, known, m, n, end, answers, authority, additional)
  {
    WiresGrow(b, known, n, end, additional);
    WiresGrow(b, known, m, n, authority);
    WiresAtAgrees(b, known, HEADER_SIZE, m, answers, c, known);
    WiresAtAgrees(b, known, m, n, authority, c, known);
    WiresAtAgrees(b, known, n, end, additional, c, known);
  }

  lemma HeaderFields(b: seq<byte>, known: set<nat>, authority: uint16, additional: uint16)
    requires OctetsAt(b, known, 0, MessageHeader(authority, additional))
    ensures Get16(b, 4) == 0 && Get16(b, 6) == 1 && Get16(b, 8) == authority && Get16(b, 10) == additional
  {
    var s := MessageHeader(authority, additional);
    assert forall i :: 0 <= i < HEADER_SIZE ==> b[i] == b[0..HEADER_SIZE][i] == s[i];
    Get16Octets(b, 4, 0);
    Get16Octets(b, 6, 1);
    Get16Octets(b, 8, authority);
    Get16Octets(b, 10, additional);
  }

  /** What is received of a message whose header counts its records. */
  lemma MessageReceived(b: seq<byte>, known: set<nat>, m: nat, n: nat, answers: seq<Wire>,
                        authority: seq<Wire>, additional: seq<Wire>, capacity: nat)
    requires HEADER_SIZE <= |b| && Agree(b, known, b)
    requires MessageAt(b, known, m, n, |b|, answers, authority, additional)
    requires AllFit(answers) && AllFit(authority) && AllFit(additional)
    requires |answers| == 1 && |b| <= 0x4000
    requires OctetsAt(b, known, 0, MessageHeader(|authority|, |additional|))
    ensures var r := Receive(b);
            && DescribesAll(b, r.answers, answers, capacity)
            && DescribesAll(b, r.authority, authority, capacity)
            && DescribesAll(b, r.additional, additional, capacity)
  {
    WiresGrow(b, known, n, |b|, additional);
    WiresGrow(b, known, m, n, authority);
    WiresGrow(b, known, HEADER_SIZE, m, answers);
    HeaderFields(b, known, |authority|, |additional|);
    WiresParse(b, known, HEADER_SIZE, m, answers, capacity);
    WiresParse(b, known, m, n, authority, capacity);
    WiresParse(b, known, n, |b|, additional, capacity);
  }

  /** The header, written into a buffer that is zero behind it. */
  lemma HeaderGood(b: seq<byte>, authority: nat, additional: nat, finals: set<Label>)
    requires HEADER_SIZE <= |b| && ZeroFrom(b, HEADER_SIZE)
    ensures var p := Put(Packet(b, 0, EMPTY_TABLE), MessageHeader(authority, additional));
            && Good(p, Range(0, HEADER_SIZE), map[], finals)
            && OctetsAt(p.b, Range(0, HEADER_SIZE), 0, MessageHeader(authority, additional))
  {
    var p := Packet(b, 0, EMPTY_TABLE);
    var s := MessageHeader(authority, additional);
    PutOctets(p, s, Range(0, HEADER_SIZE));
    forall i | HEADER_SIZE <= i < |b|
      ensures Put(p, s).b[i] == 0
    {
      assert b[i] == 0;
    }
  }

  /** A further section leaves header and records where they are. */
  lemma SectionFollows(p: Packet, s: seq<byte>, ws: seq<Wire>, rs: seq<Record>, rclass: uint16, ttl: uint32, q: Packet,
                       known: set<nat>, names: map<nat, seq<Label>>, finals: set<Label>)
    returns (known': set<nat>, names': map<nat, seq<Label>>)
    requires Good(p, known, names, finals) && RecordsGood(rs, finals) && |s| == HEADER_SIZE
    requires OctetsAt(p.b, known, 0, s) && WiresAt(p.b, known, HEADER_SIZE, p.w, ws)
    requires AddSection(p, rs, rclass, ttl) == Some(q) && q.w <= 0x4000
    ensures Good(q, known', names', finals) && known <= known' && Agree(p.b, known, q.b) && p.w <= |q.b|
    ensures OctetsAt(q.b, known', 0, s) && WiresAt(q.b, known', HEADER_SIZE, p.w, ws)
    ensures WiresAt(q.b, known', p.w, q.w, SectionWires(rs, rclass, ttl))
  {
    hide SectionWires, WiresAt, RecordGood;
    known', names' := AddSectionKeeps(p, rs, rclass, ttl, q, known, names, finals);
    OctetsAtAgrees(p.b, known, 0, s, q.b, known');
    WiresAtAgrees(p.b, known, HEADER_SIZE, p.w, ws, q.b, known');
  }

  lemma AnswerFollows(p: Packet, s: seq<byte>, r: Record, q: Packet, known: set<nat>, names: map<nat, seq<Label>>,
                      finals: set<Label>)
    returns (known': set<nat>, names': map<nat, seq<Label>>)
    requires Good(p, known, names, finals) && RecordGood(r, finals) && !r.data.Txt? && |s| == HEADER_SIZE == p.w
    requires OctetsAt(p.b, known, 0, s)
    requires AddRecord(p, r) == Some(q) && q.w <= 0x4000
    ensures Good(q, known', names', finals)
    ensures OctetsAt(q.b, known', 0, s) && WiresAt(q.b, known', HEADER_SIZE, q.w, [WireOf(r)])
  {
    hide WiresAt, WireOf, RecordGood;
    known', names' := AddRecordKeeps(p, r, q, known, names, finals);
    OctetsAtAgrees(p.b, known, 0, s, q.b, known');
  }

  /** Putting a message together leaves it on the wire. */
  lemma MessageWritten(b: seq<byte>, answer: Record, authority: seq<Record>, additional: seq<Record>,
                       rclass: uint16, ttl: uint32, q: Packet, finals: set<Label>)
    returns (known: set<nat>, m: nat, n: nat)
    requires ZeroFrom(b, HEADER_SIZE) && HEADER_SIZE <= |b|
    requires RecordGood(answer, finals) && RecordsGood(authority, finals) && RecordsGood(additional, finals)
    requires !answer.data.Txt?
    requires Assemble(b, answer, authority, additional, rclass, ttl) == Some(q) && q.w <= 0x4000
    ensures Below(known, q.w) && q.w <= |q.b|
    ensures OctetsAt(q.b, known, 0, MessageHeader(RecordCount(authority), RecordCount(additional)))
    ensures MessageAt(q.b, known, m, n, q.w, [WireOf(Update(answer, rclass, ttl))],
                      SectionWires(authority, rclass, ttl), SectionWires(additional, rclass, ttl))
  {
    hide SectionWires, AddSection, AddRecord, Update, RecordGood, WireOf, RecordCount, WiresAt;
    var s := MessageHeader(RecordCount(authority), RecordCount(additional));
    var p := Put(Packet(b, 0, EMPTY_TABLE), s);
    HeaderGood(b, RecordCount(authority), RecordCount(additional), finals);
    UpdateGood(answer, rclass, ttl, finals);
    var r := Update(answer, rclass, ttl);
    var p1 := AddRecord(p, r).value;
    var p2 := AddSection(p1, authority, rclass, ttl).value;
    var known1, names1 := AnswerFollows(p, s, r, p1, Range(0, HEADER_SIZE), map[], finals);
    var known2, names2 := SectionFollows(p1, s, [WireOf(r)], authority, rclass, ttl, p2, known1, names1, finals);
    var ws := SectionWires(authority, rclass, ttl);
    WiresAppend(p2.b, known2, HEADER_SIZE, p1.w, p2.w, [WireOf(r)], ws);
    var known3, names3 := SectionFollows(p2, s, [WireOf(r)] + ws, additional, rclass, ttl, q, known2, names2, finals);
    WiresAtAgrees(p2.b, known2, HEADER_SIZE, p1.w, [WireOf(r)], q.b, known3);
    WiresAtAgrees(p2.b, known2, p1.w, p2.w, ws, q.b, known3);
    known, m, n := known3, p1.w, p2.w;
  }

  /**
    The records of a whole response. Whatever `Assemble` puts together, from records whose names are
    well formed and disciplined and whose keys are proper, is received with as many records in each
    section as are on the wire, and every one of them is described.
   */
  lemma WiresReceived(b: seq<byte>, answer: Record, authority: seq<Record>, additional: seq<Record>,
                      rclass: uint16, ttl: uint32, q: Packet, finals: set<Label>, capacity: nat)
    requires HEADER_SIZE <= |b| && ZeroFrom(b, HEADER_SIZE)
    requires RecordGood(answer, finals) && RecordsGood(authority, finals) && RecordsGood(additional, finals)
    requires !answer.data.Txt?
    requires Assemble(b, answer, authority, additional, rclass, ttl) == Some(q) && q.w <= 0x4000
    ensures HEADER_SIZE <= q.w <= |q.b|
    ensures q.b[..HEADER_SIZE] == MessageHeader(RecordCount(authority), RecordCount(additional))
    ensures var sent := q.b[..q.w];
            var r := Receive(sent);
            && DescribesAll(sent, r.answers, [WireOf(Update(answer, rclass, ttl))], capacity)
            && DescribesAll(sent, r.authority, SectionWires(authority, rclass, ttl), capacity)
            && DescribesAll(sent, r.additional, SectionWires(additional, rclass, ttl), capacity)
  {
    hide SectionWires, Assemble, RecordGood, Receive, WireOf, Fits, DescribesAll;
    var answers := [WireOf(Update(answer, rclass, ttl))];
    var ws, vs := SectionWires(authority, rclass, ttl), SectionWires(additional, rclass, ttl);
    var known, m, n := MessageSent(b, answer, authority, additional, rclass, ttl, q, answers, ws, vs, finals);
    WireFits(answer, rclass, ttl, finals);
    SectionFits(authority, rclass, ttl, finals);
    SectionFits(additional, rclass, ttl, finals);
    MessageReceived(q.b[..q.w], known, m, n, answers, ws, vs, capacity);
  }

  lemma MessageSent(b: seq<byte>, answer: Record, authority: seq<Record>, additional: seq<Record>,
                    rclass: uint16, ttl: uint32, q: Packet, answers: seq<Wire>, ws: seq<Wire>, vs: seq<Wire>,
                    finals: set<Label>)
    returns (known: set<nat>, m: nat, n: nat)
    requires HEADER_SIZE <= |b| && ZeroFrom(b, HEADER_SIZE)
    requires RecordGood(answer, finals) && RecordsGood(authority, finals) && RecordsGood(additional, finals)
    requires !answer.data.Txt? && answers == [WireOf(Update(answer, rclass, ttl))]
    requires ws == SectionWires(authority, rclass, ttl) && vs == SectionWires(additional, rclass, ttl)
    requires Assemble(b, answer, authority, additional, rclass, ttl) == Some(q) && q.w <= 0x4000
    ensures HEADER_SIZE <= q.w <= |q.b| && Agree(q.b[..q.w], known, q.b[..q.w])
    ensures OctetsAt(q.b[..q.w], known, 0, MessageHeader(|ws|, |vs|))
    ensures q.b[..HEADER_SIZE] == MessageHeader(RecordCount(authority), RecordCount(additional))
    ensures MessageAt(q.b[..q.w], known, m, n, q.w, answers, ws, vs)
  {
    hide SectionWires, Assemble, WireOf, Update, RecordGood, RecordCount, MessageHeader;
    known, m, n := MessageWritten(b, answer, authority, additional, rclass, ttl, q, finals);
    SectionSize(authority, rclass, ttl);
    SectionSize(additional, rclass, ttl);
    WiresGrow(q.b, known, n, q.w, vs);
    WiresGrow(q.b, known, m, n, ws);
    WiresGrow(q.b, known, HEADER_SIZE, m, answers);
    var sent := q.b[..q.w];
    assert Agree(q.b, known, sent);
    OctetsAtAgrees(q.b, known, 0, MessageHeader(|ws|, |vs|), sent, known);
    MessageAgrees(q.b, known, m, n, q.w, answers, ws, vs, sent);
  }

  lemma SectionFits(rs: seq<Record>, rclass: uint16, ttl: uint32, finals: set<Label>)
    requires RecordsGood(rs, finals)
    ensures AllFit(SectionWires(rs, rclass, ttl))
  {
    PlainWiresFit(rs, rclass, ttl, finals);
    TxtWiresFit(rs, rclass, ttl, finals);
  }
}
