/**
  The parser of `3rdparty/crow/json.h` on its buffer: it moves a cursor, puts a zero over every closing
  quote and a flag over every opening one, and keys (later also values) are unescaped where they stand.
  What it returns points into the buffer.
 */
module JsonReader {
  import opened Wrappers
  import opened JsonSpec

  /** `rvalue`: strings and numbers are stretches of the buffer. */
  datatype RValue =
    | RNull | RFalse | RTrue | RNumber(start: nat, end: nat) | RString(start: nat, end: nat)
    | RList(items: seq<RValue>) | RObject(fields: seq<RField>) | RError

  datatype RField = RField(keyStart: nat, keyEnd: nat, value: RValue)

  /** What the string at `[start, end)` is: unescaped on its first use if its flag is set. */
  predicate StringAt(buf: seq<char>, start: nat, end: nat, s: string) {
    && 1 <= start <= end < |buf|
    && if buf[start - 1] == '\0' then s == buf[start..end]
       else WellEscaped(buf[start..end]) && s == Unescape(buf[start..end])
  }

  /** In this buffer, `r` stands for `v`. */
  predicate Denotes(buf: seq<char>, r: RValue, v: Json)
    decreases r
  {
    match r
    case RNull => v == Null
    case RFalse => v == False
    case RTrue => v == True
    case RNumber(start, end) => v.Number? && start <= end <= |buf| && v.text == buf[start..end]
    case RString(start, end) => v.Str? && StringAt(buf, start, end, v.s)
    case RList(items) =>
      v.List? && |v.items| == |items| && forall i :: 0 <= i < |items| ==> Denotes(buf, items[i], v.items[i])
    case RObject(fields) =>
      && v.Object? && |v.fields| == |fields|
      && forall i :: 0 <= i < |fields| ==>
           && StringAt(buf, fields[i].keyStart, fields[i].keyEnd, v.fields[i].key)
           && Denotes(buf, fields[i].value, v.fields[i].value)
    case RError => false
  }

  /** `r` points nowhere outside the stretch from `low` to `high`. */
  predicate Within(r: RValue, low: nat, high: nat)
    decreases r
  {
    match r
    case RNumber(start, end) => low <= start <= end <= high
    case RString(start, end) => low < start <= end < high
    case RList(items) => forall i :: 0 <= i < |items| ==> Within(items[i], low, high)
    case RObject(fields) => forall i :: 0 <= i < |fields| ==>
      low < fields[i].keyStart <= fields[i].keyEnd < high && Within(fields[i].value, low, high)
    case _ => true
  }

  /** Writing outside a stretch does not change what the values inside stand for. */
  lemma {:induction false} DenotesFrame(a: seq<char>, b: seq<char>, r: RValue, v: Json, low: nat, high: nat)
    requires Denotes(a, r, v) && Within(r, low, high) && low <= high <= |a| == |b| && a[low..high] == b[low..high]
    ensures Denotes(b, r, v)
    decreases r
  {
    match r
    case RNumber(start, end) =>
      SliceFrame(a, b, low, high, start, end);
    case RString(start, end) =>
      StringFrame(a, b, low, high, start, end, v.s);
    case RList(items) =>
      forall i | 0 <= i < |items| ensures Denotes(b, items[i], v.items[i]) {
        DenotesFrame(a, b, items[i], v.items[i], low, high);
      }
    case RObject(fields) =>
      forall i | 0 <= i < |fields|
        ensures StringAt(b, fields[i].keyStart, fields[i].keyEnd, v.fields[i].key)
        ensures Denotes(b, fields[i].value, v.fields[i].value)
      {
        StringFrame(a, b, low, high, fields[i].keyStart, fields[i].keyEnd, v.fields[i].key);
        DenotesFrame(a, b, fields[i].value, v.fields[i].value, low, high);
      }
    case _ =>
  }

  lemma SliceFrame(a: seq<char>, b: seq<char>, low: nat, high: nat, start: nat, end: nat)
    requires low <= start <= end <= high <= |a| == |b| && a[low..high] == b[low..high]
    ensures a[start..end] == b[start..end]
  {
    forall i | start <= i < end ensures a[i] == b[i] {
      assert a[low..high][i - low] == b[low..high][i - low];
    }
  }

  lemma StringFrame(a: seq<char>, b: seq<char>, low: nat, high: nat, start: nat, end: nat, s: string)
    requires StringAt(a, start, end, s) && low < start <= end < high <= |a| == |b| && a[low..high] == b[low..high]
    ensures StringAt(b, start, end, s)
  {
    SliceFrame(a, b, low, high, start, end);
    SliceFrame(a, b, low, high, start - 1, start);
    assert a[start - 1..start][0] == a[start - 1] && b[start - 1..start][0] == b[start - 1];
  }

  lemma {:induction false} WithinMore(r: RValue, low: nat, high: nat, less: nat, more: nat)
    requires Within(r, low, high) && less <= low && high <= more
    ensures Within(r, less, more)
    decreases r
  {
    match r
    case RList(items) =>
      forall i | 0 <= i < |items| ensures Within(items[i], less, more) {
        WithinMore(items[i], low, high, less, more);
      }
    case RObject(fields) =>
      forall i | 0 <= i < |fields| ensures Within(fields[i].value, less, more) {
        WithinMore(fields[i].value, low, high, less, more);
      }
    case _ =>
  }

  /** The items of a list that were decoded so far. */
  predicate DenoteAll(buf: seq<char>, items: seq<RValue>, values: seq<Json>, low: nat, high: nat) {
    && |items| == |values| && low <= high <= |buf|
    && forall i :: 0 <= i < |items| ==> Denotes(buf, items[i], values[i]) && Within(items[i], low, high)
  }

  /** One item more, decoded from `here` to `next` without touching what is before. */
  lemma DenoteMore(a: seq<char>, b: seq<char>, items: seq<RValue>, values: seq<Json>, low: nat, high: nat,
                   here: nat, next: nat, item: RValue, value: Json)
    requires DenoteAll(a, items, values, low, high) && high <= here <= |a| == |b| && a[..here] == b[..here]
    requires here <= next <= |b| && Denotes(b, item, value) && Within(item, here, next)
    ensures DenoteAll(b, items + [item], values + [value], low, next)
  {
    SliceFrame(a, b, 0, here, low, high);
    forall i | 0 <= i < |items| + 1
      ensures Denotes(b, (items + [item])[i], (values + [value])[i]) && Within((items + [item])[i], low, next)
    {
      if i < |items| {
        DenotesFrame(a, b, items[i], values[i], low, high);
        WithinMore(items[i], low, high, low, next);
      } else {
        WithinMore(item, here, next, low, next);
      }
    }
  }

  lemma DenoteWider(buf: seq<char>, items: seq<RValue>, values: seq<Json>, low: nat, high: nat, more: nat)
    requires DenoteAll(buf, items, values, low, high) && high <= more <= |buf|
    ensures DenoteAll(buf, items, values, low, more)
  {
    forall i | 0 <= i < |items| ensures Within(items[i], low, more) {
      WithinMore(items[i], low, high, low, more);
    }
  }

  lemma ListDenotes(buf: seq<char>, items: seq<RValue>, values: seq<Json>, low: nat, high: nat, less: nat, more: nat)
    requires DenoteAll(buf, items, values, low, high) && less <= low && high <= more
    ensures Denotes(buf, RList(items), List(values)) && Within(RList(items), less, more)
  {
    WithinMore(RList(items), low, high, less, more);
  }

  predicate FieldAt(buf: seq<char>, f: RField, field: Field, low: nat, high: nat) {
    && StringAt(buf, f.keyStart, f.keyEnd, field.key) && Denotes(buf, f.value, field.value)
    && low < f.keyStart <= f.keyEnd < high && Within(f.value, low, high)
  }

  predicate FieldsAt(buf: seq<char>, fs: seq<RField>, fields: seq<Field>, low: nat, high: nat) {
    && |fs| == |fields| && low <= high <= |buf|
    && forall i :: 0 <= i < |fs| ==> FieldAt(buf, fs[i], fields[i], low, high)
  }

  lemma FieldFrame(a: seq<char>, b: seq<char>, f: RField, field: Field, low: nat, high: nat, less: nat, more: nat)
    requires FieldAt(a, f, field, low, high) && low <= high <= |a| == |b| && a[low..high] == b[low..high]
    requires less <= low && high <= more
    ensures FieldAt(b, f, field, less, more)
  {
    StringFrame(a, b, low, high, f.keyStart, f.keyEnd, field.key);
    DenotesFrame(a, b, f.value, field.value, low, high);
    WithinMore(f.value, low, high, less, more);
  }

  lemma FieldsMore(a: seq<char>, b: seq<char>, fs: seq<RField>, fields: seq<Field>, low: nat, high: nat,
                   here: nat, next: nat, f: RField, field: Field)
    requires FieldsAt(a, fs, fields, low, high) && high <= here <= |a| == |b| && a[..here] == b[..here]
    requires here <= next <= |b| && FieldAt(b, f, field, here, next)
    ensures FieldsAt(b, fs + [f], fields + [field], low, next)
  {
    SliceFrame(a, b, 0, here, low, high);
    forall i | 0 <= i < |fs| + 1
      ensures FieldAt(b, (fs + [f])[i], (fields + [field])[i], low, next)
    {
      if i < |fs| {
        FieldFrame(a, b, fs[i], fields[i], low, high, low, next);
      } else {
        FieldFrame(b, b, f, field, here, next, low, next);
      }
    }
  }

  lemma FieldsWider(buf: seq<char>, fs: seq<RField>, fields: seq<Field>, low: nat, high: nat, more: nat)
    requires FieldsAt(buf, fs, fields, low, high) && high <= more <= |buf|
    ensures FieldsAt(buf, fs, fields, low, more)
  {
    forall i | 0 <= i < |fs| ensures FieldAt(buf, fs[i], fields[i], low, more) {
      FieldFrame(buf, buf, fs[i], fields[i], low, high, low, more);
    }
  }

  lemma ObjectDenotes(buf: seq<char>, fs: seq<RField>, fields: seq<Field>, low: nat, high: nat, less: nat, more: nat)
    requires FieldsAt(buf, fs, fields, low, high) && less <= low && high <= more
    ensures Denotes(buf, RObject(fs), Object(fields)) && Within(RObject(fs), less, more)
  {
    forall i | 0 <= i < |fs| ensures FieldAt(buf, fs[i], fields[i], less, more) {
      FieldFrame(buf, buf, fs[i], fields[i], low, high, less, more);
    }
  }

  // ---------------------------------------------------------------- unescaping in place

  /** The octets that the head of a text stands for, and how long that head is. */
  method UnescapeOne(buf: array<char>, head: nat, end: nat) returns (octets: string, length: nat)
    requires head < end <= buf.Length && WellEscaped(buf[head..end])
    ensures |octets| <= length <= end - head && length > 0
    ensures WellEscaped(buf[head + length..end])
    ensures Unescape(buf[head..end]) == octets + Unescape(buf[head + length..end])
  {
    hide FromHex, Utf8, Letter;
    ghost var raw := buf[head..end];
    if buf[head] == '\\' {
      assert raw[1] == buf[head + 1];
      if buf[head + 1] == 'u' {
        assert raw[6..] == buf[head + 6..end];
        assert raw[2] == buf[head + 2] && raw[3] == buf[head + 3] && raw[4] == buf[head + 4] && raw[5] == buf[head + 5];
        var a := FromHexOf(buf[head + 2]);
        var b := FromHexOf(buf[head + 3]);
        var c := FromHexOf(buf[head + 4]);
        var d := FromHexOf(buf[head + 5]);
        octets := EncodeUtf8(a * 0x1000 + b * 0x100 + c * 0x10 + d);
        length := 6;
      } else {
        assert raw[2..] == buf[head + 2..end];
        octets := LetterOf(buf[head + 1]);
        length := 2;
      }
    } else {
      assert raw[1..] == buf[head + 1..end];
      octets, length := [buf[head]], 1;
    }
  }

  method FromHexOf(c: char) returns (v: nat)
    requires IsHex(c)
    ensures v == FromHex(c) < 16
  {
    if c >= 'a' {
      v := c as int - 'a' as int + 10;
    } else if c >= 'A' {
      v := c as int - 'A' as int + 10;
    } else {
      v := c as int - '0' as int;
    }
  }

  /** The octets of a code; the parts that the shifts and masks leave share no bit. */
  method EncodeUtf8(code: nat) returns (octets: string)
    requires code < 0x10000
    ensures octets == Utf8(code) && |octets| <= 3
  {
    if code >= 0x800 {
      octets := [(0xE0 + code / 0x1000) as char, (0x80 + code / 0x40 % 0x40) as char, (0x80 + code % 0x40) as char];
    } else if code >= 0x80 {
      octets := [(0xC0 + code / 0x40) as char, (0x80 + code % 0x40) as char];
    } else {
      octets := [code as char];
    }
  }

  /** The switch over the letter behind a backslash. */
  method LetterOf(c: char) returns (octets: string)
    ensures octets == Letter(c) && |octets| <= 1
  {
    match c
    case '"' => octets := "\"";
    case '\\' => octets := "\\";
    case '/' => octets := "/";
    case 'b' => octets := [8 as char];
    case 'f' => octets := [12 as char];
    case 'n' => octets := "\n";
    case 'r' => octets := "\r";
    case 't' => octets := "\t";
    case _ => octets := "";
  }

  /**
    `rvalue::unescape` on the string at `[start, end)`: the write position never overtakes the read
    position, and nothing but the string, its flag and its terminator changes.
   */
  method UnescapeInPlace(buf: array<char>, start: nat, end: nat) returns (newEnd: nat)
    requires 1 <= start <= end < buf.Length
    requires buf[start - 1] != '\0' ==> WellEscaped(buf[start..end])
    modifies buf
    ensures start <= newEnd <= end
    ensures StringAt(buf[..], start, newEnd,
                     if old(buf[start - 1]) == '\0' then old(buf[start..end]) else Unescape(old(buf[start..end])))
    ensures forall i :: 0 <= i < start - 1 || end < i < buf.Length ==> buf[i] == old(buf[i])
  {
    hide WellEscaped, Unescape;
    newEnd := end;
    if buf[start - 1] != '\0' {
      newEnd := Compact(buf, start, end);
      ghost var s := buf[start..newEnd];
      buf[newEnd] := '\0';
      buf[start - 1] := '\0';
      assert buf[start..newEnd] == s;
    }
  }

  /** Its loop: what is read at `head` is written at `tail`. */
  method Compact(buf: array<char>, start: nat, end: nat) returns (tail: nat)
    requires start <= end <= buf.Length && WellEscaped(buf[start..end])
    modifies buf
    ensures start <= tail <= end && buf[start..tail] == Unescape(old(buf[start..end]))
    ensures forall i :: 0 <= i < start || end <= i < buf.Length ==> buf[i] == old(buf[i])
  {
    hide WellEscaped, Unescape;
    ghost var goal := Unescape(buf[start..end]);
    var head := start;
    tail := start;
    assert buf[start..start] + Unescape(buf[start..end]) == goal;
    while head != end
      invariant start <= tail <= head <= end && WellEscaped(buf[head..end])
      invariant buf[start..tail] + Unescape(buf[head..end]) == goal
      invariant forall i :: 0 <= i < start || end <= i < buf.Length ==> buf[i] == old(buf[i])
    {
      var octets, length := UnescapeOne(buf, head, end);
      ghost var done, rest := buf[start..tail], buf[head + length..end];
      Associates(done, octets, Unescape(rest));
      PutOctets(buf, start, tail, octets);
      SameFrom(rest, buf, head + length, end);
      tail := tail + |octets|;
      head := head + length;
    }
    UnescapeNothing(buf[head..end]);
  }

  lemma SameFrom(rest: string, buf: array<char>, from: nat, end: nat)
    requires from <= end <= buf.Length && |rest| == end - from
    requires forall i :: 0 <= i < |rest| ==> rest[i] == buf[from + i]
    ensures buf[from..end] == rest
  {
  }

  lemma Associates(a: string, b: string, c: string)
    ensures (a + b) + c == a + (b + c)
  {
  }

  lemma UnescapeNothing(raw: string)
    requires raw == ""
    ensures WellEscaped(raw) && Unescape(raw) == ""
  {
  }

  /** The assignments `*tail++ = ...`. */
  method PutOctets(buf: array<char>, start: nat, tail: nat, octets: string)
    requires start <= tail && tail + |octets| <= buf.Length
    modifies buf
    ensures buf[start..tail + |octets|] == old(buf[start..tail]) + octets
    ensures forall i :: 0 <= i < tail || tail + |octets| <= i < buf.Length ==> buf[i] == old(buf[i])
  {
    for i := 0 to |octets|
      invariant buf[start..tail + i] == old(buf[start..tail]) + octets[..i]
      invariant forall k :: 0 <= k < tail || tail + |octets| <= k < buf.Length ==> buf[k] == old(buf[k])
    {
      buf[tail + i] := octets[i];
      assert buf[start..tail + i + 1] == buf[start..tail + i] + [octets[i]];
    }
    assert octets[..|octets|] == octets;
  }
}
