/**
  Writing domain names with back-pointers (section 4.1.4 of RFC 1035), as `3rdparty/mdns.h` does it.

  A ring of sixteen offsets remembers where labels were written. A name is written label by label
  until the labels that remain are found behind a remembered offset; a pointer to it ends the name.
  `Make` is the writer as a function of packet and table; the methods are the library's loops.
 */
module MdnsEncode {
  import opened Wrappers
  import opened Bytes
  import opened MdnsDecode

  const TABLE_CAPACITY: nat := 16
  const DOT: byte := 46

  // ---------------------------------------------------------------- names as text

  function FindDot(s: seq<byte>): (p: nat)
    ensures p <= |s|
    ensures p < |s| ==> s[p] == DOT
    ensures forall k :: 0 <= k < p ==> s[k] != DOT
  {
    if s == [] || s[0] == DOT then 0
    else
      FindDot(s[1..]) + 1
  }

  /** The labels between the dots; nothing follows a final dot. */
  function Labels(s: seq<byte>): (ls: seq<Label>)
    ensures s == [] <==> ls == []
  {
    if s == [] then []
    else
      var p := FindDot(s);
      if p == |s| then [s] else [s[..p]] + Labels(s[p + 1..])
  }

  function TrimDot(name: seq<byte>): seq<byte>
    requires name != []
  {
    if name[|name| - 1] == DOT then name[..|name| - 1] else name
  }

  predicate WellFormedLabel(l: Label) {
    0 < |l| <= 63
  }

  predicate WellFormed(labels: seq<Label>) {
    |labels| <= MAX_SUBSTRINGS && forall l :: l in labels ==> WellFormedLabel(l)
  }

  predicate DotFree(labels: seq<Label>) {
    forall l :: l in labels ==> DOT !in l && l != []
  }

  /** Writing labels out as text and splitting the text again gives the labels back. */
  lemma {:induction false} LabelsOfDotted(labels: seq<Label>)
    requires DotFree(labels)
    ensures Labels(Dotted(labels)) == labels
  {
    hide FindDot;
    if labels != [] {
      var l, rest := labels[0], Dotted(labels[1..]);
      var s := Dotted(labels);
      assert s == l + [DOT] + rest;
      var p := FindDot(s);
      assert s[|l|] == DOT;
      assert forall k :: 0 <= k < |l| ==> s[k] == l[k] && l[k] in l;
      assert s[..p] == l && s[p + 1..] == rest;
      assert forall m :: m in labels[1..] ==> m in labels;
      LabelsOfDotted(labels[1..]);
      assert labels == [l] + labels[1..];
    }
  }

  // ---------------------------------------------------------------- the offset table

  datatype Table = Table(offset: seq<nat>, count: nat, next: nat) {
    predicate Valid() {
      && |offset| == TABLE_CAPACITY
      && count <= TABLE_CAPACITY && next < TABLE_CAPACITY
      && (count < TABLE_CAPACITY ==> next == count)
    }

    function Add(pos: nat): (t: Table)
      requires Valid()
      ensures t.Valid()
      ensures forall i :: 0 <= i < t.count ==> t.offset[i] == pos || (i < count && t.offset[i] == offset[i])
    {
      Table(offset[next := pos],
            if count + 1 > TABLE_CAPACITY then TABLE_CAPACITY else count + 1,
            if next + 1 >= TABLE_CAPACITY then 0 else next + 1)
    }
  }

  const EMPTY_TABLE: Table := Table([0, 0, 0, 0, 0, 0, 0, 0, 0, 0, 0, 0, 0, 0, 0, 0], 0, 0)

  /** Where the substring at `pos` stops, if it is this label. */
  function LabelAfter(b: seq<byte>, pos: nat, l: Label): Option<nat> {
    var s := NextSubstring(b, pos);
    if s.Substring? && s.length != 0 && b[s.offset..s.offset + s.length] == l
    then Some(s.offset + s.length) else None
  }

  /** What lies at `pos` begins with these labels. Nothing is asked about what follows them. */
  predicate Matches(b: seq<byte>, pos: nat, labels: seq<Label>)
    decreases |labels|
  {
    labels == [] ||
    match LabelAfter(b, pos, labels[0])
    case None => false
    case Some(after) => Matches(b, after, labels[1..])
  }

  /** The first remembered offset from slot `k` on behind which the labels lie. */
  function TableFind(b: seq<byte>, t: Table, labels: seq<Label>, k: nat): (r: Option<nat>)
    requires t.Valid() && k <= t.count
    ensures r.Some? ==> Matches(b, r.value, labels) && exists i :: k <= i < t.count && t.offset[i] == r.value
    ensures r.None? ==> forall i :: k <= i < t.count ==> !Matches(b, t.offset[i], labels)
    decreases t.count - k
  {
    if k == t.count then None
    else if Matches(b, t.offset[k], labels) then Some(t.offset[k])
    else TableFind(b, t, labels, k + 1)
  }

  // ---------------------------------------------------------------- the writer

  datatype Packet = Packet(b: seq<byte>, w: nat, t: Table)

  function PointerOctets(ref: nat): seq<byte> {
    [0xC0 + ref % 0x4000 / 0x100, ref % 0x100]
  }

  function LabelOctets(l: Label): seq<byte> {
    [|l| % 0x100] + l
  }

  /** Writes the labels at the cursor; nothing when the packet has no room. */
  function Make(p: Packet, labels: seq<Label>): (r: Option<Packet>)
    requires p.t.Valid() && p.w <= |p.b|
    ensures r.Some? ==> r.value.t.Valid() && p.w < r.value.w <= |r.value.b| == |p.b|
    ensures r.Some? ==> forall i :: 0 <= i < p.w || r.value.w <= i < |p.b| ==> r.value.b[i] == p.b[i]
    decreases |labels|
  {
    if labels == [] then
      if p.w == |p.b| then None else Some(Packet(Overwrite(p.b, p.w, [0]), p.w + 1, p.t))
    else match TableFind(p.b, p.t, labels, 0)
      case Some(ref) =>
        if |p.b| - p.w < 2 then None
        else Some(Packet(Overwrite(p.b, p.w, PointerOctets(ref)), p.w + 2, p.t))
      case None =>
        if |p.b| - p.w <= |labels[0]| + 1 then None
        else Make(PutLabel(p, labels[0]), labels[1..])
  }

  function PutLabel(p: Packet, l: Label): (r: Packet)
    requires p.t.Valid() && p.w + |l| + 1 <= |p.b|
    ensures r.t.Valid() && r.w == p.w + |l| + 1 && |r.b| == |p.b|
    ensures forall i :: 0 <= i < p.w || r.w <= i < |p.b| ==> r.b[i] == p.b[i]
  {
    Packet(Overwrite(p.b, p.w, LabelOctets(l)), p.w + |l| + 1, p.t.Add(p.w))
  }

  // ---------------------------------------------------------------- the loops

  class StringTable {
    const offset: array<nat>
    var count: nat
    var next: nat

    ghost predicate Valid()
      reads this, offset
    {
      offset.Length == TABLE_CAPACITY && Value().Valid()
    }

    ghost function Value(): Table
      reads this, offset
    {
      Table(offset[..], count, next)
    }

    constructor ()
      ensures Valid() && Value() == EMPTY_TABLE && fresh(offset)
    {
      offset := new nat[TABLE_CAPACITY](_ => 0);
      count, next := 0, 0;
    }

    method Add(pos: nat)
      requires Valid()
      modifies this, offset
      ensures Valid() && Value() == old(Value().Add(pos))
    {
      offset[next] := pos;
      count := count + 1;
      if count > offset.Length {
        count := offset.Length;
      }
      next := next + 1;
      if next >= offset.Length {
        next := 0;
      }
    }

    /** `mdns_string_table_find`. */
    method Find(buffer: array<byte>, str: seq<byte>, firstLength: nat) returns (r: Option<nat>)
      requires Valid() && str != [] && firstLength == FindDot(str)
      ensures r == TableFind(buffer[..], Value(), Labels(str), 0)
    {
      hide Matches, Labels;
      ghost var b, t, labels := buffer[..], Value(), Labels(str);
      for istr := 0 to count
        invariant istr <= t.count == count
        invariant TableFind(b, t, labels, 0) == TableFind(b, t, labels, istr)
      {
        var found := MatchesAt(buffer, offset[istr], str, firstLength);
        if found {
          return Some(offset[istr]);
        }
      }
      return None;
    }

    static method MatchesAt(buffer: array<byte>, pos: nat, str: seq<byte>, firstLength: nat) returns (found: bool)
      requires str != [] && firstLength == FindDot(str)
      ensures found <==> Matches(buffer[..], pos, Labels(str))
    {
      hide Matches, Labels, LabelAfter, FindDot, From;
      MatchesWhole(buffer[..], pos, str, firstLength);
      found := false;
      if pos < buffer.Length {
        var cur := NextLabelIs(buffer, pos, str[..firstLength]);
        found := cur.Some?;
        if found {
          found := RestMatches(buffer, cur.value, str, firstLength + 1);
        }
      }
    }

    /** The loop over the labels behind the first. */
    static method RestMatches(buffer: array<byte>, pos: nat, str: seq<byte>, start: nat) returns (found: bool)
      ensures found <==> Matches(buffer[..], pos, Labels(From(str, start)))
    {
      hide Matches, Labels, LabelAfter, FindDot;
      ghost var b := buffer[..];
      ghost var goal := Matches(b, pos, Labels(From(str, start)));
      var cur, offset := pos, start;
      found := true;
      while found && offset < |str|
        invariant if found then goal <==> Matches(b, cur, Labels(From(str, offset))) else !goal
        decreases |str| - offset, found
      {
        var dotPos := StringFind(str, offset);
        MatchesFrom(b, cur, str, offset, dotPos);
        var after := NextLabelIs(buffer, cur, str[offset..dotPos]);
        if after.None? {
          found := false;
        } else {
          cur, offset := after.value, dotPos + 1;
        }
      }
      NothingMatches(b, cur);
    }

    /** The test that the first label and every later one is put to. */
    static method NextLabelIs(buffer: array<byte>, pos: nat, part: Label) returns (after: Option<nat>)
      ensures after == LabelAfter(buffer[..], pos, part)
    {
      assert buffer[..buffer.Length] == buffer[..];
      var sub := GetNextSubstring(buffer, buffer.Length, pos);
      if sub.Invalid? || sub.length == 0 || sub.length != |part| {
        return None;
      }
      if buffer[sub.offset..sub.offset + sub.length] != part {
        return None;
      }
      return Some(sub.offset + sub.length);
    }
  }

  function From(s: seq<byte>, n: nat): seq<byte> {
    if n < |s| then s[n..] else []
  }

  lemma LabelsFirst(s: seq<byte>)
    requires s != []
    ensures var p := FindDot(s);
            Labels(s) == [s[..p]] + Labels(From(s, p + 1))
  {
    hide FindDot;
    var p := FindDot(s);
    if p == |s| {
      assert s[..p] == s;
    } else if p + 1 == |s| {
      assert s[p + 1..] == [];
    }
  }

  lemma LabelsFrom(s: seq<byte>, n: nat, p: nat)
    requires n < |s| && p == n + FindDot(s[n..])
    ensures Labels(From(s, n)) == [s[n..p]] + Labels(From(s, p + 1))
  {
    var rest := s[n..];
    LabelsFirst(rest);
    assert rest[..p - n] == s[n..p];
    assert From(rest, p - n + 1) == From(s, p + 1);
  }

  lemma NothingMatches(b: seq<byte>, pos: nat)
    ensures Matches(b, pos, Labels([]))
  {
  }

  lemma MatchesFirst(b: seq<byte>, pos: nat, l: Label, labels: seq<Label>)
    ensures var after := LabelAfter(b, pos, l);
            Matches(b, pos, [l] + labels) <==> after.Some? && Matches(b, after.value, labels)
  {
    assert ([l] + labels)[1..] == labels;
  }

  lemma MatchesWhole(b: seq<byte>, pos: nat, s: seq<byte>, p: nat)
    requires s != [] && p == FindDot(s)
    ensures match LabelAfter(b, pos, s[..p])
            case None => !Matches(b, pos, Labels(s))
            case Some(after) => Matches(b, pos, Labels(s)) <==> Matches(b, after, Labels(From(s, p + 1)))
    ensures |b| <= pos ==> LabelAfter(b, pos, s[..p]) == None
  {
    hide Matches, Labels, FindDot;
    assert From(s, 0) == s && s[0..] == s;
    MatchesFrom(b, pos, s, 0, p);
  }

  lemma MatchesFrom(b: seq<byte>, pos: nat, s: seq<byte>, n: nat, p: nat)
    requires n < |s| && p == n + FindDot(s[n..])
    ensures match LabelAfter(b, pos, s[n..p])
            case None => !Matches(b, pos, Labels(From(s, n)))
            case Some(after) => Matches(b, pos, Labels(From(s, n))) <==> Matches(b, after, Labels(From(s, p + 1)))
  {
    hide Matches, LabelAfter, Labels;
    LabelsFrom(s, n, p);
    MatchesFirst(b, pos, s[n..p], Labels(From(s, p + 1)));
  }

  /** `mdns_string_find` for a dot, with the end of the text where none is found. */
  method StringFind(str: seq<byte>, from: nat) returns (pos: nat)
    requires from < |str|
    ensures pos == from + FindDot(str[from..])
  {
    pos := from;
    while pos < |str| && str[pos] != DOT
      invariant from <= pos <= |str|
      invariant from + FindDot(str[from..]) == pos + FindDot(str[pos..])
    {
      assert str[pos..][1..] == str[pos + 1..];
      pos := pos + 1;
    }
  }

  /** `mdns_string_make_ref`. */
  method StringMakeRef(buffer: array<byte>, data: nat, ref: nat) returns (r: Option<nat>)
    requires data <= buffer.Length
    modifies buffer
    ensures r == if buffer.Length - data < 2 then None else Some(data + 2)
    ensures r.Some? ==> buffer[..] == Overwrite(old(buffer[..]), data, PointerOctets(ref))
    ensures r.None? ==> buffer[..] == old(buffer[..])
  {
    if buffer.Length - data < 2 {
      return None;
    }
    buffer[data], buffer[data + 1] := 0xC0 + ref % 0x4000 / 0x100, ref % 0x100;
    return Some(data + 2);
  }

  /** One round of the writing loop: a label that is not to be found is written and remembered. */
  method StringMakeLabel(buffer: array<byte>, data: nat, part: Label, table: StringTable)
    requires table.Valid() && data + |part| + 1 <= buffer.Length
    modifies buffer, table, table.offset
    ensures table.Valid()
    ensures Packet(buffer[..], data + |part| + 1, table.Value()) ==
            PutLabel(old(Packet(buffer[..], data, table.Value())), part)
  {
    buffer[data] := |part| % 0x100;
    forall k | 0 <= k < |part| {
      buffer[data + 1 + k] := part[k];
    }
    assert buffer[..] == Overwrite(old(buffer[..]), data, LabelOctets(part));
    table.Add(data);
  }

  /** The packet that a returned cursor stands for; without a cursor the packet is given up. */
  function Outcome(cursor: Option<nat>, b: seq<byte>, t: Table): Option<Packet> {
    match cursor case None => None case Some(w) => Some(Packet(b, w, t))
  }

  lemma MakeFirst(p: Packet, l: Label, rest: seq<Label>)
    requires p.t.Valid() && p.w <= |p.b|
    ensures Make(p, [l] + rest) ==
            match TableFind(p.b, p.t, [l] + rest, 0)
            case Some(ref) =>
              if |p.b| - p.w < 2 then None
              else Some(Packet(Overwrite(p.b, p.w, PointerOctets(ref)), p.w + 2, p.t))
            case None =>
              if |p.b| - p.w <= |l| + 1 then None else Make(PutLabel(p, l), rest)
  {
    hide TableFind;
    assert ([l] + rest)[1..] == rest;
  }

  lemma MakeStep(p: Packet, text: seq<byte>, from: nat, pos: nat)
    requires p.t.Valid() && p.w <= |p.b| && from < |text| && pos == from + FindDot(text[from..])
    ensures Make(p, Labels(From(text, from))) ==
            match TableFind(p.b, p.t, Labels(text[from..]), 0)
            case Some(ref) =>
              if |p.b| - p.w < 2 then None
              else Some(Packet(Overwrite(p.b, p.w, PointerOctets(ref)), p.w + 2, p.t))
            case None =>
              if |p.b| - p.w <= pos - from + 1 then None
              else Make(PutLabel(p, text[from..pos]), Labels(From(text, pos + 1)))
  {
    hide Make, TableFind, Labels;
    LabelsFrom(text, from, pos);
    MakeFirst(p, text[from..pos], Labels(From(text, pos + 1)));
  }

  /** `mdns_string_make`: the cursor after the name, or nothing when it does not fit. */
  method StringMake(buffer: array<byte>, start: nat, name: seq<byte>, table: StringTable) returns (r: Option<nat>)
    requires table.Valid() && start <= buffer.Length && name != []
    modifies buffer, table, table.offset
    ensures table.Valid()
    ensures Outcome(r, buffer[..], table.Value()) ==
            Make(old(Packet(buffer[..], start, table.Value())), Labels(TrimDot(name)))
  {
    var length := |name|;
    if name[length - 1] == DOT {
      length := length - 1;
    }
    assert name[..length] == TrimDot(name);
    r := StringMakeText(buffer, start, name[..length], table);
  }

  /** The loop of `mdns_string_make`, for a name without its final dot. */
  method StringMakeText(buffer: array<byte>, start: nat, text: seq<byte>, table: StringTable) returns (r: Option<nat>)
    requires table.Valid() && start <= buffer.Length
    modifies buffer, table, table.offset
    ensures table.Valid()
    ensures Outcome(r, buffer[..], table.Value()) ==
            Make(old(Packet(buffer[..], start, table.Value())), Labels(text))
  {
    var data: nat := start;
    var lastPos := 0;
    ghost var made := Make(Packet(buffer[..], start, table.Value()), Labels(text));
    while lastPos < |text|
      invariant table.Valid() && data <= buffer.Length
      invariant made == Make(Packet(buffer[..], data, table.Value()), Labels(From(text, lastPos)))
      decreases |text| - lastPos
    {
      var done;
      done, r, lastPos := StringMakeRound(buffer, data, text, lastPos, table);
      if done {
        return r;
      }
      data := r.value;
    }
    r := StringMakeEnd(buffer, data);
  }

  /** One round: the name ends with a pointer or for want of room, or one more label is written. */
  method StringMakeRound(buffer: array<byte>, data: nat, text: seq<byte>, lastPos: nat, table: StringTable)
    returns (done: bool, r: Option<nat>, nextPos: nat)
    requires table.Valid() && data <= buffer.Length && lastPos < |text|
    modifies buffer, table, table.offset
    ensures table.Valid()
    ensures !done ==> r.Some? && r.value <= buffer.Length && lastPos < nextPos
    ensures var rest := old(Make(Packet(buffer[..], data, table.Value()), Labels(From(text, lastPos))));
            rest == if done then Outcome(r, buffer[..], table.Value())
                    else Make(Packet(buffer[..], r.value, table.Value()), Labels(From(text, nextPos)))
  {
    hide Make, TableFind, Labels, FindDot;
    var pos := StringFind(text, lastPos);
    ghost var p := Packet(buffer[..], data, table.Value());
    MakeStep(p, text, lastPos, pos);
    var subLength := pos - lastPos;
    var ref := table.Find(buffer, text[lastPos..], subLength);
    nextPos := pos + 1;
    if ref.Some? {
      r := StringMakeRef(buffer, data, ref.value);
      done := true;
    } else if buffer.Length - data <= subLength + 1 {
      done, r := true, None;
    } else {
      StringMakeLabel(buffer, data, text[lastPos..pos], table);
      assert Make(p, Labels(From(text, lastPos))) ==
             Make(Packet(buffer[..], data + subLength + 1, table.Value()), Labels(From(text, pos + 1)));
      done, r := false, Some(data + subLength + 1);
    }
  }

  /** The zero octet that ends a name. */
  method StringMakeEnd(buffer: array<byte>, data: nat) returns (r: Option<nat>)
    requires data <= buffer.Length
    modifies buffer
    ensures r == if data == buffer.Length then None else Some(data + 1)
    ensures r.Some? ==> buffer[..] == Overwrite(old(buffer[..]), data, [0])
  {
    if data == buffer.Length {
      return None;
    }
    buffer[data] := 0;
    return Some(data + 1);
  }
}
