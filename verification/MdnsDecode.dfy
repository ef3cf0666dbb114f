/**
  Reading domain names out of a packet (section 4.1.4 of RFC 1035), as `3rdparty/mdns.h` does it.

  `ReadName` is the reference: a recursive reading of labels and pointers. The loops of the
  library are methods over the packet array, proved to agree with it on every packet.
 */
module MdnsDecode {
  import opened Wrappers
  import opened Bytes

  const MAX_SUBSTRINGS: nat := 64
  const MAX_JUMPS: nat := 16

  type Label = seq<byte>

  predicate IsRef(v: byte) {
    0xC0 <= v
  }

  function Target(b: seq<byte>, pos: nat): (t: nat)
    requires pos + 2 <= |b|
    ensures t < 0x4000
  {
    Get16(b, pos) % 0x4000
  }

  // ---------------------------------------------------------------- reference decoder

  /**
    The labels of the name at `pos`: a zero octet ends the name, an octet with both top bits
    set starts a two-octet pointer, any other octet is the length of a label. At most `labels`
    labels, and at most `jumps` pointers in a row.
   */
  function ReadName(b: seq<byte>, pos: nat, labels: nat, jumps: nat): Option<seq<Label>>
    decreases labels, jumps
  {
    if |b| <= pos then None
    else if IsRef(b[pos]) then
      if |b| < pos + 2 || jumps == 0 then None
      else ReadName(b, Target(b, pos), labels, jumps - 1)
    else if b[pos] == 0 then Some([])
    else if |b| < pos + 1 + b[pos] || labels == 0 then None
    else
      var next := pos + 1 + b[pos];
      Prepend([b[pos + 1..next]], ReadName(b, next, labels - 1, MAX_JUMPS))
  }

  function Prepend(front: seq<Label>, rest: Option<seq<Label>>): Option<seq<Label>> {
    match rest
    case None => None
    case Some(ls) => Some(front + ls)
  }

  function Name(b: seq<byte>, pos: nat): Option<seq<Label>> {
    ReadName(b, pos, MAX_SUBSTRINGS, MAX_JUMPS)
  }

  /** Where the octets of the name at `pos` stop in the record itself: a pointer is its last part. */
  function NameEnd(b: seq<byte>, pos: nat): nat
    decreases |b| - pos
  {
    if |b| <= pos then pos
    else if IsRef(b[pos]) then pos + 2
    else if b[pos] == 0 then pos + 1
    else NameEnd(b, pos + 1 + b[pos])
  }

  /** The text of a name: every label followed by a dot. */
  function Dotted(labels: seq<Label>): seq<byte> {
    if labels == [] then [] else labels[0] + ['.' as int] + Dotted(labels[1..])
  }

  lemma {:induction false} DottedSnoc(labels: seq<Label>, l: Label)
    ensures Dotted(labels + [l]) == Dotted(labels) + (l + ['.' as int])
  {
    if labels == [] {
      assert (labels + [l])[1..] == [];
    } else {
      DottedSnoc(labels[1..], l);
      assert (labels + [l])[1..] == labels[1..] + [l];
    }
  }

  function Take(s: seq<byte>, n: nat): seq<byte> {
    if |s| <= n then s else s[..n]
  }

  // ---------------------------------------------------------------- one substring

  /** The library's view of one step: where the next label's octets are, or nothing. */
  datatype Substring = Invalid | Substring(offset: nat, length: nat, ref: bool)

  /** The position that a chain of at most `jumps` pointers from `pos` leads to. */
  function Follow(b: seq<byte>, pos: nat, jumps: nat): (r: Option<nat>)
    requires pos < |b|
    ensures r.Some? ==> r.value < |b| && !IsRef(b[r.value])
    decreases jumps
  {
    if !IsRef(b[pos]) then Some(pos)
    else if |b| < pos + 2 || jumps == 0 || |b| <= Target(b, pos) then None
    else Follow(b, Target(b, pos), jumps - 1)
  }

  function NextSubstring(b: seq<byte>, pos: nat): (r: Substring)
    ensures r.Substring? ==> r.offset + r.length <= |b|
  {
    if |b| <= pos then Invalid
    else if b[pos] == 0 then Substring(pos, 0, false)
    else match Follow(b, pos, MAX_JUMPS)
      case None => Invalid
      case Some(p) =>
        if |b| < p + 1 + b[p] then Invalid
        else Substring(p + 1, b[p], IsRef(b[pos]))
  }

  method GetNextSubstring(buffer: array<byte>, size: nat, start: nat) returns (pair: Substring)
    requires size <= buffer.Length
    ensures pair == NextSubstring(buffer[..size], start)
  {
    var offset: nat := start;
    if size <= offset {
      return Invalid;
    }
    if buffer[offset] == 0 {
      return Substring(offset, 0, false);
    }
    ghost var b := buffer[..size];
    var recursion := 0;
    var ref := false;
    while IsRef(buffer[offset])
      invariant offset < size
      invariant 0 <= recursion <= MAX_JUMPS
      invariant recursion == 0 ==> offset == start
      invariant ref <==> recursion > 0
      invariant recursion > 0 ==> IsRef(b[start])
      invariant Follow(b, start, MAX_JUMPS) == Follow(b, offset, MAX_JUMPS - recursion)
      decreases MAX_JUMPS - recursion
    {
      if size < offset + 2 {
        return Invalid;
      }
      ghost var here := offset;
      offset := (buffer[offset] as int * 0x100 + buffer[offset + 1]) % 0x4000;
      assert offset == Target(b, here);
      if size <= offset {
        return Invalid;
      }
      ref := true;
      recursion := recursion + 1;
      if MAX_JUMPS < recursion {
        return Invalid;
      }
    }
    var length := buffer[offset];
    offset := offset + 1;
    if size < offset + length {
      return Invalid;
    }
    pair := Substring(offset, length, ref);
  }

  lemma {:induction false} FollowReads(b: seq<byte>, pos: nat, labels: nat, jumps: nat, j: nat)
    requires pos < |b|
    ensures match Follow(b, pos, jumps)
            case None => ReadName(b, pos, labels, jumps).None?
            case Some(p) => ReadName(b, pos, labels, jumps) == ReadName(b, p, labels, j)
    decreases jumps
  {
    if !IsRef(b[pos]) {
      assert Follow(b, pos, jumps) == Some(pos);
    } else if |b| < pos + 2 || jumps == 0 {
    } else if |b| <= Target(b, pos) {
      assert ReadName(b, Target(b, pos), labels, jumps - 1).None?;
    } else {
      FollowReads(b, Target(b, pos), labels, jumps - 1, j);
    }
  }

  /** One step of the library is one step of the reference, whatever the octets are. */
  lemma SubstringReads(b: seq<byte>, pos: nat, labels: nat)
    ensures var s := NextSubstring(b, pos);
            ReadName(b, pos, labels, MAX_JUMPS) ==
            if s.Invalid? then None
            else if s.length == 0 then Some([])
            else if labels == 0 then None
            else Prepend([b[s.offset..s.offset + s.length]],
                         ReadName(b, s.offset + s.length, labels - 1, MAX_JUMPS))
  {
    hide ReadName;
    if pos < |b| {
      FollowReads(b, pos, labels, MAX_JUMPS, MAX_JUMPS);
      if Follow(b, pos, MAX_JUMPS).Some? {
        ReadNameHere(b, Follow(b, pos, MAX_JUMPS).value, labels, MAX_JUMPS);
      }
    } else {
      NothingBeyond(b, pos, labels, MAX_JUMPS);
    }
  }

  lemma NothingBeyond(b: seq<byte>, pos: nat, labels: nat, jumps: nat)
    requires |b| <= pos
    ensures ReadName(b, pos, labels, jumps) == None
  {
  }

  /** What is read where no pointer is. */
  lemma ReadNameHere(b: seq<byte>, pos: nat, labels: nat, jumps: nat)
    requires pos < |b| && !IsRef(b[pos])
    ensures ReadName(b, pos, labels, jumps) ==
            if b[pos] == 0 then Some([])
            else if |b| < pos + 1 + b[pos] || labels == 0 then None
            else Prepend([b[pos + 1..pos + 1 + b[pos]]], ReadName(b, pos + 1 + b[pos], labels - 1, MAX_JUMPS))
  {
  }

  lemma SubstringEnds(b: seq<byte>, pos: nat)
    requires NextSubstring(b, pos).Substring?
    ensures var s := NextSubstring(b, pos);
            NameEnd(b, pos) ==
            if s.ref then pos + 2 else if s.length == 0 then s.offset + 1
            else NameEnd(b, s.offset + s.length)
  {
  }

  // ---------------------------------------------------------------- skip

  /**
    Whether `mdns_string_skip` accepts the name: plain labels up to a zero octet or up to the
    first pointer, of which only the next label is looked at.
   */
  predicate Skippable(b: seq<byte>, pos: nat, labels: nat)
    decreases labels
  {
    var s := NextSubstring(b, pos);
    s.Substring? &&
    (s.ref || s.length == 0 || (labels > 0 && Skippable(b, s.offset + s.length, labels - 1)))
  }

  /** Whatever can be read can be skipped. */
  lemma {:induction false} ReadImpliesSkip(b: seq<byte>, pos: nat, labels: nat)
    requires ReadName(b, pos, labels, MAX_JUMPS).Some?
    ensures Skippable(b, pos, labels)
    decreases labels
  {
    SubstringReads(b, pos, labels);
    var s := NextSubstring(b, pos);
    if !s.ref && s.length != 0 {
      ReadImpliesSkip(b, s.offset + s.length, labels - 1);
    }
  }

  method StringSkip(buffer: array<byte>, size: nat, offset: nat) returns (ok: bool, end: nat)
    requires size <= buffer.Length
    ensures ok <==> Skippable(buffer[..size], offset, MAX_SUBSTRINGS)
    ensures Name(buffer[..size], offset).Some? ==> ok
    ensures end == if ok then NameEnd(buffer[..size], offset) else offset
  {
    hide NextSubstring, NameEnd;
    ghost var b := buffer[..size];
    if Name(b, offset).Some? {
      ReadImpliesSkip(b, offset, MAX_SUBSTRINGS);
    }
    var cur: nat := offset;
    var counter := 0;
    while true
      invariant 0 <= counter <= MAX_SUBSTRINGS + 1
      invariant counter <= MAX_SUBSTRINGS ==>
                  (Skippable(b, offset, MAX_SUBSTRINGS) <==> Skippable(b, cur, MAX_SUBSTRINGS - counter))
      invariant counter == MAX_SUBSTRINGS + 1 ==> !Skippable(b, offset, MAX_SUBSTRINGS)
      invariant NameEnd(b, offset) == NameEnd(b, cur)
      decreases MAX_SUBSTRINGS + 1 - counter
    {
      var substr := GetNextSubstring(buffer, size, cur);
      if substr.Invalid? || counter > MAX_SUBSTRINGS {
        return false, offset;
      }
      counter := counter + 1;
      SubstringEnds(b, cur);
      if substr.ref {
        return true, cur + 2;
      }
      cur := substr.offset + substr.length;
      if substr.length == 0 {
        break;
      }
    }
    return true, cur + 1;
  }

  // ---------------------------------------------------------------- extract

  /** After `counter` steps the reading has come to `cur`, with the labels `got` behind it. */
  ghost predicate Reading(b: seq<byte>, offset: nat, cur: nat, counter: nat, got: seq<Label>) {
    if counter <= MAX_SUBSTRINGS
    then Name(b, offset) == Prepend(got, ReadName(b, cur, MAX_SUBSTRINGS - counter, MAX_JUMPS))
    else Name(b, offset).None?
  }

  lemma ReadingStarts(b: seq<byte>, offset: nat)
    ensures Reading(b, offset, offset, 0, [])
  {
    assert forall ls: seq<Label> :: [] + ls == ls;
  }

  lemma PrependTwice(got: seq<Label>, l: Label, rest: Option<seq<Label>>)
    ensures Prepend(got, Prepend([l], rest)) == Prepend(got + [l], rest)
  {
    assert rest.Some? ==> got + ([l] + rest.value) == (got + [l]) + rest.value;
  }

  lemma ReadingStep(b: seq<byte>, offset: nat, cur: nat, counter: nat, got: seq<Label>)
    requires Reading(b, offset, cur, counter, got)
    ensures var s := NextSubstring(b, cur);
            if s.Invalid? || counter > MAX_SUBSTRINGS then Name(b, offset).None?
            else if s.length == 0 then Name(b, offset) == Some(got)
            else Reading(b, offset, s.offset + s.length, counter + 1,
                         got + [b[s.offset..s.offset + s.length]])
  {
    hide NextSubstring, ReadName;
    if counter <= MAX_SUBSTRINGS {
      var s := NextSubstring(b, cur);
      var rest := ReadName(b, cur, MAX_SUBSTRINGS - counter, MAX_JUMPS);
      SubstringReads(b, cur, MAX_SUBSTRINGS - counter);
      if s.Invalid? {
        assert rest == None;
      } else if s.length == 0 {
        assert rest == Some([]) && got + [] == got;
      } else if counter == MAX_SUBSTRINGS {
        assert rest == None;
      } else {
        PrependTwice(got, b[s.offset..s.offset + s.length],
                     ReadName(b, s.offset + s.length, MAX_SUBSTRINGS - (counter + 1), MAX_JUMPS));
      }
    }
  }

  /** `stop` is where the name ends if a pointer has been met, and then the end no longer depends on `cur`. */
  ghost predicate Ending(b: seq<byte>, offset: nat, cur: nat, stop: Option<nat>) {
    NameEnd(b, offset) == match stop case None => NameEnd(b, cur) case Some(e) => e
  }

  lemma EndingStarts(b: seq<byte>, offset: nat)
    ensures Ending(b, offset, offset, None)
  {
  }

  lemma NoText(capacity: nat)
    ensures Take([], capacity) == [] && Dotted([]) == []
  {
  }

  lemma EndingStep(b: seq<byte>, offset: nat, cur: nat, stop: Option<nat>)
    requires Ending(b, offset, cur, stop) && NextSubstring(b, cur).Substring?
    ensures var s := NextSubstring(b, cur);
            var stop' := if s.ref && stop.None? then Some(cur + 2) else stop;
            && (s.length != 0 ==> Ending(b, offset, s.offset + s.length, stop'))
            && (s.length == 0 ==>
                NameEnd(b, offset) == if stop'.None? then s.offset + s.length + 1 else stop'.value)
  {
    hide NextSubstring, NameEnd;
    SubstringEnds(b, cur);
  }

  /**
    `mdns_string_extract`: the dotted text of the name, cut at the capacity, and the position
    after the name; nothing is returned and the offset stays when the name cannot be read.
   */
  method StringExtract(buffer: array<byte>, size: nat, offset: nat, str: array<byte>, capacity: nat)
    returns (length: nat, end: nat)
    requires size <= buffer.Length && capacity <= str.Length && buffer != str
    modifies str
    ensures length <= capacity
    ensures match Name(buffer[..size], offset)
            case Some(labels) =>
              str[..length] == Take(Dotted(labels), capacity) && end == NameEnd(buffer[..size], offset)
            case None => length == 0 && end == offset
    ensures str[capacity..] == old(str[capacity..])
  {
    hide NextSubstring, ReadName, NameEnd, Take, Dotted, Reading, Ending;
    ghost var b := buffer[..size];
    ghost var got: seq<Label>, text: seq<byte> := [], [];
    var cur: nat := offset;
    var stop: Option<nat> := None;
    var dst: nat := 0;
    var counter := 0;
    ReadingStarts(b, offset);
    EndingStarts(b, offset);
    NoText(capacity);
    while true
      invariant 0 <= counter <= MAX_SUBSTRINGS + 1
      invariant buffer[..size] == b
      invariant Reading(b, offset, cur, counter, got)
      invariant Ending(b, offset, cur, stop)
      invariant text == Dotted(got)
      invariant dst <= capacity && str[..dst] == Take(text, capacity)
      invariant forall i :: capacity <= i < str.Length ==> str[i] == old(str[i])
      decreases MAX_SUBSTRINGS + 1 - counter
    {
      var substr := GetNextSubstring(buffer, size, cur);
      ReadingStep(b, offset, cur, counter, got);
      if substr.Invalid? || counter > MAX_SUBSTRINGS {
        return 0, offset;
      }
      EndingStep(b, offset, cur, stop);
      counter := counter + 1;
      if substr.ref && stop.None? {
        stop := Some(cur + 2);
      }
      if substr.length != 0 {
        ghost var l := b[substr.offset..substr.offset + substr.length];
        PrefixSlice(buffer, size, substr.offset, substr.offset + substr.length);
        DottedSnoc(got, l);
        dst := AppendLabel(buffer, substr.offset, substr.length, str, dst, capacity, text);
        got, text := got + [l], text + (l + ['.' as int]);
      }
      cur := substr.offset + substr.length;
      if substr.length == 0 {
        break;
      }
    }
    if stop.None? {
      stop := Some(cur + 1);
    }
    return dst, stop.value;
  }

  /** Copies one label and its dot behind the `dst` octets already written, as far as they fit. */
  method AppendLabel(buffer: array<byte>, from: nat, length: nat, str: array<byte>, dst: nat, capacity: nat,
                     ghost before: seq<byte>)
    returns (end: nat)
    requires from + length <= buffer.Length && dst <= capacity <= str.Length && buffer != str
    requires str[..dst] == Take(before, capacity)
    modifies str
    ensures end <= capacity
    ensures str[..end] == Take(before + (buffer[from..from + length] + ['.' as int]), capacity)
    ensures forall i :: capacity <= i < str.Length ==> str[i] == old(str[i])
  {
    var toCopy := if length < capacity - dst then length else capacity - dst;
    forall k | 0 <= k < toCopy {
      str[dst + k] := buffer[from + k];
    }
    end := dst + toCopy;
    assert str[..end] == old(str[..dst]) + buffer[from..from + length][..toCopy];
    TakeMore(before, buffer[from..from + length], dst, capacity);
    if end < capacity {
      str[end] := '.' as int;
      end := end + 1;
      assert str[..end] == old(str[..dst]) + buffer[from..from + length] + ['.' as int];
    }
  }

  /** What `dst` octets of `before` and then as much of a label and its dot as fit come to. */
  lemma TakeMore(before: seq<byte>, l: Label, dst: nat, capacity: nat)
    requires dst == |Take(before, capacity)|
    ensures var front := Take(before, capacity);
            Take(before + (l + ['.' as int]), capacity) ==
            if dst + |l| < capacity then front + l + ['.' as int]
            else front + l[..capacity - dst]
  {
    var all := before + (l + ['.' as int]);
    if |before| <= capacity {
      assert all == before + l + ['.' as int];
      if capacity <= |before| + |l| {
        assert all[..capacity] == before + l[..capacity - dst];
      }
    } else {
      assert all[..capacity] == before[..capacity] + [];
    }
  }

  lemma PrefixSlice(a: array<byte>, n: nat, i: nat, j: nat)
    requires i <= j <= n <= a.Length
    ensures a[..n][i..j] == a[i..j]
  {
  }

  // ---------------------------------------------------------------- equal

  function Lower(c: byte): byte {
    if 'A' as int <= c <= 'Z' as int then c + 32 else c
  }

  /** Two octets are the same letter, or the same octet. */
  lemma LowerMeans(a: byte, b: byte)
    ensures Lower(a) == Lower(b) <==>
      a == b || (65 <= a <= 90 && b as int == a as int + 32) || (65 <= b <= 90 && a as int == b as int + 32)
  {
  }

  /** `strncasecmp` over two labels of one length: it stops early where both have a NUL. */
  predicate SameText(l: Label, r: Label)
    requires |l| == |r|
  {
    l == [] || (Lower(l[0]) == Lower(r[0]) && (l[0] == 0 || SameText(l[1..], r[1..])))
  }

  /** Labels without a NUL are the same text if they are the same but for the case of letters. */
  lemma {:induction false} SameTextMeans(l: Label, r: Label)
    requires |l| == |r| && 0 !in l
    ensures SameText(l, r) <==> forall i :: 0 <= i < |l| ==>
      l[i] == r[i] || (65 <= l[i] <= 90 && r[i] as int == l[i] as int + 32)
      || (65 <= r[i] <= 90 && l[i] as int == r[i] as int + 32)
    decreases |l|
  {
    hide Lower;
    if l != [] {
      LowerMeans(l[0], r[0]);
      SameTextMeans(l[1..], r[1..]);
      assert l[0] in l && forall i :: 0 <= i < |l| - 1 ==> l[1..][i] == l[i + 1] && r[1..][i] == r[i + 1];
    }
  }

  predicate SameLabels(l: seq<Label>, r: seq<Label>) {
    |l| == |r| && forall i :: 0 <= i < |l| ==> |l[i]| == |r[i]| && SameText(l[i], r[i])
  }

  /** Names read from both sides match. */
  predicate SameNames(l: Option<seq<Label>>, r: Option<seq<Label>>) {
    l.Some? && r.Some? && SameLabels(l.value, r.value)
  }

  lemma SameNamesStep(x: Label, l: Option<seq<Label>>, y: Label, r: Option<seq<Label>>)
    ensures SameNames(Prepend([x], l), Prepend([y], r)) <==>
            (|x| == |y| && SameText(x, y) && SameNames(l, r))
  {
    if l.Some? && r.Some? {
      var ls, rs := [x] + l.value, [y] + r.value;
      assert ls[0] == x && rs[0] == y;
      assert forall i :: 0 <= i < |l.value| ==> ls[i + 1] == l.value[i];
      assert forall i :: 0 <= i < |r.value| ==> rs[i + 1] == r.value[i];
      if SameLabels(ls, rs) {
        forall i | 0 <= i < |l.value|
          ensures |l.value[i]| == |r.value[i]| && SameText(l.value[i], r.value[i])
        {
          assert |ls[i + 1]| == |rs[i + 1]| && SameText(ls[i + 1], rs[i + 1]);
        }
      }
    }
  }

  /** Both sides have been matched for `counter` steps, up to `l` and `r`. */
  ghost predicate Comparing(bl: seq<byte>, lhsOffset: nat, l: nat, br: seq<byte>, rhsOffset: nat, r: nat,
                            counter: nat) {
    SameNames(Name(bl, lhsOffset), Name(br, rhsOffset)) <==>
    (counter <= MAX_SUBSTRINGS &&
     SameNames(ReadName(bl, l, MAX_SUBSTRINGS - counter, MAX_JUMPS),
               ReadName(br, r, MAX_SUBSTRINGS - counter, MAX_JUMPS)))
  }

  lemma ComparingStep(bl: seq<byte>, lhsOffset: nat, l: nat, br: seq<byte>, rhsOffset: nat, r: nat, counter: nat)
    requires Comparing(bl, lhsOffset, l, br, rhsOffset, r, counter)
    ensures var x, y := NextSubstring(bl, l), NextSubstring(br, r);
            var same := SameNames(Name(bl, lhsOffset), Name(br, rhsOffset));
            if x.Invalid? || y.Invalid? || counter > MAX_SUBSTRINGS || x.length != y.length then !same
            else if x.length == 0 then same
            else
              var tx, ty := bl[x.offset..x.offset + x.length], br[y.offset..y.offset + y.length];
              if SameText(ty, tx)
              then Comparing(bl, lhsOffset, x.offset + x.length, br, rhsOffset, y.offset + y.length, counter + 1)
              else !same
  {
    hide NextSubstring, ReadName, SameText;
    if counter <= MAX_SUBSTRINGS {
      var n := MAX_SUBSTRINGS - counter;
      SubstringReads(bl, l, n);
      SubstringReads(br, r, n);
      var x, y := NextSubstring(bl, l), NextSubstring(br, r);
      if x.Substring? && y.Substring? && n > 0 && x.length != 0 && y.length != 0 {
        var tx, ty := bl[x.offset..x.offset + x.length], br[y.offset..y.offset + y.length];
        SameNamesStep(tx, ReadName(bl, x.offset + x.length, n - 1, MAX_JUMPS),
                      ty, ReadName(br, y.offset + y.length, n - 1, MAX_JUMPS));
        if x.length == y.length {
          SameTextSymmetric(tx, ty);
        }
      }
    }
  }

  method TextEqual(lhs: array<byte>, i: nat, rhs: array<byte>, j: nat, length: nat) returns (same: bool)
    requires i + length <= lhs.Length && j + length <= rhs.Length
    ensures same <==> SameText(lhs[i..i + length], rhs[j..j + length])
  {
    ghost var l, r := lhs[i..i + length], rhs[j..j + length];
    var k := 0;
    while k < length
      invariant k <= length
      invariant SameText(l, r) <==> SameText(l[k..], r[k..])
    {
      assert l[k..][1..] == l[k + 1..] && r[k..][1..] == r[k + 1..];
      if Lower(lhs[i + k]) != Lower(rhs[j + k]) {
        return false;
      }
      if lhs[i + k] == 0 {
        return true;
      }
      k := k + 1;
    }
    return true;
  }

  /**
    `mdns_string_equal`: true exactly when both names can be read and match label by label without
    regard to case; then both offsets move to where skipping would take them.
   */
  method StringEqual(lhs: array<byte>, lhsSize: nat, lhsOffset: nat, rhs: array<byte>, rhsSize: nat, rhsOffset: nat)
    returns (equal: bool, lhsAfter: nat, rhsAfter: nat)
    requires lhsSize <= lhs.Length && rhsSize <= rhs.Length
    ensures equal <==> SameNames(Name(lhs[..lhsSize], lhsOffset), Name(rhs[..rhsSize], rhsOffset))
    ensures lhsAfter == if equal then NameEnd(lhs[..lhsSize], lhsOffset) else lhsOffset
    ensures rhsAfter == if equal then NameEnd(rhs[..rhsSize], rhsOffset) else rhsOffset
  {
    hide NextSubstring, ReadName, NameEnd;
    ghost var bl, br := lhs[..lhsSize], rhs[..rhsSize];
    var l: nat, r: nat := lhsOffset, rhsOffset;
    var lhsEnd: Option<nat>, rhsEnd: Option<nat> := None, None;
    var counter := 0;
    while true
      invariant 0 <= counter <= MAX_SUBSTRINGS + 1
      invariant Comparing(bl, lhsOffset, l, br, rhsOffset, r, counter)
      invariant Ending(bl, lhsOffset, l, lhsEnd) && Ending(br, rhsOffset, r, rhsEnd)
      decreases MAX_SUBSTRINGS + 1 - counter
    {
      var lsub := GetNextSubstring(lhs, lhsSize, l);
      var rsub := GetNextSubstring(rhs, rhsSize, r);
      ComparingStep(bl, lhsOffset, l, br, rhsOffset, r, counter);
      if lsub.Invalid? || rsub.Invalid? || counter > MAX_SUBSTRINGS {
        return false, lhsOffset, rhsOffset;
      }
      EndingStep(bl, lhsOffset, l, lhsEnd);
      EndingStep(br, rhsOffset, r, rhsEnd);
      counter := counter + 1;
      if lsub.length != rsub.length {
        return false, lhsOffset, rhsOffset;
      }
      var same := TextEqual(rhs, rsub.offset, lhs, lsub.offset, rsub.length);
      PrefixSlice(lhs, lhsSize, lsub.offset, lsub.offset + lsub.length);
      PrefixSlice(rhs, rhsSize, rsub.offset, rsub.offset + rsub.length);
      if !same {
        return false, lhsOffset, rhsOffset;
      }
      if lsub.ref && lhsEnd.None? {
        lhsEnd := Some(l + 2);
      }
      if rsub.ref && rhsEnd.None? {
        rhsEnd := Some(r + 2);
      }
      l := lsub.offset + lsub.length;
      r := rsub.offset + rsub.length;
      if lsub.length == 0 {
        break;
      }
    }
    if lhsEnd.None? {
      lhsEnd := Some(l + 1);
    }
    if rhsEnd.None? {
      rhsEnd := Some(r + 1);
    }
    return true, lhsEnd.value, rhsEnd.value;
  }

  lemma {:induction false} SameTextSymmetric(l: Label, r: Label)
    requires |l| == |r|
    ensures SameText(l, r) <==> SameText(r, l)
  {
    if l != [] {
      SameTextSymmetric(l[1..], r[1..]);
    }
  }
}
