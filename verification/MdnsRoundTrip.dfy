/**
  What is written is what is read: names written with one shared table read back, pointers included.

  A packet under construction is described by the set `known` of positions whose octets are final
  and the map `names` from the positions of remembered labels to the names that start there.
 */
module MdnsRoundTrip {
  import opened Wrappers
  import opened Bytes
  import opened MdnsDecode
  import opened MdnsEncode

  ghost predicate Known(known: set<nat>, from: nat, to: nat) {
    forall i: nat :: from <= i < to ==> i in known
  }

  ghost function Range(from: nat, to: nat): (s: set<nat>)
    ensures forall i :: i in s <==> from <= i < to
  {
    if to <= from then {} else Range(from, to - 1) + {to - 1}
  }

  /** `c` has the same octets as `b` wherever they are final. */
  ghost predicate Agree(b: seq<byte>, known: set<nat>, c: seq<byte>) {
    forall i: nat :: i in known ==> i < |b| && i < |c| && b[i] == c[i]
  }

  /**
    The labels are spelt out from `pos` on in final octets: plainly up to a zero octet, or up to a
    pointer back to a label from which the rest is spelt out.
   */
  ghost predicate Spells(b: seq<byte>, known: set<nat>, pos: nat, labels: seq<Label>)
    decreases |labels|, pos
  {
    pos < |b| && pos in known &&
    if IsRef(b[pos]) then
      && pos + 2 <= |b| && pos + 1 in known
      && Target(b, pos) < pos && !IsRef(b[Target(b, pos)])
      && Spells(b, known, Target(b, pos), labels)
    else if labels == [] then b[pos] == 0
    else
      && LabelAt(b, known, pos, labels[0])
      && Spells(b, known, pos + 1 + |labels[0]|, labels[1..])
  }

  ghost predicate LabelAt(b: seq<byte>, known: set<nat>, pos: nat, l: Label) {
    && WellFormedLabel(l) && pos + 1 + |l| <= |b| && Known(known, pos, pos + 1 + |l|)
    && b[pos] == |l| && b[pos + 1..pos + 1 + |l|] == l
  }

  lemma LabelAtAgrees(b: seq<byte>, known: set<nat>, pos: nat, l: Label, c: seq<byte>, known': set<nat>)
    requires LabelAt(b, known, pos, l) && Agree(b, known, c) && known <= known'
    ensures LabelAt(c, known', pos, l)
  {
    assert pos + |l| in known;
    assert forall i :: pos <= i < pos + 1 + |l| ==> c[i] == b[i];
  }

  /** Spelling survives whatever is written elsewhere. */
  lemma {:induction false} SpellsAgrees(b: seq<byte>, known: set<nat>, pos: nat, labels: seq<Label>,
                                        c: seq<byte>, known': set<nat>)
    requires Spells(b, known, pos, labels) && Agree(b, known, c) && known <= known'
    ensures Spells(c, known', pos, labels)
    decreases |labels|, pos
  {
    if IsRef(b[pos]) {
      SpellsAgrees(b, known, Target(b, pos), labels, c, known');
      assert Target(c, pos) == Target(b, pos) && Target(b, pos) in known;
    } else if labels != [] {
      LabelAtAgrees(b, known, pos, labels[0], c, known');
      SpellsAgrees(b, known, pos + 1 + |labels[0]|, labels[1..], c, known');
    }
  }

  /** A spelt name reads as its labels, when there are not too many of them. */
  lemma {:induction false} SpellsReads(b: seq<byte>, known: set<nat>, pos: nat, labels: seq<Label>, n: nat, jumps: nat)
    requires Spells(b, known, pos, labels) && (jumps > 0 || !IsRef(b[pos]))
    ensures ReadName(b, pos, n, jumps) == if |labels| <= n then Some(labels) else None
    decreases |labels|, pos
  {
    if IsRef(b[pos]) {
      SpellsReads(b, known, Target(b, pos), labels, n, jumps - 1);
    } else if labels != [] && n > 0 {
      SpellsReads(b, known, pos + 1 + |labels[0]|, labels[1..], n - 1, MAX_JUMPS);
      assert labels == [labels[0]] + labels[1..];
    }
  }

  /** Looking for labels behind a spelt name finds exactly the prefixes of the name. */
  lemma {:induction false} SpellsMatches(b: seq<byte>, known: set<nat>, pos: nat, name: seq<Label>, labels: seq<Label>)
    requires Spells(b, known, pos, name)
    ensures Matches(b, pos, labels) <==> labels <= name
    decreases |labels|
  {
    if labels != [] {
      SpellsSubstring(b, known, pos, name);
      var s := NextSubstring(b, pos);
      if name != [] && labels[0] == name[0] {
        SpellsMatches(b, known, s.offset + s.length, name[1..], labels[1..]);
        assert labels == [labels[0]] + labels[1..] && name == [name[0]] + name[1..];
        assert labels[1..] <= name[1..] <==> labels <= name;
      }
    }
  }

  lemma SpellsSubstring(b: seq<byte>, known: set<nat>, pos: nat, name: seq<Label>)
    requires Spells(b, known, pos, name)
    ensures var s := NextSubstring(b, pos);
            s.Substring? &&
            if name == [] then s.length == 0
            else s.length != 0 && b[s.offset..s.offset + s.length] == name[0]
                 && Spells(b, known, s.offset + s.length, name[1..])
  {
    var p := if IsRef(b[pos]) then Target(b, pos) else pos;
    assert Follow(b, p, MAX_JUMPS - 1) == Some(p);
    assert Follow(b, pos, MAX_JUMPS) == Some(p);
    assert Spells(b, known, p, name);
  }

  /** The labels stand plainly one after the other from `pos` to `end`. */
  ghost predicate Chain(b: seq<byte>, known: set<nat>, pos: nat, labels: seq<Label>, end: nat)
    decreases |labels|
  {
    if labels == [] then pos == end
    else LabelAt(b, known, pos, labels[0]) && Chain(b, known, pos + 1 + |labels[0]|, labels[1..], end)
  }

  lemma {:induction false} ChainAgrees(b: seq<byte>, known: set<nat>, pos: nat, labels: seq<Label>, end: nat,
                                       c: seq<byte>, known': set<nat>)
    requires Chain(b, known, pos, labels, end) && Agree(b, known, c) && known <= known'
    ensures Chain(c, known', pos, labels, end)
    decreases |labels|
  {
    if labels != [] {
      LabelAtAgrees(b, known, pos, labels[0], c, known');
      ChainAgrees(b, known, pos + 1 + |labels[0]|, labels[1..], end, c, known');
    }
  }

  lemma {:induction false} ChainSnoc(b: seq<byte>, known: set<nat>, pos: nat, labels: seq<Label>, mid: nat, l: Label)
    requires Chain(b, known, pos, labels, mid) && LabelAt(b, known, mid, l)
    ensures Chain(b, known, pos, labels + [l], mid + 1 + |l|)
    decreases |labels|
  {
    if labels == [] {
      assert ([l])[1..] == [];
      assert labels + [l] == [l];
    } else {
      ChainSnoc(b, known, pos + 1 + |labels[0]|, labels[1..], mid, l);
      assert (labels + [l])[1..] == labels[1..] + [l];
    }
  }

  lemma {:induction false} ChainSpells(b: seq<byte>, known: set<nat>, pos: nat, labels: seq<Label>, end: nat,
                                       rest: seq<Label>)
    requires Chain(b, known, pos, labels, end) && Spells(b, known, end, rest)
    ensures Spells(b, known, pos, labels + rest)
    decreases |labels|
  {
    if labels == [] {
      assert labels + rest == rest;
    } else {
      ChainSpells(b, known, pos + 1 + |labels[0]|, labels[1..], end, rest);
      assert (labels + rest)[1..] == labels[1..] + rest;
    }
  }

  lemma LabelAfterLabel(b: seq<byte>, known: set<nat>, pos: nat, l: Label, m: Label)
    requires LabelAt(b, known, pos, l)
    ensures LabelAfter(b, pos, m) == if m == l then Some(pos + 1 + |l|) else None
  {
    assert Follow(b, pos, MAX_JUMPS) == Some(pos);
  }

  lemma LabelAfterZero(b: seq<byte>, pos: nat, m: Label)
    requires pos < |b| && b[pos] == 0
    ensures LabelAfter(b, pos, m) == None
  {
  }

  /** Behind a chain that stops at a zero octet only its own prefixes are found. */
  lemma {:induction false} ChainMatches(b: seq<byte>, known: set<nat>, pos: nat, chain: seq<Label>, end: nat,
                                        labels: seq<Label>)
    requires Chain(b, known, pos, chain, end) && end < |b| && b[end] == 0
    requires Matches(b, pos, labels)
    ensures labels <= chain
    decreases |labels|
  {
    hide LabelAfter;
    if labels != [] {
      if chain == [] {
        LabelAfterZero(b, pos, labels[0]);
      } else {
        LabelAfterLabel(b, known, pos, chain[0], labels[0]);
        ChainMatches(b, known, pos + 1 + |chain[0]|, chain[1..], end, labels[1..]);
        PrefixCons(labels, chain);
      }
    }
  }

  lemma PrefixCons(s: seq<Label>, t: seq<Label>)
    requires s != [] && t != [] && s[0] == t[0] && s[1..] <= t[1..]
    ensures s <= t
  {
    assert s == [s[0]] + s[1..] && t == [t[0]] + t[1..];
  }

  /** A pointer from the end of a chain back to its start is never read to an end. */
  lemma {:induction false} LoopNeverReads(b: seq<byte>, known: set<nat>, pos: nat, chain: seq<Label>, end: nat, n: nat)
    requires Chain(b, known, pos, chain, end) && chain != []
    requires end + 2 <= |b| && IsRef(b[end]) && Target(b, end) == pos
    ensures ReadName(b, end, n, MAX_JUMPS).None?
    decreases n
  {
    ChainReads(b, known, pos, chain, end, n, MAX_JUMPS - 1);
    if |chain| <= n {
      LoopNeverReads(b, known, pos, chain, end, n - |chain|);
    }
  }

  lemma {:induction false} ChainReads(b: seq<byte>, known: set<nat>, pos: nat, chain: seq<Label>, end: nat, n: nat,
                                      jumps: nat)
    requires Chain(b, known, pos, chain, end) && (chain != [] || jumps == MAX_JUMPS)
    ensures |chain| > n ==> ReadName(b, pos, n, jumps).None?
    ensures |chain| <= n ==>
              (ReadName(b, pos, n, jumps).None? <==> ReadName(b, end, n - |chain|, MAX_JUMPS).None?)
    decreases |chain|
  {
    if chain != [] && n > 0 {
      ChainReads(b, known, pos + 1 + |chain[0]|, chain[1..], end, n - 1, MAX_JUMPS);
    }
  }

  // ---------------------------------------------------------------- the invariant of the writer

  ghost predicate NamesOk(b: seq<byte>, known: set<nat>, names: map<nat, seq<Label>>) {
    forall p :: p in names ==>
      p < 0x4000 && p in known && p < |b| && !IsRef(b[p]) && Spells(b, known, p, names[p])
  }

  /** Labels of the name being written: a plain chain from each of them to the cursor. */
  ghost predicate ProgressOk(b: seq<byte>, known: set<nat>, progress: map<nat, seq<Label>>, w: nat) {
    forall p :: p in progress ==> p < w && p < 0x4000 && progress[p] != [] && Chain(b, known, p, progress[p], w)
  }

  ghost predicate TableOk(t: Table, names: map<nat, seq<Label>>, progress: map<nat, seq<Label>>) {
    t.Valid() && forall i :: 0 <= i < t.count ==> t.offset[i] in names || t.offset[i] in progress
  }

  ghost predicate Below(known: set<nat>, w: nat) {
    forall i :: i in known ==> i < w
  }

  /** Every remembered offset starts a name that is spelt out before the cursor. */
  ghost predicate Inv(p: Packet, known: set<nat>, names: map<nat, seq<Label>>) {
    && p.w <= |p.b| && Below(known, p.w)
    && NamesOk(p.b, known, names) && TableOk(p.t, names, map[])
  }

  ghost predicate Extends(names: map<nat, seq<Label>>, names': map<nat, seq<Label>>) {
    forall p :: p in names ==> p in names' && names'[p] == names[p]
  }

  lemma NamesAgree(b: seq<byte>, known: set<nat>, names: map<nat, seq<Label>>, c: seq<byte>, known': set<nat>)
    requires NamesOk(b, known, names) && Agree(b, known, c) && known <= known'
    ensures NamesOk(c, known', names)
  {
    forall p | p in names
      ensures p < |c| && !IsRef(c[p]) && Spells(c, known', p, names[p])
    {
      SpellsAgrees(b, known, p, names[p], c, known');
    }
  }

  /** A hit: the labels from `index` on are found at `ref`, and none of the longer suffixes is found. */
  datatype Hit = Hit(index: nat, ref: nat)

  /** The first lookup of the writer that succeeds. */
  function FirstHit(p: Packet, labels: seq<Label>): (h: Option<Hit>)
    requires p.t.Valid() && p.w <= |p.b|
    ensures h.Some? ==> h.value.index < |labels|
    decreases |labels|
  {
    if labels == [] then None
    else match TableFind(p.b, p.t, labels, 0)
      case Some(ref) => Some(Hit(0, ref))
      case None =>
        if |p.b| - p.w <= |labels[0]| + 1 then None
        else Later(FirstHit(PutLabel(p, labels[0]), labels[1..]))
  }

  function Later(h: Option<Hit>): Option<Hit> {
    match h case None => None case Some(hit) => Some(Hit(hit.index + 1, hit.ref))
  }

  /** What the written name spells: a hit on a finished name continues with that whole name. */
  ghost function Spelt(labels: seq<Label>, h: Option<Hit>, names: map<nat, seq<Label>>): Option<seq<Label>>
    requires h.Some? ==> h.value.index < |labels|
  {
    match h
    case None => Some(labels)
    case Some(hit) => if hit.ref in names then Some(labels[..hit.index] + names[hit.ref]) else None
  }

  /** The written name: spelt from its start, and its last own octet is right before `end`. */
  ghost predicate NameAt(b: seq<byte>, known: set<nat>, pos: nat, end: nat, labels: seq<Label>) {
    pos < end <= |b| && Known(known, pos, end) && Spells(b, known, pos, labels) && NameEnd(b, pos) == end
  }

  lemma {:induction false} NameEndAgrees(b: seq<byte>, known: set<nat>, pos: nat, labels: seq<Label>, c: seq<byte>)
    requires Spells(b, known, pos, labels) && Agree(b, known, c)
    ensures NameEnd(c, pos) == NameEnd(b, pos)
    decreases |labels|
  {
    if !IsRef(b[pos]) && labels != [] {
      NameEndAgrees(b, known, pos + 1 + |labels[0]|, labels[1..], c);
    }
  }

  lemma {:induction false} NameEndGrows(b: seq<byte>, pos: nat)
    ensures pos <= NameEnd(b, pos)
    decreases |b| - pos
  {
    if pos < |b| && !IsRef(b[pos]) && b[pos] != 0 {
      NameEndGrows(b, pos + 1 + b[pos]);
    }
  }

  lemma NameAtAgrees(b: seq<byte>, known: set<nat>, pos: nat, end: nat, labels: seq<Label>, c: seq<byte>,
                     known': set<nat>)
    requires NameAt(b, known, pos, end, labels) && Agree(b, known, c) && known <= known'
    ensures NameAt(c, known', pos, end, labels)
  {
    SpellsAgrees(b, known, pos, labels, c, known');
    NameEndAgrees(b, known, pos, labels, c);
    assert end - 1 in known;
  }

  lemma ProgressSpells(b: seq<byte>, known: set<nat>, w: nat, k: nat, chain: seq<Label>, rest: seq<Label>,
                       c: seq<byte>, known': set<nat>)
    requires chain != [] && Chain(b, known, k, chain, w) && Agree(b, known, c) && known <= known'
    requires Spells(c, known', w, rest)
    ensures k in known' && k < |c| && !IsRef(c[k]) && Spells(c, known', k, chain + rest)
  {
    ChainAgrees(b, known, k, chain, w, c, known');
    ChainSpells(c, known', k, chain, w, rest);
    assert LabelAt(c, known', k, chain[0]);
  }

  ghost function Finished(progress: map<nat, seq<Label>>, rest: seq<Label>): map<nat, seq<Label>> {
    map k | k in progress :: progress[k] + rest
  }

  lemma FinishedOk(b: seq<byte>, known: set<nat>, w: nat, progress: map<nat, seq<Label>>, rest: seq<Label>,
                   c: seq<byte>, known': set<nat>)
    requires ProgressOk(b, known, progress, w) && Agree(b, known, c) && known <= known'
    requires Spells(c, known', w, rest)
    ensures NamesOk(c, known', Finished(progress, rest))
  {
    forall k | k in progress
      ensures k in known' && k < |c| && !IsRef(c[k]) && Spells(c, known', k, progress[k] + rest)
    {
      ProgressSpells(b, known, w, k, progress[k], rest, c, known');
    }
  }

  /** Once the end of the name is written, the labels in progress are names. */
  lemma FinishName(p: Packet, q: Packet, known: set<nat>, known': set<nat>, names: map<nat, seq<Label>>,
                   progress: map<nat, seq<Label>>, spelt: seq<Label>)
    returns (names': map<nat, seq<Label>>)
    requires q.w <= |q.b| && q.t == p.t && Agree(p.b, known, q.b) && known <= known' && Below(known', q.w)
    requires NamesOk(p.b, known, names) && ProgressOk(p.b, known, progress, p.w) && TableOk(p.t, names, progress)
    requires names.Keys !! progress.Keys
    requires Spells(q.b, known', p.w, spelt)
    ensures Inv(q, known', names') && Extends(names, names') && Continues(progress, spelt, names')
    ensures names'.Keys == names.Keys + progress.Keys
  {
    NamesAgree(p.b, known, names, q.b, known');
    FinishedOk(p.b, known, p.w, progress, spelt, q.b, known');
    names' := names + Finished(progress, spelt);
    MergedOk(q.b, known', names, Finished(progress, spelt));
  }

  lemma MergedOk(b: seq<byte>, known: set<nat>, names: map<nat, seq<Label>>, more: map<nat, seq<Label>>)
    requires NamesOk(b, known, names) && NamesOk(b, known, more)
    ensures NamesOk(b, known, names + more)
  {
  }

  lemma PointerTarget(ref: nat)
    requires ref < 0x4000
    ensures var o := PointerOctets(ref); IsRef(o[0]) && (o[0] as int * 0x100 + o[1]) % 0x4000 == ref
  {
    assert ref == ref / 0x100 * 0x100 + ref % 0x100;
    assert (0xC0 + ref / 0x100) * 0x100 + ref % 0x100 == 0xC000 + ref;
  }

  lemma PointerNameAt(p: Packet, q: Packet, ref: nat, known: set<nat>, known': set<nat>, names: map<nat, seq<Label>>)
    requires p.w + 2 <= |p.b| && q.b == Overwrite(p.b, p.w, PointerOctets(ref)) && q.w == p.w + 2
    requires Below(known, p.w) && NamesOk(p.b, known, names) && ref in names && Agree(p.b, known, q.b)
    requires known <= known' && Known(known', p.w, q.w)
    ensures NameAt(q.b, known', p.w, q.w, names[ref])
  {
    hide Spells, NameEnd;
    SpellsAgrees(p.b, known, ref, names[ref], q.b, known');
    assert ref in known && q.b[ref] == p.b[ref];
    assert q.b[p.w] == PointerOctets(ref)[0] && q.b[p.w + 1] == PointerOctets(ref)[1];
    PointerTarget(ref);
    PointerTo(q.b, known', p.w, ref, names[ref]);
  }

  lemma PointerTo(b: seq<byte>, known: set<nat>, pos: nat, ref: nat, labels: seq<Label>)
    requires pos + 2 <= |b| && pos in known && pos + 1 in known && IsRef(b[pos])
    requires Target(b, pos) == ref < pos && !IsRef(b[ref]) && Spells(b, known, ref, labels)
    ensures Spells(b, known, pos, labels) && NameEnd(b, pos) == pos + 2
  {
    hide Target;
  }

  lemma ProgressStep(p: Packet, l: Label, known: set<nat>, names: map<nat, seq<Label>>, progress: map<nat, seq<Label>>)
    returns (known1: set<nat>, progress1: map<nat, seq<Label>>)
    requires p.w + |l| + 1 <= |p.b| && p.w < 0x4000 && WellFormedLabel(l) && Below(known, p.w)
    requires NamesOk(p.b, known, names) && ProgressOk(p.b, known, progress, p.w) && TableOk(p.t, names, progress)
    requires names.Keys !! progress.Keys
    ensures var p1 := PutLabel(p, l);
            && OnlyFrom(known, p.w, known1) && Below(known1, p1.w) && NamesOk(p1.b, known1, names)
            && ProgressOk(p1.b, known1, progress1, p1.w) && TableOk(p1.t, names, progress1)
            && names.Keys !! progress1.Keys && LabelAt(p1.b, known1, p.w, l)
    ensures progress1.Keys == progress.Keys + {p.w} && progress1[p.w] == [l]
    ensures forall k :: k in progress ==> k in progress1 && progress1[k] == progress[k] + [l]
  {
    var p1 := PutLabel(p, l);
    known1 := known + Range(p.w, p1.w);
    assert Agree(p.b, known, p1.b);
    NamesAgree(p.b, known, names, p1.b, known1);
    LabelWritten(p, l, known1);
    progress1 := LongerProgress(p.b, known, p.w, progress, p1.b, known1, l, p1.w);
  }

  lemma LabelWritten(p: Packet, l: Label, known: set<nat>)
    requires p.t.Valid() && p.w + |l| + 1 <= |p.b| && WellFormedLabel(l) && Known(known, p.w, p.w + 1 + |l|)
    ensures LabelAt(PutLabel(p, l).b, known, p.w, l)
  {
    var b := PutLabel(p, l).b;
    assert b[p.w] == LabelOctets(l)[0];
    assert b[p.w + 1..p.w + 1 + |l|] == l;
  }

  lemma LongerProgress(b: seq<byte>, known: set<nat>, w: nat, progress: map<nat, seq<Label>>,
                       c: seq<byte>, known1: set<nat>, l: Label, w1: nat)
    returns (progress1: map<nat, seq<Label>>)
    requires ProgressOk(b, known, progress, w) && Agree(b, known, c) && known <= known1
    requires LabelAt(c, known1, w, l) && w1 == w + 1 + |l| && w < 0x4000
    ensures ProgressOk(c, known1, progress1, w1)
    ensures progress1.Keys == progress.Keys + {w} && progress1[w] == [l]
    ensures forall k :: k in progress ==> k in progress1 && progress1[k] == progress[k] + [l]
  {
    progress1 := (map k | k in progress :: progress[k] + [l])[w := [l]];
    assert Chain(c, known1, w, [l], w1) by {
      assert [l][1..] == [];
    }
    forall k | k in progress
      ensures Chain(c, known1, k, progress[k] + [l], w1)
    {
      ChainAgrees(b, known, k, progress[k], w, c, known1);
      ChainSnoc(c, known1, k, progress[k], w, l);
    }
  }

  /** What the writer keeps when it has come from the cursor `w` to `q` and spelt a name at `w`. */
  ghost predicate Kept(w: nat, q: Packet, known': set<nat>, names: map<nat, seq<Label>>,
                       progress: map<nat, seq<Label>>, spelt: seq<Label>, names': map<nat, seq<Label>>) {
    && Inv(q, known', names') && Extends(names, names')
    && NameAt(q.b, known', w, q.w, spelt)
    && Continues(progress, spelt, names')
    && Grown(names, progress, spelt, names')
  }

  ghost predicate IsSuffix(s: seq<Label>, t: seq<Label>) {
    |s| <= |t| && t[|t| - |s|..] == s
  }

  /** Beyond the names there were and the labels in progress, only suffixes of the written name are new. */
  ghost predicate Grown(names: map<nat, seq<Label>>, progress: map<nat, seq<Label>>, spelt: seq<Label>,
                        names': map<nat, seq<Label>>) {
    forall k :: k in names' ==> k in names || k in progress || IsSuffix(names'[k], spelt)
  }

  ghost predicate Continues(progress: map<nat, seq<Label>>, spelt: seq<Label>, names: map<nat, seq<Label>>) {
    forall k :: k in progress ==> k in names && names[k] == progress[k] + spelt
  }

  /** Of the positions below `w` only those that were known before are known. */
  ghost predicate OnlyFrom(known: set<nat>, w: nat, known': set<nat>) {
    known <= known' && forall i :: i in known' ==> i in known || w <= i
  }

  lemma EndSpells(p: Packet, q: Packet, known: set<nat>, names: map<nat, seq<Label>>, progress: map<nat, seq<Label>>)
    returns (known': set<nat>, names': map<nat, seq<Label>>)
    requires p.w < |p.b| && q == Packet(Overwrite(p.b, p.w, [0]), p.w + 1, p.t) && Below(known, p.w)
    requires NamesOk(p.b, known, names) && ProgressOk(p.b, known, progress, p.w) && TableOk(p.t, names, progress)
    requires names.Keys !! progress.Keys
    ensures OnlyFrom(known, p.w, known') && Kept(p.w, q, known', names, progress, [], names')
  {
    known' := known + Range(p.w, q.w);
    names' := FinishName(p, q, known, known', names, progress, []);
  }

  lemma PointerSpells(p: Packet, q: Packet, ref: nat, known: set<nat>, names: map<nat, seq<Label>>,
                      progress: map<nat, seq<Label>>)
    returns (known': set<nat>, names': map<nat, seq<Label>>)
    requires p.w + 2 <= |p.b| && q == Packet(Overwrite(p.b, p.w, PointerOctets(ref)), p.w + 2, p.t)
    requires Below(known, p.w) && ref in names
    requires NamesOk(p.b, known, names) && ProgressOk(p.b, known, progress, p.w) && TableOk(p.t, names, progress)
    requires names.Keys !! progress.Keys
    ensures OnlyFrom(known, p.w, known') && Kept(p.w, q, known', names, progress, names[ref], names')
  {
    known' := known + Range(p.w, q.w);
    PointerNameAt(p, q, ref, known, known', names);
    names' := FinishName(p, q, known, known', names, progress, names[ref]);
  }

  /**
    The writer spells out what its first hit leads to, and keeps the invariant: the labels it wrote,
    and those in progress before, become names themselves.
   */
  lemma {:induction false} MakeSpells(p: Packet, labels: seq<Label>, q: Packet, spelt: seq<Label>, known: set<nat>,
                                      names: map<nat, seq<Label>>, progress: map<nat, seq<Label>>)
    returns (known': set<nat>, names': map<nat, seq<Label>>)
    requires p.w <= |p.b| && Below(known, p.w)
    requires NamesOk(p.b, known, names) && ProgressOk(p.b, known, progress, p.w) && TableOk(p.t, names, progress)
    requires names.Keys !! progress.Keys
    requires WellFormed(labels) && q.w <= 0x4000
    requires Make(p, labels) == Some(q)
    requires Spelt(labels, FirstHit(p, labels), names) == Some(spelt)
    ensures OnlyFrom(known, p.w, known') && Kept(p.w, q, known', names, progress, spelt, names')
    decreases |labels|
  {
    hide TableFind, Spells, Chain, Inv, NamesOk, ProgressOk;
    if labels == [] {
      known', names' := EndSpells(p, q, known, names, progress);
    } else if TableFind(p.b, p.t, labels, 0).Some? {
      var ref := TableFind(p.b, p.t, labels, 0).value;
      known', names' := PointerSpells(p, q, ref, known, names, progress);
      assert spelt == names[ref];
    } else {
      var l, rest := labels[0], labels[1..];
      assert labels == [l] + rest && WellFormedLabel(l) && WellFormed(rest);
      var p1 := PutLabel(p, l);
      var known1, progress1 := ProgressStep(p, l, known, names, progress);
      SpeltStep(l, rest, FirstHit(p1, rest), names);
      var spelt1 := Spelt(rest, FirstHit(p1, rest), names).value;
      known', names' := MakeSpells(p1, rest, q, spelt1, known1, names, progress1);
      KeptStep(p, p1, q, l, spelt1, known1, known', names, progress, progress1, names');
    }
  }

  lemma KeptStep(p: Packet, p1: Packet, q: Packet, l: Label, spelt: seq<Label>, known1: set<nat>, known': set<nat>,
                 names: map<nat, seq<Label>>, progress: map<nat, seq<Label>>, progress1: map<nat, seq<Label>>,
                 names': map<nat, seq<Label>>)
    requires LabelAt(p1.b, known1, p.w, l) && p1.w == p.w + 1 + |l| && known1 <= known'
    requires Below(known1, p1.w) && p1.w <= |p1.b| == |q.b| && forall i :: 0 <= i < p1.w ==> q.b[i] == p1.b[i]
    requires Kept(p1.w, q, known', names, progress1, spelt, names')
    requires forall k :: k in progress ==> k in progress1 && progress1[k] == progress[k] + [l]
    requires progress1.Keys == progress.Keys + {p.w} && progress1[p.w] == [l]
    ensures Kept(p.w, q, known', names, progress, [l] + spelt, names')
  {
    hide Spells, Chain, NamesOk, TableOk;
    assert Agree(p1.b, known1, q.b);
    LabelAtAgrees(p1.b, known1, p.w, l, q.b, known');
    NameAtStep(q.b, known', p.w, l, q.w, spelt);
    LongerNames(l, spelt, progress, progress1, names');
    GrownStep(l, spelt, names, progress, progress1, p.w, names');
  }

  lemma GrownStep(l: Label, spelt: seq<Label>, names: map<nat, seq<Label>>, progress: map<nat, seq<Label>>,
                  progress1: map<nat, seq<Label>>, w: nat, names': map<nat, seq<Label>>)
    requires Grown(names, progress1, spelt, names') && Continues(progress1, spelt, names')
    requires progress1.Keys == progress.Keys + {w} && progress1[w] == [l]
    ensures Grown(names, progress, [l] + spelt, names')
  {
    forall k | k in names' && k !in names && k !in progress
      ensures IsSuffix(names'[k], [l] + spelt)
    {
      if k != w {
        var s := names'[k];
        assert ([l] + spelt)[1 + |spelt| - |s|..] == spelt[|spelt| - |s|..];
      }
    }
  }

  lemma NameAtStep(b: seq<byte>, known: set<nat>, pos: nat, l: Label, end: nat, spelt: seq<Label>)
    requires LabelAt(b, known, pos, l) && NameAt(b, known, pos + 1 + |l|, end, spelt)
    ensures NameAt(b, known, pos, end, [l] + spelt)
  {
    assert ([l] + spelt)[1..] == spelt;
    assert pos in known;
  }

  lemma SpeltStep(l: Label, rest: seq<Label>, h: Option<Hit>, names: map<nat, seq<Label>>)
    requires h.Some? ==> h.value.index < |rest|
    ensures Spelt([l] + rest, Later(h), names) == Prepend([l], Spelt(rest, h, names))
  {
    if h.Some? {
      var front := rest[..h.value.index];
      assert ([l] + rest)[..h.value.index + 1] == [l] + front;
      if h.value.ref in names {
        assert [l] + front + names[h.value.ref] == [l] + (front + names[h.value.ref]);
      }
    }
  }

  lemma LongerNames(l: Label, spelt: seq<Label>, progress: map<nat, seq<Label>>, progress1: map<nat, seq<Label>>,
                    names: map<nat, seq<Label>>)
    requires forall k :: k in progress ==> k in progress1 && progress1[k] == progress[k] + [l]
    requires Continues(progress1, spelt, names)
    ensures Continues(progress, [l] + spelt, names)
  {
    forall k | k in progress
      ensures k in names && names[k] == progress[k] + ([l] + spelt)
    {
      assert progress[k] + [l] + spelt == progress[k] + ([l] + spelt);
    }
  }

  // ---------------------------------------------------------------- when one name reads back

  /** A hit on a label of the name itself makes a loop: nothing can be read from any of its labels. */
  lemma {:induction false} MakeLoops(p: Packet, labels: seq<Label>, q: Packet, known: set<nat>,
                                     names: map<nat, seq<Label>>, progress: map<nat, seq<Label>>, start: nat,
                                     c: seq<byte>, n: nat)
    requires p.w <= |p.b| && Below(known, p.w)
    requires NamesOk(p.b, known, names) && ProgressOk(p.b, known, progress, p.w) && TableOk(p.t, names, progress)
    requires names.Keys !! progress.Keys && forall k :: k in progress ==> start <= k
    requires start <= p.w && WellFormed(labels) && q.w <= 0x4000
    requires Make(p, labels) == Some(q)
    requires q.w <= |c| && forall i :: 0 <= i < q.w ==> c[i] == q.b[i]
    requires Spelt(labels, FirstHit(p, labels), names).None?
    ensures start <= FirstHit(p, labels).value.ref
    ensures ReadName(c, p.w, n, MAX_JUMPS).None?
    decreases |labels|
  {
    hide Matches, Spells, Chain, ReadName;
    if TableFind(p.b, p.t, labels, 0).Some? {
      var ref := TableFind(p.b, p.t, labels, 0).value;
      assert ref in progress;
      PointerLoops(p, q, ref, known, progress, c, n);
    } else {
      var l, rest := labels[0], labels[1..];
      assert labels == [l] + rest && WellFormedLabel(l) && WellFormed(rest);
      var p1 := PutLabel(p, l);
      var known1, progress1 := ProgressStep(p, l, known, names, progress);
      SpeltStep(l, rest, FirstHit(p1, rest), names);
      assert c[p.w] == p1.b[p.w] == |l|;
      var m := if n == 0 then 0 else n - 1;
      MakeLoops(p1, rest, q, known1, names, progress1, start, c, m);
      assert ReadName(c, p1.w, m, MAX_JUMPS).None?;
      LabelThenNothing(c, p.w, |l|, p1.w, n);
    }
  }

  lemma LabelThenNothing(c: seq<byte>, pos: nat, length: nat, next: nat, n: nat)
    requires pos < |c| && c[pos] == length && 0 < length <= 63
    requires next == pos + 1 + length && (n == 0 || ReadName(c, next, n - 1, MAX_JUMPS).None?)
    ensures ReadName(c, pos, n, MAX_JUMPS).None?
  {
  }

  lemma PointerLoops(p: Packet, q: Packet, ref: nat, known: set<nat>, progress: map<nat, seq<Label>>,
                     c: seq<byte>, n: nat)
    requires p.w + 2 <= |p.b| && q.b == Overwrite(p.b, p.w, PointerOctets(ref)) && q.w == p.w + 2
    requires Below(known, p.w) && ProgressOk(p.b, known, progress, p.w) && ref in progress
    requires q.w <= |c| && forall i :: 0 <= i < q.w ==> c[i] == q.b[i]
    ensures ReadName(c, p.w, n, MAX_JUMPS).None?
  {
    hide ReadName, Chain;
    assert Agree(p.b, known, c);
    ChainAgrees(p.b, known, ref, progress[ref], p.w, c, known);
    assert c[p.w] == PointerOctets(ref)[0] && c[p.w + 1] == PointerOctets(ref)[1];
    PointerTarget(ref);
    LoopNeverReads(c, known, ref, progress[ref], p.w, n);
  }

  /**
    One written name reads back exactly when the writer's first hit, if it has one, is on a name
    that was finished before and consists of the remaining labels only. The code asks less: it takes
    a name that merely begins with them.
   */
  lemma NameReadsBackIff(p: Packet, labels: seq<Label>, q: Packet, known: set<nat>, names: map<nat, seq<Label>>)
    requires Inv(p, known, names) && WellFormed(labels)
    requires Make(p, labels) == Some(q) && q.w <= 0x4000
    ensures Name(q.b[..q.w], p.w) == Some(labels) <==>
            match FirstHit(p, labels)
            case None => true
            case Some(hit) => hit.ref < p.w && Name(p.b, hit.ref) == Some(labels[hit.index..])
  {
    var c := q.b[..q.w];
    var h := FirstHit(p, labels);
    if Spelt(labels, h, names).None? {
      MakeLoops(p, labels, q, known, names, map[], p.w, c, MAX_SUBSTRINGS);
    } else {
      var spelt := Spelt(labels, h, names).value;
      var known', names' := MakeSpells(p, labels, q, spelt, known, names, map[]);
      NameAtReads(q.b, known', p.w, q.w, spelt, c);
      if h.Some? {
        HitReads(p, labels, h.value, known, names);
      }
    }
  }

  lemma NameAtReads(b: seq<byte>, known: set<nat>, pos: nat, end: nat, labels: seq<Label>, c: seq<byte>)
    requires NameAt(b, known, pos, end, labels) && Agree(b, known, c)
    ensures Name(c, pos) == if |labels| <= MAX_SUBSTRINGS then Some(labels) else None
    ensures NameEnd(c, pos) == end
  {
    NameAtAgrees(b, known, pos, end, labels, c, known);
    SpellsReads(c, known, pos, labels, MAX_SUBSTRINGS, MAX_JUMPS);
  }

  /** A name that is spelt out is read if it has 64 labels, and not if it has more. */
  lemma AtMost64Labels(b: seq<byte>, known: set<nat>, pos: nat, end: nat, labels: seq<Label>)
    requires NameAt(b, known, pos, end, labels) && Agree(b, known, b)
    ensures Name(b, pos).Some? <==> |labels| <= 64
  {
    NameAtReads(b, known, pos, end, labels, b);
  }

  /** And a pointer to a pointer, and so on, to the end of a name is followed sixteen times, and no further. */
  lemma AtMost16Jumps(b: seq<byte>, k: nat)
    requires 2 * k + 2 <= |b| && b[0] == 0
    requires forall i :: 1 <= i <= k ==> IsRef(b[2 * i]) && Target(b, 2 * i) == 2 * i - 2
    ensures Name(b, 2 * k).Some? <==> k <= 16
  {
    JumpsAreCounted(b, k, MAX_SUBSTRINGS, MAX_JUMPS);
  }

  lemma {:induction false} JumpsAreCounted(b: seq<byte>, k: nat, labels: nat, jumps: nat)
    requires 2 * k + 2 <= |b| && b[0] == 0
    requires forall i :: 1 <= i <= k ==> IsRef(b[2 * i]) && Target(b, 2 * i) == 2 * i - 2
    ensures ReadName(b, 2 * k, labels, jumps).Some? <==> k <= jumps
    decreases k
  {
    hide Target;
    if k > 0 {
      assert IsRef(b[2 * k]) && Target(b, 2 * k) == 2 * (k - 1);
      if jumps > 0 {
        JumpsAreCounted(b, k - 1, labels, jumps - 1);
      }
    }
  }

  lemma HitReads(p: Packet, labels: seq<Label>, hit: Hit, known: set<nat>, names: map<nat, seq<Label>>)
    requires Inv(p, known, names) && hit.ref in names && hit.index < |labels| <= MAX_SUBSTRINGS
    ensures hit.ref < p.w
    ensures labels[..hit.index] + names[hit.ref] == labels <==> Name(p.b, hit.ref) == Some(labels[hit.index..])
  {
    SpellsReads(p.b, known, hit.ref, names[hit.ref], MAX_SUBSTRINGS, MAX_JUMPS);
    assert hit.ref in known;
    var front, back := labels[..hit.index], labels[hit.index..];
    assert labels == front + back;
    if front + names[hit.ref] == labels {
      assert labels[hit.index..] == names[hit.ref];
    }
  }

  // ---------------------------------------------------------------- when all names read back

  /** The label that ends the name is in `finals`, and no other label of it is. */
  ghost predicate Disciplined(labels: seq<Label>, finals: set<Label>) {
    forall i :: 0 <= i < |labels| ==> (labels[i] in finals <==> i == |labels| - 1)
  }

  lemma DisciplinedPrefix(labels: seq<Label>, name: seq<Label>, finals: set<Label>)
    requires Disciplined(labels, finals) && Disciplined(name, finals)
    requires labels != [] && labels <= name
    ensures labels == name
  {
    assert labels[|labels| - 1] == name[|labels| - 1];
  }

  ghost predicate AllDisciplined(names: map<nat, seq<Label>>, finals: set<Label>) {
    forall k :: k in names ==> Disciplined(names[k], finals)
  }

  ghost predicate NoFinals(progress: map<nat, seq<Label>>, finals: set<Label>) {
    forall k, i :: k in progress && 0 <= i < |progress[k]| ==> progress[k][i] !in finals
  }

  ghost predicate ZeroFrom(b: seq<byte>, w: nat) {
    forall i :: w <= i < |b| ==> b[i] == 0
  }

  /** Under the discipline the first hit is always on exactly the remaining labels. */
  lemma {:induction false} DisciplinedSpelt(p: Packet, labels: seq<Label>, known: set<nat>, names: map<nat, seq<Label>>,
                                            progress: map<nat, seq<Label>>, finals: set<Label>)
    requires p.w < |p.b| && Below(known, p.w) && ZeroFrom(p.b, p.w)
    requires NamesOk(p.b, known, names) && ProgressOk(p.b, known, progress, p.w) && TableOk(p.t, names, progress)
    requires names.Keys !! progress.Keys
    requires WellFormed(labels) && Disciplined(labels, finals)
    requires AllDisciplined(names, finals) && NoFinals(progress, finals)
    requires Make(p, labels).Some? && Make(p, labels).value.w <= 0x4000
    ensures Spelt(labels, FirstHit(p, labels), names) == Some(labels)
    decreases |labels|
  {
    hide Matches, Spells, Chain, NamesOk;
    if labels != [] {
      if TableFind(p.b, p.t, labels, 0).Some? {
        HitIsExact(p, labels, TableFind(p.b, p.t, labels, 0).value, known, names, progress, finals);
        assert labels[..0] + labels == labels;
      } else {
        var l, rest := labels[0], labels[1..];
        assert labels == [l] + rest && WellFormedLabel(l) && WellFormed(rest);
        var p1 := PutLabel(p, l);
        var known1, progress1 := ProgressStep(p, l, known, names, progress);
        SpeltStep(l, rest, FirstHit(p1, rest), names);
        if rest == [] {
          assert FirstHit(p1, rest) == None;
        } else {
          NoFinalsStep(progress, progress1, p.w, l, finals);
          DisciplinedSpelt(p1, rest, known1, names, progress1, finals);
        }
      }
    }
  }

  lemma NoFinalsStep(progress: map<nat, seq<Label>>, progress1: map<nat, seq<Label>>, w: nat, l: Label,
                     finals: set<Label>)
    requires NoFinals(progress, finals) && l !in finals
    requires forall k :: k in progress ==> k in progress1 && progress1[k] == progress[k] + [l]
    requires progress1.Keys == progress.Keys + {w} && progress1[w] == [l]
    ensures NoFinals(progress1, finals)
  {
    forall k, i | k in progress1 && 0 <= i < |progress1[k]|
      ensures progress1[k][i] !in finals
    {
      if k in progress {
        assert progress1[k][i] == if i < |progress[k]| then progress[k][i] else l;
      }
    }
  }

  lemma HitIsExact(p: Packet, labels: seq<Label>, ref: nat, known: set<nat>, names: map<nat, seq<Label>>,
                   progress: map<nat, seq<Label>>, finals: set<Label>)
    requires p.w < |p.b| && p.b[p.w] == 0
    requires NamesOk(p.b, known, names) && ProgressOk(p.b, known, progress, p.w)
    requires labels != [] && Disciplined(labels, finals)
    requires AllDisciplined(names, finals) && NoFinals(progress, finals)
    requires ref in names || ref in progress
    requires Matches(p.b, ref, labels)
    ensures ref in names && names[ref] == labels
  {
    if ref in names {
      SpellsMatches(p.b, known, ref, names[ref], labels);
      DisciplinedPrefix(labels, names[ref], finals);
    } else {
      assert labels[|labels| - 1] in finals;
      ChainMatches(p.b, known, ref, progress[ref], p.w, labels);
    }
  }

  /** The names one after the other, with one table. */
  function MakeAll(p: Packet, names: seq<seq<Label>>): (r: Option<Packet>)
    requires p.t.Valid() && p.w <= |p.b|
    ensures r.Some? ==> r.value.t.Valid() && p.w <= r.value.w <= |r.value.b| == |p.b|
    ensures r.Some? ==> forall i :: 0 <= i < p.w || r.value.w <= i < |p.b| ==> r.value.b[i] == p.b[i]
    decreases |names|
  {
    if names == [] then Some(p)
    else match Make(p, names[0])
      case None => None
      case Some(q) => MakeAll(q, names[1..])
  }

  /** Reads `n` names, each from where the one before it ends. */
  function ReadAll(b: seq<byte>, pos: nat, n: nat): Option<seq<seq<Label>>>
    decreases n
  {
    if n == 0 then Some([])
    else match Name(b, pos)
      case None => None
      case Some(labels) =>
        match ReadAll(b, NameEnd(b, pos), n - 1)
        case None => None
        case Some(rest) => Some([labels] + rest)
  }

  ghost predicate AllWellFormed(names: seq<seq<Label>>, finals: set<Label>) {
    forall n :: n in names ==> WellFormed(n) && Disciplined(n, finals)
  }

  /** From any state of the writer: the names that follow read back, however often the ring has wrapped. */
  lemma {:induction false} NamesReadBack(p: Packet, texts: seq<seq<Label>>, q: Packet, known: set<nat>,
                                         names: map<nat, seq<Label>>, finals: set<Label>, c: seq<byte>)
    returns (known': set<nat>, names': map<nat, seq<Label>>)
    requires Inv(p, known, names) && AllDisciplined(names, finals) && ZeroFrom(p.b, p.w)
    requires AllWellFormed(texts, finals)
    requires MakeAll(p, texts) == Some(q) && q.w <= 0x4000
    requires q.w <= |c| && forall i :: 0 <= i < q.w ==> c[i] == q.b[i]
    ensures Inv(q, known', names') && AllDisciplined(names', finals) && Extends(names, names')
    ensures ReadAll(c, p.w, |texts|) == Some(texts)
    decreases |texts|
  {
    hide Spells, Disciplined, NamesOk, NameEnd, ReadName;
    if texts == [] {
      known', names' := known, names;
    } else {
      var labels, rest := texts[0], texts[1..];
      var r := Make(p, labels).value;
      assert forall n :: n in rest ==> n in texts;
      var known1, names1 := MakeKeeps(p, labels, r, known, names, finals);
      known', names' := NamesReadBack(r, rest, q, known1, names1, finals, c);
      NameAtReads(r.b, known1, p.w, r.w, labels, c);
      ReadAllStep(c, p.w, r.w, labels, texts);
    }
  }

  lemma ReadAllStep(c: seq<byte>, pos: nat, next: nat, labels: seq<Label>, texts: seq<seq<Label>>)
    requires texts != [] && texts[0] == labels && Name(c, pos) == Some(labels) && NameEnd(c, pos) == next
    requires ReadAll(c, next, |texts| - 1) == Some(texts[1..])
    ensures ReadAll(c, pos, |texts|) == Some(texts)
  {
    hide ReadName, NameEnd;
    assert texts == [labels] + texts[1..];
  }

  /** One disciplined name: it is spelt exactly, and the state stays what the next name needs. */
  lemma MakeKeeps(p: Packet, labels: seq<Label>, q: Packet, known: set<nat>, names: map<nat, seq<Label>>,
                  finals: set<Label>)
    returns (known': set<nat>, names': map<nat, seq<Label>>)
    requires Inv(p, known, names) && AllDisciplined(names, finals) && ZeroFrom(p.b, p.w)
    requires WellFormed(labels) && Disciplined(labels, finals)
    requires Make(p, labels) == Some(q) && q.w <= 0x4000
    ensures Inv(q, known', names') && AllDisciplined(names', finals) && ZeroFrom(q.b, q.w)
    ensures OnlyFrom(known, p.w, known') && NameAt(q.b, known', p.w, q.w, labels) && Extends(names, names')
  {
    DisciplinedSpelt(p, labels, known, names, map[], finals);
    known', names' := MakeSpells(p, labels, q, labels, known, names, map[]);
    forall k | k in names'
      ensures Disciplined(names'[k], finals)
    {
      if k !in names {
        SuffixDisciplined(names'[k], labels, finals);
      }
    }
  }

  lemma SuffixDisciplined(s: seq<Label>, name: seq<Label>, finals: set<Label>)
    requires IsSuffix(s, name) && Disciplined(name, finals)
    ensures Disciplined(s, finals)
  {
    forall i | 0 <= i < |s|
      ensures s[i] in finals <==> i == |s| - 1
    {
      assert s[i] == name[|name| - |s| + i];
    }
  }

  ghost function Finals(names: seq<seq<Label>>): set<Label> {
    set n | n in names && n != [] :: n[|n| - 1]
  }

  // ---------------------------------------------------------------- which lists of names read back

  /** The writer's first hit for a name, if there is one, is on a name of exactly the labels that remain. */
  predicate HitsExactly(p: Packet, labels: seq<Label>)
    requires p.t.Valid() && p.w <= |p.b|
  {
    match FirstHit(p, labels)
    case None => true
    case Some(hit) => hit.ref < p.w && Name(p.b, hit.ref) == Some(labels[hit.index..])
  }

  /** So it is for each name of a list, when its turn comes. */
  predicate AllHitExactly(p: Packet, names: seq<seq<Label>>)
    requires p.t.Valid() && p.w <= |p.b|
    decreases |names|
  {
    names == [] ||
    (HitsExactly(p, names[0]) &&
     match Make(p, names[0])
     case None => true
     case Some(q) => AllHitExactly(q, names[1..]))
  }

  /**
    From any state of the writer: the names that are written read back, all of them, exactly if each of
    them hits exactly, or not at all.
   */
  lemma {:induction false} NamesReadBackIff(p: Packet, names: seq<seq<Label>>, q: Packet, known: set<nat>,
                                            there: map<nat, seq<Label>>, c: seq<byte>)
    requires Inv(p, known, there) && forall n :: n in names ==> WellFormed(n)
    requires MakeAll(p, names) == Some(q) && q.w <= 0x4000
    requires q.w <= |c| && forall i :: 0 <= i < q.w ==> c[i] == q.b[i]
    ensures ReadAll(c, p.w, |names|) == Some(names) <==> AllHitExactly(p, names)
    decreases |names|
  {
    hide Spells, NamesOk, NameEnd, ReadName, FirstHit, HitsExactly;
    if names != [] {
      var labels, rest := names[0], names[1..];
      var r := Make(p, labels).value;
      assert forall n :: n in rest ==> n in names;
      if Spelt(labels, FirstHit(p, labels), there).None? {
        LoopsNeverExactly(p, labels, r, known, there, c);
        FirstIsNotRead(c, p.w, names);
      } else {
        var spelt := Spelt(labels, FirstHit(p, labels), there).value;
        var known1, there1 := MakeSpells(p, labels, r, spelt, known, there, map[]);
        SpeltExactly(p, labels, r, spelt, known, there, known1, c);
        if HitsExactly(p, labels) {
          NamesReadBackIff(r, rest, q, known1, there1, c);
          ReadAllIff(c, p.w, r.w, names);
        } else {
          FirstIsNotRead(c, p.w, names);
        }
      }
    }
  }

  lemma LoopsNeverExactly(p: Packet, labels: seq<Label>, r: Packet, known: set<nat>, there: map<nat, seq<Label>>,
                          c: seq<byte>)
    requires Inv(p, known, there) && WellFormed(labels) && Make(p, labels) == Some(r) && r.w <= 0x4000
    requires r.w <= |c| && forall i :: 0 <= i < r.w ==> c[i] == r.b[i]
    requires Spelt(labels, FirstHit(p, labels), there).None?
    ensures Name(c, p.w) == None && !HitsExactly(p, labels)
  {
    hide Matches, Spells, Chain, ReadName, NamesOk, FirstHit;
    MakeLoops(p, labels, r, known, there, map[], p.w, c, MAX_SUBSTRINGS);
  }

  lemma SpeltExactly(p: Packet, labels: seq<Label>, r: Packet, spelt: seq<Label>, known: set<nat>,
                     there: map<nat, seq<Label>>, known1: set<nat>, c: seq<byte>)
    requires Inv(p, known, there) && WellFormed(labels) && Make(p, labels) == Some(r)
    requires Spelt(labels, FirstHit(p, labels), there) == Some(spelt) && NameAt(r.b, known1, p.w, r.w, spelt)
    requires Agree(r.b, known1, c)
    ensures Name(c, p.w) == Some(labels) <==> HitsExactly(p, labels)
    ensures NameEnd(c, p.w) == r.w
  {
    hide Matches, Spells, ReadName, NamesOk, FirstHit;
    NameAtReads(r.b, known1, p.w, r.w, spelt, c);
    var h := FirstHit(p, labels);
    if h.Some? {
      HitReads(p, labels, h.value, known, there);
    }
  }

  lemma FirstIsNotRead(c: seq<byte>, pos: nat, names: seq<seq<Label>>)
    requires names != [] && Name(c, pos) != Some(names[0])
    ensures ReadAll(c, pos, |names|) != Some(names)
  {
    hide ReadName, NameEnd;
  }

  lemma ReadAllIff(c: seq<byte>, pos: nat, next: nat, names: seq<seq<Label>>)
    requires names != [] && Name(c, pos) == Some(names[0]) && NameEnd(c, pos) == next
    ensures ReadAll(c, pos, |names|) == Some(names) <==> ReadAll(c, next, |names| - 1) == Some(names[1..])
  {
    hide ReadName, NameEnd;
    assert names == [names[0]] + names[1..];
    var more := ReadAll(c, next, |names| - 1);
    if more.Some? {
      assert ([names[0]] + more.value)[1..] == more.value;
    }
  }

  // ---------------------------------------------------------------- names as texts

  /** What is read of a text is that text with a dot at its end. */
  function WithDot(s: seq<byte>): seq<byte> {
    if s == [] || s[|s| - 1] == DOT then s else s + [DOT]
  }

  /** Cutting a text at its dots and joining the labels again gives the text, with a dot at its end. */
  lemma {:induction false} DottedOfLabels(s: seq<byte>)
    ensures Dotted(Labels(s)) == WithDot(s)
    decreases |s|
  {
    hide FindDot, Labels, Dotted;
    if s == [] {
      NoLabels();
    } else {
      var p := FindDot(s);
      FirstLabel(s);
      if p == |s| {
        NoLabels();
        DottedFirst(s, []);
        assert s + [DOT] + [] == s + [DOT];
      } else {
        DottedOfLabels(s[p + 1..]);
        DottedFirst(s[..p], Labels(s[p + 1..]));
        WithDotBehind(s, p);
      }
    }
  }

  lemma NoLabels()
    ensures Labels([]) == [] && Dotted([]) == []
  {
  }

  lemma FirstLabel(s: seq<byte>)
    requires s != []
    ensures var p := FindDot(s); Labels(s) == if p == |s| then [s] + [] else [s[..p]] + Labels(s[p + 1..])
  {
    hide FindDot;
    assert [s] + [] == [s];
  }

  lemma DottedFirst(l: Label, more: seq<Label>)
    ensures Dotted([l] + more) == l + [DOT] + Dotted(more)
  {
    assert ([l] + more)[1..] == more;
  }

  lemma WithDotBehind(s: seq<byte>, p: nat)
    requires p < |s| && s[p] == DOT
    ensures s[..p] + [DOT] + WithDot(s[p + 1..]) == WithDot(s)
  {
    var rest := s[p + 1..];
    assert s == s[..p] + [DOT] + rest;
    if rest != [] {
      assert rest[|rest| - 1] == s[|s| - 1];
    }
  }

  /** The labels that `mdns_string_make` writes for a text. */
  function TextLabels(name: seq<byte>): seq<Label>
    requires name != []
  {
    Labels(TrimDot(name))
  }

  function AllLabels(names: seq<seq<byte>>): seq<seq<Label>>
    requires [] !in names
  {
    seq(|names|, i requires 0 <= i < |names| => TextLabels(names[i]))
  }

  /** The texts that `mdns_string_extract` gives one after the other, each cut to the capacity. */
  function ReadTexts(b: seq<byte>, pos: nat, n: nat, capacity: nat): Option<seq<seq<byte>>>
    decreases n
  {
    if n == 0 then Some([])
    else match Name(b, pos)
      case None => None
      case Some(labels) =>
        match ReadTexts(b, NameEnd(b, pos), n - 1, capacity)
        case None => None
        case Some(rest) => Some([Take(Dotted(labels), capacity)] + rest)
  }

  /** A name as it comes back: with one dot at its end, whether or not it had one. */
  function AsRead(name: seq<byte>, capacity: nat): seq<byte>
    requires name != []
  {
    Take(WithDot(TrimDot(name)), capacity)
  }

  function AllAsRead(names: seq<seq<byte>>, capacity: nat): seq<seq<byte>>
    requires [] !in names
  {
    seq(|names|, i requires 0 <= i < |names| => AsRead(names[i], capacity))
  }

  lemma {:induction false} TextsOfLabels(b: seq<byte>, pos: nat, names: seq<seq<byte>>, capacity: nat)
    requires [] !in names && ReadAll(b, pos, |names|) == Some(AllLabels(names))
    ensures ReadTexts(b, pos, |names|, capacity) ==
            Some(AllAsRead(names, capacity))
    decreases |names|
  {
    hide ReadName, NameEnd, Labels, Dotted, TextLabels, AsRead;
    if names != [] {
      var first, rest := names[0], names[1..];
      assert first != [] && [] !in rest;
      FirstTextRead(b, pos, first, AllLabels(names), capacity);
      assert AllLabels(names)[0] == TextLabels(first) && AllLabels(names)[1..] == AllLabels(rest);
      TextsOfLabels(b, NameEnd(b, pos), rest, capacity);
      assert AllAsRead(names, capacity) == [AsRead(first, capacity)] + AllAsRead(rest, capacity);
    } else {
      assert AllAsRead(names, capacity) == [];
    }
  }

  lemma FirstTextRead(b: seq<byte>, pos: nat, first: seq<byte>, all: seq<seq<Label>>, capacity: nat)
    requires first != [] && all != [] && all[0] == TextLabels(first) && ReadAll(b, pos, |all|) == Some(all)
    ensures Name(b, pos) == Some(TextLabels(first))
    ensures Take(Dotted(TextLabels(first)), capacity) == AsRead(first, capacity)
    ensures ReadAll(b, NameEnd(b, pos), |all| - 1) == Some(all[1..])
  {
    hide ReadName, NameEnd, Labels, Dotted, WithDot;
    DottedOfLabels(TrimDot(first));
    var more := ReadAll(b, NameEnd(b, pos), |all| - 1).value;
    assert ([Name(b, pos).value] + more)[0] == Name(b, pos).value && ([Name(b, pos).value] + more)[1..] == more;
  }

  /**
    The round trip of name compression on the texts that are given and returned: names written with one
    fresh table into a zeroed packet come back in order, each with a dot at its end and cut to the
    capacity, when no label that ends one of them occurs earlier in any of them.
   */
  lemma RoundTrip(b: seq<byte>, w: nat, names: seq<seq<byte>>, q: Packet, capacity: nat)
    requires w <= |b| && ZeroFrom(b, w) && [] !in names
    requires AllWellFormed(AllLabels(names), Finals(AllLabels(names)))
    requires MakeAll(Packet(b, w, EMPTY_TABLE), AllLabels(names)) == Some(q) && q.w <= 0x4000
    ensures ReadTexts(q.b[..q.w], w, |names|, capacity) ==
            Some(AllAsRead(names, capacity))
  {
    hide MakeAll, ReadAll, ReadTexts, AllWellFormed;
    LabelsRoundTrip(b, w, AllLabels(names), q);
    TextsOfLabels(q.b[..q.w], w, names, capacity);
  }

  /**
    The same on labels: names written with one fresh table into a zeroed packet read
    back in order, when no label that ends one of them occurs earlier in any of them.
   */
  lemma LabelsRoundTrip(b: seq<byte>, w: nat, names: seq<seq<Label>>, q: Packet)
    requires w <= |b| && ZeroFrom(b, w)
    requires AllWellFormed(names, Finals(names))
    requires MakeAll(Packet(b, w, EMPTY_TABLE), names) == Some(q) && q.w <= 0x4000
    ensures ReadAll(q.b[..q.w], w, |names|) == Some(names)
  {
    var known, names' := NamesReadBack(Packet(b, w, EMPTY_TABLE), names, q, {}, map[], Finals(names), q.b[..q.w]);
  }

  const ODD_NAMES: seq<seq<Label>> := [[[97], [98]], [[97]]]
  const ODD_PACKET: seq<byte> := [1, 97, 1, 98, 0, 0xC0, 0]

  /** Without that condition it fails: after "a.b" the name "a" is written as a pointer and reads as "a.b". */
  lemma CompressionLosesAName()
    ensures var q := MakeAll(Packet(seq(8, _ => 0), 0, EMPTY_TABLE), ODD_NAMES);
            q.Some? && ReadAll(q.value.b[..q.value.w], 0, 2) == Some([ODD_NAMES[0], ODD_NAMES[0]])
  {
    OddNamesWritten();
    OddPacketRead();
  }

  lemma OddNamesWritten()
    ensures var q := MakeAll(Packet(seq(8, _ => 0), 0, EMPTY_TABLE), ODD_NAMES);
            q.Some? && q.value.b[..q.value.w] == ODD_PACKET
  {
    FirstOddName();
    SecondOddName();
    assert ODD_NAMES[1..] == [ODD_NAMES[1]];
    assert MakeAll(ODD_MIDDLE, [ODD_NAMES[1]]) == Make(ODD_MIDDLE, ODD_NAMES[1]);
    assert (ODD_PACKET + [0])[..7] == ODD_PACKET;
  }

  const ODD_MIDDLE: Packet := Packet([1, 97, 1, 98, 0, 0, 0, 0], 5, EMPTY_TABLE.Add(0).Add(2))

  lemma FirstOddName()
    ensures Make(Packet(seq(8, _ => 0), 0, EMPTY_TABLE), ODD_NAMES[0]) == Some(ODD_MIDDLE)
  {
    var a: Label, z: Label := [97], [98];
    var p := Packet(seq(8, _ => 0), 0, EMPTY_TABLE);
    var p1 := PutLabel(p, a);
    assert p1.b == [1, 97, 0, 0, 0, 0, 0, 0];
    assert LabelAfter(p1.b, 0, z) == None by {
      assert p1.b[1..2][0] != z[0];
    }
    assert TableFind(p1.b, p1.t, [z], 0) == None;
    var p2 := PutLabel(p1, z);
    assert Overwrite(p2.b, 4, [0]) == ODD_MIDDLE.b;
    assert Make(p2, []) == Some(ODD_MIDDLE);
    assert [z][1..] == [] && [a, z][1..] == [z];
    assert Make(p1, [z]) == Some(ODD_MIDDLE);
  }

  lemma SecondOddName()
    ensures Make(ODD_MIDDLE, ODD_NAMES[1]) == Some(Packet(ODD_PACKET + [0], 7, ODD_MIDDLE.t))
  {
    var a: Label, p := [97], ODD_MIDDLE;
    assert LabelAfter(p.b, 0, a) == Some(2) by {
      assert p.b[1..2] == a;
    }
    assert [a][1..] == [];
    assert Matches(p.b, 0, [a]);
    assert p.t.offset[0] == 0;
    assert TableFind(p.b, p.t, [a], 0) == Some(0);
    assert Overwrite(p.b, 5, PointerOctets(0)) == ODD_PACKET + [0];
  }

  lemma OddPacketRead()
    ensures ReadAll(ODD_PACKET, 0, 2) == Some([ODD_NAMES[0], ODD_NAMES[0]])
  {
    var a: Label, z: Label := [97], [98];
    var c := ODD_PACKET;
    assert ReadName(c, 4, 62, MAX_JUMPS) == Some([]);
    assert c[3..4] == z && c[1..2] == a;
    assert ReadName(c, 2, 63, MAX_JUMPS) == Some([z] + []);
    assert ReadName(c, 0, 64, MAX_JUMPS) == Some([a] + ([z] + []));
    assert [a] + ([z] + []) == [a, z];
    assert ReadName(c, 0, 64, MAX_JUMPS - 1) == Some([a] + ([z] + []));
    assert Target(c, 5) == 0;
    assert ReadName(c, 5, 64, MAX_JUMPS) == Some([a, z]);
    assert NameEnd(c, 4) == 5 && NameEnd(c, 2) == 5 && NameEnd(c, 0) == 5;
    assert ReadAll(c, NameEnd(c, 5), 0) == Some([]);
    assert ReadAll(c, 5, 1) == Some([[a, z]] + []);
    assert Name(c, 0) == Some([a, z]);
    assert ReadAll(c, 0, 2) == Some([[a, z]] + ([[a, z]] + []));
    assert [[a, z]] + ([[a, z]] + []) == [ODD_NAMES[0], ODD_NAMES[0]];
  }
}
