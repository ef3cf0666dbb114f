/**
  How `rvalue` of `3rdparty/crow/json.h` keeps the entries of a list or an object: an array that is
  regrown by doubling, and a lookup that sorts on its first use and then searches by halves.
 */
module JsonStore {
  import opened Wrappers

  // ---------------------------------------------------------------- storage

  class Storage<T(0)> {
    var l: array<T>
    var size: nat
    /** How many places are left, in 16 bits. */
    var remain: nat

    ghost predicate Valid()
      reads this
    {
      size + remain == l.Length && remain < 0x1_0000
    }

    ghost function Contents(): seq<T>
      reads this, l
      requires Valid()
    {
      l[..size]
    }

    constructor ()
      ensures Valid() && Contents() == [] && fresh(l)
    {
      l := new T[0];
      size, remain := 0, 0;
    }

    /** `emplace_back`, with fewer than 2^30 entries, so that doubling stays within an `int`. */
    method EmplaceBack(v: T)
      requires Valid() && size < 0x4000_0000
      modifies this, l
      ensures Valid() && Contents() == old(Contents()) + [v]
      ensures l == old(l) || fresh(l)
      ensures l != old(l) ==> old(remain) == 0 && l.Length - old(size) <= 60000
    {
      if remain == 0 {
        var newSize := size + size;
        if newSize - size > 60000 {
          newSize := size + 60000;
        }
        if newSize < 4 {
          newSize := 4;
        }
        var p := new T[newSize];
        for i := 0 to size
          invariant l == old(l) && size == old(size) == l.Length && l[..size] == old(l[..size])
          invariant p.Length == newSize && p[..i] == l[..i]
        {
          p[i] := l[i];
        }
        l := p;
        remain := newSize - size;
      }
      ghost var before := l[..size];
      l[size] := v;
      assert l[..size] == before && l[..size + 1] == l[..size] + [l[size]];
      size, remain := size + 1, remain - 1;
    }
  }

  // ---------------------------------------------------------------- the order of keys

  /** A `char` is signed: the upper half of the octets comes first. */
  function Signed(c: char): int {
    if 128 <= c as int < 256 then c as int - 256 else c as int
  }

  /** `std::lexicographical_compare`. */
  predicate Less(a: string, b: string) {
    if b == "" then false
    else if a == "" then true
    else if a[0] == b[0] then Less(a[1..], b[1..])
    else Signed(a[0]) < Signed(b[0])
  }

  lemma {:induction false} LessIrreflexive(a: string)
    ensures !Less(a, a)
  {
    if a != "" {
      LessIrreflexive(a[1..]);
    }
  }

  lemma {:induction false} LessTotal(a: string, b: string)
    requires a != b
    ensures Less(a, b) || Less(b, a)
  {
    if a != "" && b != "" {
      assert a == [a[0]] + a[1..] && b == [b[0]] + b[1..];
      if a[0] == b[0] {
        LessTotal(a[1..], b[1..]);
      }
    }
  }

  lemma {:induction false} LessTransitive(a: string, b: string, c: string)
    requires Less(a, b) && Less(b, c)
    ensures Less(a, c)
  {
    if a != "" && a[0] == b[0] && b[0] == c[0] {
      LessTransitive(a[1..], b[1..], c[1..]);
    }
  }

  // ---------------------------------------------------------------- lookup

  datatype Entry = Entry(key: string, value: int)

  predicate Sorted(entries: seq<Entry>) {
    forall i, j :: 0 <= i < j < |entries| ==> !Less(entries[j].key, entries[i].key)
  }

  predicate DistinctKeys(entries: seq<Entry>) {
    forall i, j :: 0 <= i < j < |entries| ==> entries[i].key != entries[j].key
  }

  /** Looking at one entry after the other. */
  function Linear(entries: seq<Entry>, key: string): Option<int> {
    if entries == [] then None
    else if entries[0].key == key then Some(entries[0].value)
    else Linear(entries[1..], key)
  }

  lemma {:induction false} LinearFinds(entries: seq<Entry>, key: string, value: int)
    requires DistinctKeys(entries)
    ensures Linear(entries, key) == Some(value) <==> Entry(key, value) in entries
  {
    if entries != [] {
      LinearFinds(entries[1..], key, value);
      assert forall i :: 0 < i < |entries| ==> entries[0].key != entries[i].key;
    }
  }

  /** With distinct keys, the order of the entries does not matter. */
  lemma LinearOfPermutation(a: seq<Entry>, b: seq<Entry>, key: string)
    requires DistinctKeys(a) && DistinctKeys(b) && multiset(a) == multiset(b)
    ensures Linear(a, key) == Linear(b, key)
  {
    forall e: Entry ensures e in a <==> e in b {
      assert e in multiset(a) <==> e in multiset(b);
    }
    if Linear(a, key).Some? {
      LinearFinds(a, key, Linear(a, key).value);
      LinearFinds(b, key, Linear(a, key).value);
    }
    if Linear(b, key).Some? {
      LinearFinds(a, key, Linear(b, key).value);
      LinearFinds(b, key, Linear(b, key).value);
    }
  }

  /** `lower_bound`: the first entry whose key is not less. */
  method LowerBound(entries: seq<Entry>, key: string) returns (first: nat)
    requires Sorted(entries)
    ensures first <= |entries|
    ensures forall j :: 0 <= j < first ==> Less(entries[j].key, key)
    ensures forall j :: first <= j < |entries| ==> !Less(entries[j].key, key)
  {
    first := 0;
    var count: nat := |entries|;
    while count > 0
      invariant first + count <= |entries|
      invariant forall j :: 0 <= j < first ==> Less(entries[j].key, key)
      invariant forall j :: first + count <= j < |entries| ==> !Less(entries[j].key, key)
    {
      var step := count / 2;
      var middle := first + step;
      if Less(entries[middle].key, key) {
        forall j | 0 <= j <= middle ensures Less(entries[j].key, key) {
          LessBefore(entries, j, middle, key);
        }
        first := middle + 1;
        count := count - (step + 1);
      } else {
        forall j | middle <= j < |entries| ensures !Less(entries[j].key, key) {
          if Less(entries[j].key, key) {
            LessBefore(entries, middle, j, key);
          }
        }
        count := step;
      }
    }
  }

  lemma LessBefore(entries: seq<Entry>, i: nat, j: nat, key: string)
    requires Sorted(entries) && i <= j < |entries| && Less(entries[j].key, key)
    ensures Less(entries[i].key, key)
  {
    if entries[i].key != entries[j].key {
      LessTotal(entries[i].key, entries[j].key);
      LessTransitive(entries[i].key, entries[j].key, key);
    }
  }

  lemma BoundFinds(entries: seq<Entry>, key: string, first: nat)
    requires Sorted(entries) && DistinctKeys(entries) && first <= |entries|
    requires forall j :: 0 <= j < first ==> Less(entries[j].key, key)
    requires forall j :: first <= j < |entries| ==> !Less(entries[j].key, key)
    ensures Linear(entries, key) ==
            if first < |entries| && entries[first].key == key then Some(entries[first].value) else None
  {
    if first < |entries| && entries[first].key == key {
      LinearFinds(entries, key, entries[first].value);
      assert entries[first] == Entry(key, entries[first].value);
    } else if Linear(entries, key).Some? {
      LinearFinds(entries, key, Linear(entries, key).value);
      var j :| 0 <= j < |entries| && entries[j] == Entry(key, Linear(entries, key).value);
      LessIrreflexive(key);
      LessTotal(entries[first].key, key);
      assert false;
    }
  }

  class ObjectValue {
    var entries: seq<Entry>
    var cached: bool

    ghost predicate Valid()
      reads this
    {
      DistinctKeys(entries) && (cached ==> Sorted(entries))
    }

    constructor (entries: seq<Entry>)
      requires DistinctKeys(entries)
      ensures Valid() && this.entries == entries
    {
      this.entries, cached := entries, false;
    }

    /**
      `operator[]` and `has`, with the library's sort as a parameter: the same result as looking at one
      entry after the other, and the object keeps its entries.
     */
    method Lookup(key: string, sort: seq<Entry> -> seq<Entry>) returns (value: Option<int>)
      requires Valid() && Sorted(sort(entries)) && multiset(sort(entries)) == multiset(entries)
      modifies this
      ensures Valid() && multiset(entries) == multiset(old(entries))
      ensures value == Linear(old(entries), key)
    {
      if !cached {
        SortKeepsDistinct(entries, sort(entries));
        LinearOfPermutation(entries, sort(entries), key);
        entries := sort(entries);
        cached := true;
      }
      var it := LowerBound(entries, key);
      BoundFinds(entries, key, it);
      value := if it < |entries| && entries[it].key == key then Some(entries[it].value) else None;
    }
  }

  lemma {:induction false} KeysCounted(entries: seq<Entry>)
    ensures DistinctKeys(entries) <==>
      forall e, f :: e in multiset(entries) && f in multiset(entries) && e.key == f.key ==>
        e == f && multiset(entries)[e] == 1
  {
    if DistinctKeys(entries) {
      forall e, f | e in entries && f in entries && e.key == f.key ensures e == f && multiset(entries)[e] == 1 {
        var i :| 0 <= i < |entries| && entries[i] == e;
        var j :| 0 <= j < |entries| && entries[j] == f;
        CountIsOne(entries, i);
      }
    } else {
      var i, j :| 0 <= i < j < |entries| && entries[i].key == entries[j].key;
      assert entries[i] in multiset(entries) && entries[j] in multiset(entries);
      if entries[i] == entries[j] {
        CountIsMore(entries, i, j);
      }
    }
  }

  lemma CountIsOne(entries: seq<Entry>, i: nat)
    requires DistinctKeys(entries) && i < |entries|
    ensures multiset(entries)[entries[i]] == 1
  {
    var e := entries[i];
    assert entries == entries[..i] + ([e] + entries[i + 1..]);
    assert e !in entries[..i] && e !in entries[i + 1..];
  }

  lemma CountIsMore(entries: seq<Entry>, i: nat, j: nat)
    requires i < j < |entries| && entries[i] == entries[j]
    ensures multiset(entries)[entries[i]] >= 2
  {
    assert entries == entries[..i] + ([entries[i]] + (entries[i + 1..j] + ([entries[j]] + entries[j + 1..])));
  }

  lemma SortKeepsDistinct(a: seq<Entry>, b: seq<Entry>)
    requires multiset(a) == multiset(b) && DistinctKeys(a)
    ensures DistinctKeys(b)
  {
    KeysCounted(a);
    KeysCounted(b);
  }
}
