/**
  Base64 in `3rdparty/crow/utility.h` (sections 4 and 5 of RFC 4648). The code takes octets apart with
  masks and shifts; the parts never overlap, so they are written here as quotients, remainders and sums.
 */
module Base64 {
  import opened Bytes

  // ---------------------------------------------------------------- the alphabets

  const CAPITALS: string := "ABCDEFGHIJKLMNOPQRSTUVWXYZ"
  const SMALL_LETTERS: string := "abcdefghijklmnopqrstuvwxyz"
  const DIGITS: string := "0123456789"

  /** The alphabet, plain or URL-safe. */
  function Alphabet(urlsafe: bool): string {
    CAPITALS + (SMALL_LETTERS + (DIGITS + if urlsafe then "-_" else "+/"))
  }

  /** The character of a value below 64. */
  function Key(v: nat, urlsafe: bool): char
    requires v < 64
  {
    Alphabet(urlsafe)[v]
  }

  lemma Letters(v: nat)
    ensures v < 26 ==> CAPITALS[v] == 'A' + v as char && SMALL_LETTERS[v] == 'a' + v as char
    ensures v < 10 ==> DIGITS[v] == '0' + v as char
  {
  }

  lemma KeyIs(v: nat, urlsafe: bool)
    requires v < 64
    ensures Key(v, urlsafe) ==
      if v < 26 then 'A' + v as char
      else if v < 52 then 'a' + (v - 26) as char
      else if v < 62 then '0' + (v - 52) as char
      else if v == 62 then if urlsafe then '-' else '+'
      else if urlsafe then '_' else '/'
  {
    if v < 26 {
      Letters(v);
    } else if v < 52 {
      Letters(v - 26);
    } else if v < 62 {
      Letters(v - 52);
    }
  }

  /** The decoder takes both alphabets, and zero for anything else. */
  function Value(c: char): (v: nat)
    ensures v < 64
  {
    if 'A' <= c <= 'Z' then (c - 'A') as int
    else if 'a' <= c <= 'z' then (c - 'a') as int + 26
    else if '0' <= c <= '9' then (c - '0') as int + 52
    else if c == '+' || c == '-' then 62
    else if c == '/' || c == '_' then 63
    else 0
  }

  lemma ValueOfKey(v: nat, urlsafe: bool)
    requires v < 64
    ensures Value(Key(v, urlsafe)) == v && Key(v, urlsafe) != '='
  {
    hide Key;
    KeyIs(v, urlsafe);
  }

  /** Any other value than zero is that of the character only. */
  lemma OnlyKeyHasValue(c: char)
    requires Value(c) != 0
    ensures c == Key(Value(c), false) || c == Key(Value(c), true)
  {
    hide Key;
    KeyIs(Value(c), false);
    KeyIs(Value(c), true);
  }

  // ---------------------------------------------------------------- the text of some octets

  function First(a: byte): nat { a as int / 4 }

  function Second(a: byte, b: int): nat
    requires 0 <= b < 256
  {
    a as int % 4 * 16 + b / 16
  }

  function Third(b: byte, c: int): nat
    requires 0 <= c < 256
  {
    b as int % 16 * 4 + c / 64
  }

  /** Four characters for three octets. */
  function Group(a: byte, b: byte, c: byte, urlsafe: bool): (s: string)
    ensures |s| == 4
  {
    [Key(First(a), urlsafe), Key(Second(a, b), urlsafe), Key(Third(b, c), urlsafe), Key(c as int % 64, urlsafe)]
  }

  /** Two characters for a last octet, and three for the last two. */
  function Single(a: byte, urlsafe: bool): (s: string)
    ensures |s| == 2
  {
    [Key(First(a), urlsafe), Key(Second(a, 0), urlsafe)]
  }

  function Pair(a: byte, b: byte, urlsafe: bool): (s: string)
    ensures |s| == 3
  {
    [Key(First(a), urlsafe), Key(Second(a, b), urlsafe), Key(Third(b, 0), urlsafe)]
  }

  /**
    Section 4: the octets of a group, the most significant first, are a number, and the characters its
    digits to the base 64; zero bits fill up what is left at the end.
   */
  lemma GroupsAreNumbers(a: byte, b: byte, c: byte, urlsafe: bool)
    ensures var n := a as int * 0x1_0000 + b as int * 0x100 + c;
      Group(a, b, c, urlsafe) == [Key(n / 0x4_0000, urlsafe), Key(n / 0x1000 % 0x40, urlsafe),
                                  Key(n / 0x40 % 0x40, urlsafe), Key(n % 0x40, urlsafe)]
    ensures var n := (a as int * 0x100 + b) * 4;
      Pair(a, b, urlsafe) == [Key(n / 0x1000, urlsafe), Key(n / 0x40 % 0x40, urlsafe), Key(n % 0x40, urlsafe)]
    ensures var n := a as int * 0x10;
      Single(a, urlsafe) == [Key(n / 0x40, urlsafe), Key(n % 0x40, urlsafe)]
  {
    hide Key;
    GroupDigits(a, b, c);
    GroupDigits(a, b, 0);
    LessDigits(a, b);
  }

  lemma GroupDigits(a: byte, b: byte, c: byte)
    ensures var n := a as int * 0x1_0000 + b as int * 0x100 + c;
      n / 0x4_0000 == First(a) && n / 0x1000 % 0x40 == Second(a, b)
      && n / 0x40 % 0x40 == Third(b, c) && n % 0x40 == c as int % 64
  {
    var n, m := a as int * 0x1_0000 + b as int * 0x100 + c, a as int * 0x100 + b;
    UpperDigits(n, m, a, b, c);
    LowerDigits(n, m, a, b, c);
  }

  lemma UpperDigits(n: nat, m: nat, a: byte, b: byte, c: byte)
    requires n == m * 0x100 + c && m == a as int * 0x100 + b
    ensures n / 0x4_0000 == First(a) && n / 0x1000 % 0x40 == Second(a, b)
  {
    assert n / 0x1000 == m / 0x10 == a as int * 0x10 + b as int / 16;
    assert n / 0x4_0000 == a as int / 4;
  }

  lemma LowerDigits(n: nat, m: nat, a: byte, b: byte, c: byte)
    requires n == m * 0x100 + c && m == a as int * 0x100 + b
    ensures n / 0x40 % 0x40 == Third(b, c) && n % 0x40 == c as int % 64
  {
    var q := a as int * 0x10 + b as int / 16;
    assert m == q * 0x10 + b as int % 16;
    Split(n, q * 0x40 + Third(b, c), c as int % 64);
    Split(n / 0x40, q, Third(b, c));
  }

  lemma Split(n: nat, q: nat, r: nat)
    requires n == q * 0x40 + r && r < 0x40
    ensures n / 0x40 == q && n % 0x40 == r
  {
  }

  lemma LessDigits(a: byte, b: byte)
    ensures var n := (a as int * 0x100 + b) * 4;
      n / 0x1000 == First(a) && n / 0x40 % 0x40 == Second(a, b) && n % 0x40 == Third(b, 0)
    ensures a as int * 0x10 / 0x40 == First(a) && a as int * 0x10 % 0x40 == Second(a, 0)
  {
    var m := a as int * 0x100 + b;
    assert m * 4 / 0x40 == m / 0x10 == a as int * 0x10 + b as int / 16;
  }

  /** Section 4, without the padding. */
  function Stripped(data: seq<byte>, urlsafe: bool): string
    decreases |data|
  {
    if data == [] then ""
    else if |data| == 1 then Single(data[0], urlsafe)
    else if |data| == 2 then Pair(data[0], data[1], urlsafe)
    else Group(data[0], data[1], data[2], urlsafe) + Stripped(data[3..], urlsafe)
  }

  function Padding(n: nat): string {
    if n % 3 == 0 then "" else if n % 3 == 1 then "==" else "="
  }

  /** Section 4: three octets are four characters, and what is left is padded. */
  function Encoded(data: seq<byte>, urlsafe: bool): string {
    Stripped(data, urlsafe) + Padding(|data|)
  }

  /** How many characters `size` octets take, unpadded. */
  function Needed(size: nat): nat {
    if size < 3 then (if size == 0 then 0 else size + 1) else Needed(size - 3) + 4
  }

  lemma {:induction false} StrippedLength(data: seq<byte>, urlsafe: bool)
    ensures |Stripped(data, urlsafe)| == Needed(|data|)
    decreases |data|
  {
    if |data| >= 3 {
      StrippedLength(data[3..], urlsafe);
    }
  }

  lemma {:induction false} NeededIs(n: nat)
    ensures Needed(n) == n / 3 * 4 + (if n % 3 == 0 then 0 else n % 3 + 1)
    ensures Needed(n) + |Padding(n)| == (n + 2) / 3 * 4
    ensures Needed(n) % 4 == (if n % 3 == 0 then 0 else n % 3 + 1) && Needed(n) / 4 == n / 3
  {
    if n >= 3 {
      NeededIs(n - 3);
      Thirds(n - 3);
    }
  }

  lemma Thirds(n: nat)
    ensures (n + 3) / 3 == n / 3 + 1 && (n + 3) % 3 == n % 3 && (n + 5) / 3 == (n + 2) / 3 + 1
  {
  }

  /** The encoder's work on a whole group. */
  method PutGroup(ret: array<char>, it: nat, a: byte, b: byte, c: byte, urlsafe: bool)
    requires it + 4 <= ret.Length
    modifies ret
    ensures ret[..it + 4] == old(ret[..it]) + Group(a, b, c, urlsafe)
  {
    ghost var done := ret[..it];
    ret[it] := Key(First(a), urlsafe);
    ret[it + 1] := Key(Second(a, b), urlsafe);
    ret[it + 2] := Key(Third(b, c), urlsafe);
    ret[it + 3] := Key(c as int % 64, urlsafe);
    assert ret[..it + 4] == done + [ret[it], ret[it + 1], ret[it + 2], ret[it + 3]];
  }

  /** And on what is left. */
  method PutRest(ret: array<char>, it: nat, rest: seq<byte>, urlsafe: bool)
    requires |rest| < 3 && ret.Length == it + (if rest == [] then 0 else 4)
    modifies ret
    ensures ret[..] == old(ret[..it]) + (Stripped(rest, urlsafe) + Padding(|rest|))
  {
    ghost var done := ret[..it];
    if |rest| == 1 {
      ret[it] := Key(First(rest[0]), urlsafe);
      ret[it + 1] := Key(Second(rest[0], 0), urlsafe);
      ret[it + 2] := '=';
      ret[it + 3] := '=';
      assert Stripped(rest, urlsafe) + Padding(|rest|) == Single(rest[0], urlsafe) + "==";
      assert ret[..] == done + [ret[it], ret[it + 1], ret[it + 2], ret[it + 3]];
    } else if |rest| == 2 {
      ret[it] := Key(First(rest[0]), urlsafe);
      ret[it + 1] := Key(Second(rest[0], rest[1]), urlsafe);
      ret[it + 2] := Key(Third(rest[1], 0), urlsafe);
      ret[it + 3] := '=';
      assert Stripped(rest, urlsafe) + Padding(|rest|) == Pair(rest[0], rest[1], urlsafe) + "=";
      assert ret[..] == done + [ret[it], ret[it + 1], ret[it + 2], ret[it + 3]];
    } else {
      assert ret[..] == done;
    }
  }

  /** `base64encode`. */
  method Encode(data: seq<byte>, urlsafe: bool) returns (ret: array<char>)
    ensures ret[..] == Encoded(data, urlsafe)
  {
    hide Group, Stripped, Needed, Padding;
    NeededIs(|data|);
    ret := new char[(|data| + 2) / 3 * 4](_ => '\0');
    var it: nat, at: nat, size: nat := 0, 0, |data|;
    assert data[0..] == data;
    assert ret[..0] + Stripped(data, urlsafe) == Stripped(data, urlsafe);
    while size >= 3
      invariant at + size == |data| && it + Needed(size) + |Padding(size)| == ret.Length
      invariant Stripped(data, urlsafe) == ret[..it] + Stripped(data[at..], urlsafe) && Padding(size) == Padding(|data|)
    {
      GroupFirst(data, at, urlsafe);
      LessThree(size);
      Associates(ret[..it], Group(data[at], data[at + 1], data[at + 2], urlsafe), Stripped(data[at + 3..], urlsafe));
      PutGroup(ret, it, data[at], data[at + 1], data[at + 2], urlsafe);
      it, at, size := it + 4, at + 3, size - 3;
    }
    NeededIs(size);
    Associates(ret[..it], Stripped(data[at..], urlsafe), Padding(size));
    PutRest(ret, it, data[at..], urlsafe);
  }

  lemma GroupFirst(data: seq<byte>, at: nat, urlsafe: bool)
    requires at + 3 <= |data|
    ensures Stripped(data[at..], urlsafe) ==
            Group(data[at], data[at + 1], data[at + 2], urlsafe) + Stripped(data[at + 3..], urlsafe)
  {
    hide Group;
    assert data[at..][3..] == data[at + 3..];
  }

  lemma LessThree(size: nat)
    requires size >= 3
    ensures Needed(size) == Needed(size - 3) + 4 && Padding(size) == Padding(size - 3)
  {
    Thirds(size - 3);
  }

  lemma Associates<T>(a: seq<T>, b: seq<T>, c: seq<T>)
    ensures (a + b) + c == a + (b + c)
  {
  }

  // ---------------------------------------------------------------- the octets of a text

  /** How many octets the decoder computes that a text has. */
  function DecodedSize(text: string): (size: int)
    ensures |text| % 4 == 2 ==> size == |text| / 4 * 3 + 1
    ensures |text| % 4 == 3 ==> size == |text| / 4 * 3 + 2
  {
    var n := |text|;
    if n % 4 == 2 then n / 4 * 3 + 1
    else if n % 4 == 3 then n / 4 * 3 + 2
    else if n >= 2 && text[n - 2] == '=' then n / 4 * 3 - 2
    else if n >= 1 && text[n - 1] == '=' then n / 4 * 3 - 1
    else n / 4 * 3
  }

  function Octet1(a: char, b: char): byte { Value(a) * 4 + Value(b) / 16 }

  function Octet2(b: char, c: char): byte { Value(b) % 16 * 16 + Value(c) / 4 }

  function Octet3(c: char, d: char): byte { Value(c) % 4 * 64 + Value(d) }

  /** The first `size` octets of a text. */
  function Decoded(text: string, size: nat): seq<byte>
    requires Needed(size) <= |text|
    decreases size
  {
    if size == 0 then []
    else if size == 1 then [Octet1(text[0], text[1])]
    else if size == 2 then [Octet1(text[0], text[1]), Octet2(text[1], text[2])]
    else Octets(text[0], text[1], text[2], text[3]) + Decoded(text[4..], size - 3)
  }

  function Octets(a: char, b: char, c: char, d: char): (o: seq<byte>)
    ensures |o| == 3
  {
    [Octet1(a, b), Octet2(b, c), Octet3(c, d)]
  }

  /** The decoder's work on four characters. */
  method PutOctets(ret: array<byte>, it: nat, a: char, b: char, c: char, d: char)
    requires it + 3 <= ret.Length
    modifies ret
    ensures ret[..it + 3] == old(ret[..it]) + Octets(a, b, c, d)
  {
    ghost var done := ret[..it];
    ret[it] := Octet1(a, b);
    ret[it + 1] := Octet2(b, c);
    ret[it + 2] := Octet3(c, d);
    assert ret[..it + 3] == done + [ret[it], ret[it + 1], ret[it + 2]];
  }

  /** And on what is left. */
  method PutLast(ret: array<byte>, it: nat, rest: string, size: nat)
    requires size < 3 && Needed(size) <= |rest| && ret.Length == it + size
    modifies ret
    ensures ret[..] == old(ret[..it]) + Decoded(rest, size)
  {
    ghost var done := ret[..it];
    if size == 2 {
      ret[it] := Octet1(rest[0], rest[1]);
      ret[it + 1] := Octet2(rest[1], rest[2]);
      assert ret[..] == done + [ret[it], ret[it + 1]];
    } else if size == 1 {
      ret[it] := Octet1(rest[0], rest[1]);
      assert ret[..] == done + [ret[it]];
    } else {
      assert ret[..] == done;
    }
  }

  /** `base64decode`, where the computed size is not below zero and the text has characters for it. */
  method Decode(text: string) returns (ret: array<byte>)
    requires DecodedSize(text) >= 0 && Needed(DecodedSize(text)) <= |text|
    ensures ret[..] == Decoded(text, DecodedSize(text))
  {
    hide Decoded, Octets, Needed, DecodedSize;
    var size: nat := DecodedSize(text);
    ret := new byte[size](_ => 0);
    var it, at := 0, 0;
    ghost var whole := Decoded(text, size);
    assert text[0..] == text && ret[..0] + whole == whole;
    while size >= 3
      invariant at <= |text| && it + size == ret.Length && Needed(size) <= |text| - at
      invariant whole == ret[..it] + Decoded(text[at..], size)
    {
      LessThree(size);
      OctetsFirst(text, at, size);
      Associates(ret[..it], Octets(text[at], text[at + 1], text[at + 2], text[at + 3]),
                 Decoded(text[at + 4..], size - 3));
      PutOctets(ret, it, text[at], text[at + 1], text[at + 2], text[at + 3]);
      it, at, size := it + 3, at + 4, size - 3;
    }
    PutLast(ret, it, text[at..], size);
  }

  lemma OctetsFirst(text: string, at: nat, size: nat)
    requires size >= 3 && at <= |text| && Needed(size) <= |text| - at
    ensures at + 4 <= |text| && Needed(size - 3) <= |text| - at - 4
    ensures Decoded(text[at..], size) ==
            Octets(text[at], text[at + 1], text[at + 2], text[at + 3]) + Decoded(text[at + 4..], size - 3)
  {
    hide Octets;
    assert text[at..][4..] == text[at + 4..];
  }

  // ---------------------------------------------------------------- the round trip

  /** The characters of three octets, or of fewer with zeros behind them, give these octets. */
  lemma GroupReads(a: byte, b: byte, c: byte, urlsafe: bool)
    ensures First(a) < 64 && Second(a, b) < 64 && Third(b, c) < 64
    ensures Octet1(Key(First(a), urlsafe), Key(Second(a, b), urlsafe)) == a
    ensures Octet2(Key(Second(a, b), urlsafe), Key(Third(b, c), urlsafe)) == b
    ensures Octet3(Key(Third(b, c), urlsafe), Key(c as int % 64, urlsafe)) == c
  {
    hide Key, Value;
    ValueOfKey(First(a), urlsafe);
    ValueOfKey(Second(a, b), urlsafe);
    ValueOfKey(Third(b, c), urlsafe);
    ValueOfKey(c as int % 64, urlsafe);
  }

  lemma GroupOctets(a: byte, b: byte, c: byte, urlsafe: bool)
    ensures var s := Group(a, b, c, urlsafe); Octets(s[0], s[1], s[2], s[3]) == [a, b, c]
  {
    GroupReads(a, b, c, urlsafe);
  }

  lemma RestOctets(rest: seq<byte>, urlsafe: bool, text: string)
    requires 0 < |rest| < 3 && Stripped(rest, urlsafe) <= text
    ensures Needed(|rest|) <= |text| && Decoded(text, |rest|) == rest
  {
    hide Key, Value, First, Second, Third, Octet1, Octet2;
    var s := Stripped(rest, urlsafe);
    GroupReads(rest[0], if |rest| == 1 then 0 else rest[1], 0, urlsafe);
    assert text[0] == s[0] && text[1] == s[1] && (|rest| == 2 ==> text[2] == s[2]);
  }

  /** The text of the octets, whatever is behind it, gives the octets. */
  lemma {:induction false} DecodedStripped(data: seq<byte>, urlsafe: bool, text: string)
    requires Stripped(data, urlsafe) <= text
    ensures Needed(|data|) <= |text| && Decoded(text, |data|) == data
    decreases |data|
  {
    hide Stripped, Decoded, Group, Octets, Needed;
    if data == [] {
      NoOctets(text);
    } else if |data| < 3 {
      RestOctets(data, urlsafe, text);
    } else {
      var a, b, c, rest := data[0], data[1], data[2], data[3..];
      var group := Group(a, b, c, urlsafe);
      GroupFirst(data, 0, urlsafe);
      assert data[0..] == data;
      var s := Stripped(data, urlsafe);
      assert s == group + Stripped(rest, urlsafe);
      assert text[4..][..|s| - 4] == s[4..] == Stripped(rest, urlsafe);
      assert text[0] == group[0] && text[1] == group[1] && text[2] == group[2] && text[3] == group[3];
      DecodedStripped(rest, urlsafe, text[4..]);
      LessThree(|data|);
      GroupOctets(a, b, c, urlsafe);
      OctetsFirst(text, 0, |data|);
      assert text[0..] == text;
      assert data == [a, b, c] + rest;
    }
  }

  lemma NoOctets(text: string)
    ensures Needed(0) == 0 && Decoded(text, 0) == []
  {
  }

  /** The last characters before the padding are none of it. */
  lemma {:induction false} StrippedEnd(data: seq<byte>, urlsafe: bool)
    requires data != []
    ensures var s := Stripped(data, urlsafe); |s| >= 2 && s[|s| - 1] != '=' && s[|s| - 2] != '='
    decreases |data|
  {
    var a, b, c := data[0], if |data| > 1 then data[1] else 0, if |data| > 2 then data[2] else 0;
    GroupReads(a, b, c, urlsafe);
    hide Key, Value;
    ValueOfKey(First(a), urlsafe);
    ValueOfKey(Second(a, b), urlsafe);
    ValueOfKey(Third(b, c), urlsafe);
    ValueOfKey(c as int % 64, urlsafe);
    if |data| >= 3 {
      GroupFirst(data, 0, urlsafe);
      assert data[0..] == data;
      if |data| > 3 {
        StrippedEnd(data[3..], urlsafe);
      }
    }
  }

  lemma SizeOfStripped(data: seq<byte>, urlsafe: bool)
    ensures DecodedSize(Stripped(data, urlsafe)) == |data|
  {
    hide Stripped, Needed;
    StrippedLength(data, urlsafe);
    NeededIs(|data|);
    if data != [] {
      StrippedEnd(data, urlsafe);
    } else {
      NothingStripped(urlsafe);
    }
  }

  lemma NothingStripped(urlsafe: bool)
    ensures Stripped([], urlsafe) == ""
  {
  }

  lemma SizeOfEncoded(data: seq<byte>, urlsafe: bool)
    ensures DecodedSize(Encoded(data, urlsafe)) == |data|
  {
    hide Stripped, Needed;
    StrippedLength(data, urlsafe);
    NeededIs(|data|);
    if data != [] {
      StrippedEnd(data, urlsafe);
      PaddedSize(Stripped(data, urlsafe), |data|);
    } else {
      NothingStripped(urlsafe);
    }
  }

  lemma PaddedSize(s: string, n: nat)
    requires |s| >= 2 && s[|s| - 1] != '=' && s[|s| - 2] != '=' && |s| + |Padding(n)| == (n + 2) / 3 * 4
    ensures DecodedSize(s + Padding(n)) == n
  {
    var text, q := s + Padding(n), (n + 2) / 3;
    assert |text| % 4 == 0 && |text| / 4 == q;
    if n % 3 == 1 {
      assert text[|text| - 2] == '=' && n == 3 * q - 2;
    } else if n % 3 == 2 {
      assert text[|text| - 2] == s[|s| - 1] && text[|text| - 1] == '=' && n == 3 * q - 1;
    } else {
      assert text == s && n == 3 * q;
    }
  }

  /** For all octets and either alphabet, padded or not, the decoder computes their number and returns them. */
  lemma RoundTrip(data: seq<byte>, urlsafe: bool)
    ensures DecodedSize(Encoded(data, urlsafe)) == |data| == DecodedSize(Stripped(data, urlsafe))
    ensures Needed(|data|) <= |Encoded(data, urlsafe)| && Decoded(Encoded(data, urlsafe), |data|) == data
    ensures Needed(|data|) <= |Stripped(data, urlsafe)| && Decoded(Stripped(data, urlsafe), |data|) == data
  {
    hide Stripped, Needed, Decoded, DecodedSize;
    SizeOfEncoded(data, urlsafe);
    SizeOfStripped(data, urlsafe);
    DecodedStripped(data, urlsafe, Encoded(data, urlsafe));
    DecodedStripped(data, urlsafe, Stripped(data, urlsafe));
  }
}
