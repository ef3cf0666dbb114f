/**
  Decimal numbers in `3rdparty/yas/defaul_traits.hpp`: the staged test for the number of digits, the
  digits written from the back, and the digits read with one power of ten each, in 64 bits.
 */
module Decimal {
  type uint64 = n: int | 0 <= n < 0x1_0000_0000_0000_0000 witness 0

  function Power10(k: nat): (p: nat)
    ensures p > 0
  {
    if k == 0 then 1 else 10 * Power10(k - 1)
  }

  predicate IsDigit(c: char) {
    '0' <= c <= '9'
  }

  function DigitOf(c: char): nat
    requires IsDigit(c)
  {
    (c - '0') as int
  }

  predicate AllDigits(s: string) {
    forall i :: 0 <= i < |s| ==> IsDigit(s[i])
  }

  /** What a text of digits stands for. */
  function Value(s: string): nat
    requires AllDigits(s)
  {
    if s == "" then 0 else Value(s[..|s| - 1]) * 10 + DigitOf(s[|s| - 1])
  }

  /** The number of digits of a number: one for zero, and no leading zero. */
  predicate HasDigits(v: nat, len: nat) {
    len > 0 && v < Power10(len) && (len > 1 ==> v >= Power10(len - 1))
  }

  // ---------------------------------------------------------------- writing

  lemma {:induction false} PowersMultiply(a: nat, b: nat)
    ensures Power10(a + b) == Power10(a) * Power10(b)
  {
    if a > 0 {
      PowersMultiply(a - 1, b);
      assert 10 * (Power10(a - 1) * Power10(b)) == 10 * Power10(a - 1) * Power10(b);
    }
  }

  /** One stage: if the rest has more than `k` digits, these are counted and cut off. */
  lemma Stage(l: nat, k: nat, digits: nat)
    requires k > 0 && l >= Power10(k) && HasDigits(l / Power10(k), digits)
    ensures HasDigits(l, digits + k)
  {
    var p, q := Power10(k), l / Power10(k);
    Quotient(l, p);
    PowersMultiply(digits, k);
    Below(l, p, q, Power10(digits));
    if digits > 1 {
      PowersMultiply(digits - 1, k);
      Above(l, p, q, Power10(digits - 1));
    } else {
      assert Power10(digits + k - 1) == Power10(k);
    }
  }

  lemma Quotient(l: nat, p: nat)
    requires p > 0
    ensures l / p * p <= l < l / p * p + p
  {
  }

  lemma Below(l: nat, p: nat, q: nat, bound: nat)
    requires q * p <= l < q * p + p && q < bound
    ensures l < bound * p
  {
    assert (q + 1) * p <= bound * p;
  }

  lemma Above(l: nat, p: nat, q: nat, bound: nat)
    requires q * p <= l && q >= bound
    ensures l >= bound * p
  {
    assert q * p >= bound * p;
  }

  lemma Powers()
    ensures Power10(1) == 10 && Power10(2) == 100 && Power10(4) == 10000 && Power10(8) == 100000000
    ensures Power10(16) == 10000000000000000 && Power10(20) > 0xFFFF_FFFF_FFFF_FFFF
  {
    assert Power10(1) == 10 && Power10(2) == 100 && Power10(3) == 1000 && Power10(4) == 10000;
    PowersMultiply(4, 4);
    PowersMultiply(8, 8);
    PowersMultiply(16, 4);
  }

  /** The staged test of `utoa`, for every 64-bit number. */
  method Length(v: uint64) returns (len: nat)
    ensures HasDigits(v, len) && len <= 20
  {
    hide Power10;
    Powers();
    var l, n: nat := v, 1;
    if l >= 10000000000000000 {
      n, l := n + 16, l / 10000000000000000;
    }
    ghost var a := l;
    if l >= 100000000 {
      n, l := n + 8, l / 100000000;
    }
    ghost var b := l;
    if l >= 10000 {
      n, l := n + 4, l / 10000;
    }
    ghost var c := l;
    if l >= 100 {
      n, l := n + 2, l / 100;
    }
    ghost var d := l;
    if l >= 10 {
      n := n + 1;
    }
    len := n;
    OneOrTwo(d);
    ghost var m := if d >= 10 then 2 else 1;
    if c >= 100 {
      Stage(c, 2, m);
      m := m + 2;
    }
    if b >= 10000 {
      Stage(b, 4, m);
      m := m + 4;
    }
    if a >= 100000000 {
      Stage(a, 8, m);
      m := m + 8;
    }
    if v >= 10000000000000000 {
      Stage(v, 16, m);
      m := m + 16;
    }
    AtMostTwenty(v, len);
  }

  lemma OneOrTwo(d: nat)
    requires d < 100
    ensures HasDigits(d, if d >= 10 then 2 else 1)
  {
    Powers();
    assert Power10(0) == 1;
  }

  lemma AtMostTwenty(v: uint64, len: nat)
    requires HasDigits(v, len)
    ensures len <= 20
  {
    Powers();
    if len > 20 {
      Increases(20, len - 1);
    }
  }

  lemma {:induction false} Increases(a: nat, b: nat)
    requires a <= b
    ensures Power10(a) <= Power10(b)
  {
    if a < b {
      Increases(a, b - 1);
    }
  }

  /** The last `len` digits of a number. */
  function Digits(n: nat, len: nat): (s: string)
    ensures |s| == len && AllDigits(s)
  {
    if len == 0 then "" else Digits(n / 10, len - 1) + ['0' + (n % 10) as char]
  }

  lemma {:induction false} DigitsHaveValue(n: nat, len: nat)
    requires n < Power10(len)
    ensures Value(Digits(n, len)) == n
  {
    if len > 0 {
      var s := Digits(n, len);
      DigitsHaveValue(n / 10, len - 1);
      assert s[..len - 1] == Digits(n / 10, len - 1);
    }
  }

  /** `utoa` behind the first `at` characters of its buffer. */
  method Utoa(buf: array<char>, at: nat, v: uint64) returns (len: nat)
    requires at + 21 <= buf.Length
    modifies buf
    ensures 0 < len <= 20 && HasDigits(v, len) && buf[at..at + len] == Digits(v, len) && buf[at + len] == '\0'
    ensures forall i :: 0 <= i < at || at + len < i < buf.Length ==> buf[i] == old(buf[i])
  {
    len := Length(v);
    buf[at + len] := '\0';
    var n: nat, k: nat := v, len;
    ghost var s := Digits(v, len);
    assert buf[at + len..at + len] == "" && s + "" == s;
    while k > 0
      invariant k <= len && buf[at + len] == '\0'
      invariant Digits(v, len) == Digits(n, k) + buf[at + k..at + len]
      invariant forall i :: 0 <= i < at || at + len < i < buf.Length ==> buf[i] == old(buf[i])
    {
      ghost var behind := buf[at + k..at + len];
      buf[at + k - 1] := '0' + (n % 10) as char;
      assert buf[at + k - 1..at + len] == [buf[at + k - 1]] + behind;
      assert Digits(n / 10, k - 1) + [buf[at + k - 1]] + behind == Digits(n / 10, k - 1) + ([buf[at + k - 1]] + behind);
      n, k := n / 10, k - 1;
    }
    assert Digits(n, 0) == "";
  }

  // ---------------------------------------------------------------- reading

  /** `atou`: the digits from the front, each with its power of ten, the sum cut to 64 bits every time. */
  method Atou(s: string) returns (v: uint64)
    requires AllDigits(s) && |s| <= 20
    ensures v == Value(s) % 0x1_0000_0000_0000_0000
  {
    hide Value, Power10;
    v := 0;
    var size: nat := |s|;
    NoValue(s);
    Cut(Power10(size));
    while size > 0
      invariant size <= |s|
      invariant v == Value(s[..|s| - size]) * Power10(size) % 0x1_0000_0000_0000_0000
    {
      AtouStep(s, |s| - size, size, v);
      v := (v + DigitOf(s[|s| - size]) * Power10(size - 1)) % 0x1_0000_0000_0000_0000;
      size := size - 1;
    }
    AllRead(s);
  }

  lemma NoValue(s: string)
    ensures Value(s[..0]) == 0
  {
  }

  lemma AllRead(s: string)
    requires AllDigits(s)
    ensures s[..|s|] == s && Value(s[..|s|]) * Power10(0) == Value(s)
  {
  }

  lemma AtouStep(s: string, i: nat, size: nat, v: nat)
    requires AllDigits(s) && i < |s| && size > 0 && v == Value(s[..i]) * Power10(size) % 0x1_0000_0000_0000_0000
    ensures (v + DigitOf(s[i]) * Power10(size - 1)) % 0x1_0000_0000_0000_0000 ==
            Value(s[..i + 1]) * Power10(size - 1) % 0x1_0000_0000_0000_0000
  {
    var before, p := Value(s[..i]), Power10(size - 1);
    ValueMore(s, i);
    TimesTen(size);
    hide Value, Power10;
    Powered(before, DigitOf(s[i]), p);
    CutSum(before * Power10(size), DigitOf(s[i]) * p);
  }

  lemma ValueMore(s: string, i: nat)
    requires AllDigits(s) && i < |s|
    ensures Value(s[..i + 1]) == Value(s[..i]) * 10 + DigitOf(s[i])
  {
    assert s[..i + 1][..i] == s[..i];
  }

  lemma TimesTen(size: nat)
    requires size > 0
    ensures Power10(size) == 10 * Power10(size - 1)
  {
  }

  lemma Cut(p: nat)
    ensures 0 * p % 0x1_0000_0000_0000_0000 == 0
  {
  }

  lemma Powered(before: nat, digit: nat, p: nat)
    ensures (before * 10 + digit) * p == before * (10 * p) + digit * p
  {
  }

  lemma CutSum(a: nat, b: nat)
    ensures (a % 0x1_0000_0000_0000_0000 + b) % 0x1_0000_0000_0000_0000 == (a + b) % 0x1_0000_0000_0000_0000
  {
  }

  // ---------------------------------------------------------------- the round trip

  /** For every 64-bit number: what is written is its digits, and reading them gives the number. */
  method RoundTrip(v: uint64) returns (len: nat, back: uint64)
    ensures HasDigits(v, len) && back == v
  {
    var buf := new char[21](_ => ' ');
    len := Utoa(buf, 0, v);
    DigitsHaveValue(v, len);
    back := Atou(buf[..len]);
    assert buf[..len] == buf[0..0 + len];
  }

  lemma Written(v: uint64, len: nat)
    requires HasDigits(v, len)
    ensures Value(Digits(v, len)) == v
  {
    DigitsHaveValue(v, len);
  }

  type int64 = n: int | -0x8000_0000_0000_0000 <= n < 0x8000_0000_0000_0000 witness 0

  /** `itoa` and `atoi`, on all signed numbers but the least, whose absolute value is none. */
  method SignedRoundTrip(v: int64) returns (back: int64)
    requires v > -0x8000_0000_0000_0000
    ensures back == v
  {
    hide Digits, Value, HasDigits;
    var buf := new char[22](_ => ' ');
    if v < 0 {
      buf[0] := '-';
      var len := Utoa(buf, 1, 0 - v);
      Written(0 - v, len);
      var magnitude := Atou(buf[1..1 + len]);
      var m: int := magnitude;
      back := 0 - m;
    } else {
      var len := Utoa(buf, 0, v);
      Written(v, len);
      var whole := Atou(buf[0..0 + len]);
      back := whole;
    }
  }
}
