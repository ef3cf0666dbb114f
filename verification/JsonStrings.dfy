/**
  Strings as section 7 of RFC 8259 has them: what `3rdparty/crow/json.h` reads is exactly the texts that
  consist of characters and escapes between two quotes, and what it makes of them is what they stand for.
 */
module JsonStrings {
  import opened Wrappers
  import opened Numerals
  import opened JsonSpec

  /** A character that needs no escape, a backslash with a letter, or one with a code of four digits. */
  datatype Unit = Plain(c: char) | Short(letter: char, c: char) | Unicode(code: nat, capitals: seq<bool>)

  predicate IsUnit(u: Unit) {
    match u
    case Plain(c) => c != '"' && c != '\\' && c != '\0'
    case Short('b', c) => c as int == 8
    case Short('t', c) => c as int == 9
    case Short('n', c) => c as int == 10
    case Short('f', c) => c as int == 12
    case Short('r', c) => c as int == 13
    case Short(l, c) => l == c && (c == '"' || c == '\\' || c == '/')
    case Unicode(code, capitals) => code < 0x10000 && |capitals| == 4
  }

  function UnitText(u: Unit): string {
    match u
    case Plain(c) => [c]
    case Short(l, _) => ['\\', l]
    case Unicode(code, capitals) => "\\u" + Hexadecimal(code, capitals)
  }

  /** The octets are the code in UTF-8: section 3 of RFC 3629, for codes of sixteen bits. */
  predicate IsUtf8(o: string, code: nat) {
    if code < 0x80 then |o| == 1 && o[0] as int == code
    else if code < 0x800 then
      && |o| == 2 && 0xC0 <= o[0] as int < 0xE0 && 0x80 <= o[1] as int < 0xC0
      && (o[0] as int - 0xC0) * 0x40 + (o[1] as int - 0x80) == code
    else
      && |o| == 3 && 0xE0 <= o[0] as int < 0xF0 && 0x80 <= o[1] as int < 0xC0 && 0x80 <= o[2] as int < 0xC0
      && (o[0] as int - 0xE0) * 0x1000 + (o[1] as int - 0x80) * 0x40 + (o[2] as int - 0x80) == code
  }

  lemma Utf8Is(o: string, code: nat)
    requires code < 0x10000
    ensures o == Utf8(code) <==> IsUtf8(o, code)
  {
    var u := Utf8(code);
    if code >= 0x800 {
      if IsUtf8(o, code) {
        ThreeParts(code, o[0] as int - 0xE0, o[1] as int - 0x80, o[2] as int - 0x80);
        assert o == [o[0], o[1], o[2]];
      }
      assert u[0] as int == 0xE0 + code / 0x1000 && u[1] as int == 0x80 + code / 0x40 % 0x40;
      assert u[2] as int == 0x80 + code % 0x40;
    } else if IsUtf8(o, code) {
      assert o == if code < 0x80 then [o[0]] else [o[0], o[1]];
    }
  }

  lemma ThreeParts(code: nat, a: nat, b: nat, c: nat)
    requires code == a * 0x1000 + b * 0x40 + c && b < 0x40 && c < 0x40
    ensures code / 0x1000 == a && code / 0x40 % 0x40 == b && code % 0x40 == c
  {
    assert code / 0x40 == a * 0x40 + b;
  }

  function UnitOctets(u: Unit): string
    requires IsUnit(u)
  {
    match u case Plain(c) => [c] case Short(_, c) => [c] case Unicode(code, _) => Utf8(code)
  }

  predicate AreUnits(units: seq<Unit>) {
    units == [] || (IsUnit(units[0]) && AreUnits(units[1..]))
  }

  function UnitsText(units: seq<Unit>): string {
    if units == [] then "" else UnitText(units[0]) + UnitsText(units[1..])
  }

  function UnitsOctets(units: seq<Unit>): string
    requires AreUnits(units)
  {
    if units == [] then "" else UnitOctets(units[0]) + UnitsOctets(units[1..])
  }

  // ---------------------------------------------------------------- one escape

  lemma FromHexIs(c: char, d: nat, capital: bool)
    requires d < 16 && c == HexDigit(d, capital)
    ensures IsHex(c) && FromHex(c) == d
  {
  }

  lemma HexIs(c: char)
    requires IsHex(c)
    ensures c == HexDigit(FromHex(c), 'A' <= c <= 'F')
  {
  }

  lemma FourDigits(n: nat, capitals: seq<bool>, k: nat, l: nat, m: nat)
    requires |capitals| == 4 && m == n / 16 && l == m / 16 && k == l / 16 < 16
    ensures Hexadecimal(n, capitals) ==
      [HexDigit(k, capitals[0]), HexDigit(l % 16, capitals[1]), HexDigit(m % 16, capitals[2]),
       HexDigit(n % 16, capitals[3])]
  {
    hide HexDigit, Hexadecimal;
    var three, two, one := capitals[..3], capitals[..2], capitals[..1];
    assert three[..2] == two && two[..1] == one && one[..0] == [];
    LastDigit(n, capitals, m, three);
    LastDigit(m, three, l, two);
    LastDigit(l, two, k, one);
    LastDigit(k, one, 0, []);
    NoDigit(0);
  }

  lemma LastDigit(n: nat, capitals: seq<bool>, m: nat, front: seq<bool>)
    requires capitals != [] && m == n / 16 && front == capitals[..|capitals| - 1]
    ensures Hexadecimal(n, capitals) == Hexadecimal(m, front) + [HexDigit(n % 16, capitals[|capitals| - 1])]
  {
    hide HexDigit;
  }

  lemma NoDigit(n: nat)
    ensures Hexadecimal(n, []) == ""
  {
  }

  lemma Sixteenths(n: nat)
    requires n < 0x10000
    ensures n / 16 / 16 == n / 0x100 && n / 0x100 / 16 == n / 0x1000 < 16
  {
  }

  /** The digits of a code are read as the code. */
  lemma CodeIsRead(raw: string, at: nat, code: nat, capitals: seq<bool>)
    requires code < 0x10000 && |capitals| == 4 && at + 4 <= |raw|
    requires raw[at..at + 4] == Hexadecimal(code, capitals)
    ensures HexAt(raw, at) && Code(raw, at) == code
  {
    hide HexDigit, FromHex, IsHex, Hexadecimal;
    Sixteenths(code);
    FourDigits(code, capitals, code / 0x1000, code / 0x100, code / 16);
    var digits := raw[at..at + 4];
    assert digits[0] == raw[at] && digits[1] == raw[at + 1] && digits[2] == raw[at + 2] && digits[3] == raw[at + 3];
    FromHexIs(raw[at], code / 0x1000, capitals[0]);
    FromHexIs(raw[at + 1], code / 0x100 % 16, capitals[1]);
    FromHexIs(raw[at + 2], code / 16 % 16, capitals[2]);
    FromHexIs(raw[at + 3], code % 16, capitals[3]);
    FourParts(code);
  }

  lemma FourParts(code: nat)
    requires code < 0x10000
    ensures code / 0x1000 * 0x1000 + code / 0x100 % 16 * 0x100 + code / 16 % 16 * 0x10 + code % 16 == code
  {
    assert code / 16 / 16 == code / 0x100 && code / 0x100 / 16 == code / 0x1000;
  }

  /** And the digits that are read are those of the code. */
  lemma CodeIsWritten(raw: string, at: nat) returns (capitals: seq<bool>)
    requires at + 4 <= |raw| && HexAt(raw, at)
    ensures |capitals| == 4 && raw[at..at + 4] == Hexadecimal(Code(raw, at), capitals)
  {
    hide HexDigit, FromHex, Hexadecimal;
    var a, b, c, d := raw[at], raw[at + 1], raw[at + 2], raw[at + 3];
    capitals := ['A' <= a <= 'F', 'A' <= b <= 'F', 'A' <= c <= 'F', 'A' <= d <= 'F'];
    HexIs(a);
    HexIs(b);
    HexIs(c);
    HexIs(d);
    PartsOf(FromHex(a), FromHex(b), FromHex(c), FromHex(d));
    var code := Code(raw, at);
    FourDigits(code, capitals, code / 0x1000, code / 0x100, code / 16);
    assert raw[at..at + 4] == [a, b, c, d];
  }

  lemma PartsOf(a: nat, b: nat, c: nat, d: nat)
    requires a < 16 && b < 16 && c < 16 && d < 16
    ensures var n := a * 0x1000 + b * 0x100 + c * 0x10 + d;
      n / 0x1000 == a && n / 0x100 % 16 == b && n / 16 % 16 == c && n % 16 == d
      && n / 16 / 16 == n / 0x100 && n / 0x100 / 16 == n / 0x1000
  {
    var n := a * 0x1000 + b * 0x100 + c * 0x10 + d;
    assert n / 16 == a * 0x100 + b * 0x10 + c && n / 0x100 == a * 0x10 + b;
  }

  // ---------------------------------------------------------------- whole strings

  /** What the loop accepts consists of units, and is read as their octets. */
  lemma {:induction false} UnitsOf(text: string, pos: nat, escaped: bool) returns (units: seq<Unit>)
    requires pos <= |text| && Scan(text, pos, escaped).Some?
    ensures var end := Scan(text, pos, escaped).value.0;
      && AreUnits(units) && text[pos..end] == UnitsText(units)
      && WellEscaped(text[pos..end]) && Unescape(text[pos..end]) == UnitsOctets(units)
    decreases |text| - pos
  {
    hide Scan, UnitText, UnitOctets, IsUnit, WellEscaped, Unescape;
    var end := Scan(text, pos, escaped).value.0;
    if At(text, pos) == '"' {
      units := [];
      NothingScanned(text, pos, escaped);
    } else {
      var u, next, scanned := UnitAt(text, pos, escaped);
      var more := UnitsOf(text, next, scanned);
      assert text[pos..end] == text[pos..next] + text[next..end];
      UnitFirst(u, more, text[pos..end], next - pos);
      units := [u] + more;
    }
  }

  lemma NothingScanned(text: string, pos: nat, escaped: bool)
    requires pos <= |text| && At(text, pos) == '"'
    ensures Scan(text, pos, escaped) == Some((pos, escaped))
    ensures WellEscaped(text[pos..pos]) && Unescape(text[pos..pos]) == "" == text[pos..pos]
  {
  }

  /** The unit that the loop takes next. */
  lemma UnitAt(text: string, pos: nat, escaped: bool) returns (u: Unit, next: nat, then_: bool)
    requires pos <= |text| && Scan(text, pos, escaped).Some? && At(text, pos) != '"'
    ensures IsUnit(u) && pos < next <= |text| && text[pos..next] == UnitText(u)
    ensures Scan(text, next, then_) == Scan(text, pos, escaped) && next <= Scan(text, pos, escaped).value.0
  {
    hide IsHex, Code, Hexadecimal, Letter;
    var c := text[pos];
    then_ := c == '\\' || escaped;
    if c != '\\' {
      u, next := Plain(c), pos + 1;
    } else if text[pos + 1] == 'u' {
      var capitals := CodeIsWritten(text, pos + 2);
      next := pos + 6;
      u := Unicode(Code(text, pos + 2), capitals);
      assert text[pos..next] == ['\\', 'u'] + text[pos + 2..next];
    } else {
      next := pos + 2;
      u := ShortOf(text[pos + 1]);
      assert text[pos..next] == ['\\', text[pos + 1]];
    }
  }

  lemma ShortOf(letter: char) returns (u: Unit)
    requires letter in "\"\\/bfnrt"
    ensures u.Short? && u.letter == letter && IsUnit(u) && Letter(letter) == [u.c]
  {
    u := Short(letter, Letter(letter)[0]);
  }

  /** A unit in front of others. */
  lemma UnitFirst(u: Unit, more: seq<Unit>, raw: string, k: nat)
    requires IsUnit(u) && AreUnits(more) && k <= |raw| && raw[..k] == UnitText(u) && WellEscaped(raw[k..])
    requires raw[k..] == UnitsText(more) && Unescape(raw[k..]) == UnitsOctets(more)
    ensures AreUnits([u] + more) && raw == UnitsText([u] + more)
    ensures WellEscaped(raw) && Unescape(raw) == UnitsOctets([u] + more)
  {
    hide Hexadecimal, Utf8, Code, HexAt, UnitText, UnitOctets, WellEscaped, Unescape;
    assert ([u] + more)[1..] == more && raw == raw[..k] + raw[k..];
    UnitLength(u);
    assert k == |UnitText(u)|;
    match u {
      case Plain(_) => PlainFirst(u, raw);
      case Short(_, _) => ShortFirst(u, raw);
      case Unicode(_, _) => UnicodeFirst(u, raw);
    }
  }

  lemma UnitLength(u: Unit)
    requires IsUnit(u)
    ensures |UnitText(u)| == match u case Plain(_) => 1 case Short(_, _) => 2 case Unicode(_, _) => 6
  {
  }

  lemma ShortIs(u: Unit)
    requires IsUnit(u) && u.Short?
    ensures Letter(u.letter) == [u.c] == UnitOctets(u) && u.letter in "\"\\/bfnrt" && u.letter != 'u'
  {
  }

  lemma PlainFirst(u: Unit, raw: string)
    requires IsUnit(u) && u.Plain? && raw != "" && raw[..1] == UnitText(u) && WellEscaped(raw[1..])
    ensures |UnitText(u)| == 1 && WellEscaped(raw) && Unescape(raw) == UnitOctets(u) + Unescape(raw[1..])
  {
    assert raw[0] == raw[..1][0];
  }

  lemma ShortFirst(u: Unit, raw: string)
    requires IsUnit(u) && u.Short? && |raw| >= 2 && raw[..2] == UnitText(u) && WellEscaped(raw[2..])
    ensures |UnitText(u)| == 2 && WellEscaped(raw) && Unescape(raw) == UnitOctets(u) + Unescape(raw[2..])
  {
    hide Letter, IsUnit, UnitOctets;
    ShortIs(u);
    assert raw[0] == raw[..2][0] == '\\' && raw[1] == raw[..2][1] == u.letter;
  }

  lemma UnicodeFirst(u: Unit, raw: string)
    requires IsUnit(u) && u.Unicode? && |raw| >= 6 && raw[..6] == UnitText(u) && WellEscaped(raw[6..])
    ensures |UnitText(u)| == 6 && WellEscaped(raw) && Unescape(raw) == UnitOctets(u) + Unescape(raw[6..])
  {
    hide Hexadecimal, Utf8, HexAt, Code;
    assert raw[0] == raw[..6][0] && raw[1] == raw[..6][1];
    assert raw[2..6] == raw[..6][2..] == Hexadecimal(u.code, u.capitals);
    CodeIsRead(raw, 2, u.code, u.capitals);
  }

  /** Units are scanned to their end, whatever is behind the quote. */
  lemma {:induction false} UnitsScan(text: string, pos: nat, escaped: bool, units: seq<Unit>)
    requires AreUnits(units) && pos + |UnitsText(units)| < |text|
    requires text[pos..pos + |UnitsText(units)|] == UnitsText(units) && text[pos + |UnitsText(units)|] == '"'
    ensures Scan(text, pos, escaped).Some? && Scan(text, pos, escaped).value.0 == pos + |UnitsText(units)|
    ensures WellEscaped(UnitsText(units)) && Unescape(UnitsText(units)) == UnitsOctets(units)
    decreases |units|
  {
    hide Scan, UnitText, UnitOctets, IsUnit, WellEscaped, Unescape;
    if units == [] {
      NothingScanned(text, pos, escaped);
      assert text[pos..pos] == "";
    } else {
      var u, more, raw := units[0], units[1..], UnitsText(units);
      var next := pos + |UnitText(u)|;
      assert [u] + more == units;
      assert raw[..|UnitText(u)|] == UnitText(u) && raw[|UnitText(u)|..] == UnitsText(more);
      assert text[pos..next] == text[pos..pos + |raw|][..|UnitText(u)|];
      assert text[next..next + |UnitsText(more)|] == text[pos..pos + |raw|][|UnitText(u)|..];
      var scanned := UnitScans(text, pos, escaped, u);
      UnitsScan(text, next, scanned, more);
      UnitFirst(u, more, raw, |UnitText(u)|);
    }
  }

  /** The loop takes a unit. */
  lemma UnitScans(text: string, pos: nat, escaped: bool, u: Unit) returns (then_: bool)
    requires IsUnit(u) && pos + |UnitText(u)| <= |text| && text[pos..pos + |UnitText(u)|] == UnitText(u)
    ensures Scan(text, pos, escaped) == Scan(text, pos + |UnitText(u)|, then_)
  {
    hide IsHex, Code, Hexadecimal;
    var unit := UnitText(u);
    assert text[pos] == text[pos..pos + |unit|][0];
    then_ := !u.Plain? || escaped;
    match u {
      case Plain(_) =>
      case Short(_, _) => assert text[pos + 1] == text[pos..pos + |unit|][1];
      case Unicode(code, capitals) =>
        assert text[pos + 1] == text[pos..pos + |unit|][1];
        assert text[pos + 2..pos + 6] == text[pos..pos + |unit|][2..] == Hexadecimal(code, capitals);
        CodeIsRead(text, pos + 2, code, capitals);
    }
  }

  /**
    A string is read, as these octets and up to this place, if and only if that much of the text is two
    quotes around characters and escapes that stand for the octets.
   */
  lemma StringMeans(text: string, pos: nat, s: string, end: nat)
    requires pos <= |text|
    ensures DecodeString(text, pos) == Ok(s, end) <==>
      pos < end <= |text| && exists units ::
        AreUnits(units) && text[pos..end] == "\"" + (UnitsText(units) + "\"") && s == UnitsOctets(units)
  {
    hide Scan, AreUnits, UnitsText, UnitsOctets, Unescape, WellEscaped;
    if DecodeString(text, pos) == Ok(s, end) {
      ScanIsWell(text, pos + 1, false);
      QuoteAtEnd(text, pos + 1, false);
      var units := UnitsOf(text, pos + 1, false);
      QuotedIff(text, pos, end, UnitsText(units));
    }
    if pos < end <= |text| {
      if units :| AreUnits(units) && text[pos..end] == "\"" + (UnitsText(units) + "\"") && s == UnitsOctets(units) {
        QuotedIff(text, pos, end, UnitsText(units));
        UnitsScan(text, pos + 1, false, units);
      }
    }
  }

  lemma SliceOfSlice(s: string, a: nat, b: nat, i: nat, j: nat)
    requires a <= b <= |s| && i <= j <= b - a
    ensures s[a..b][i..j] == s[a + i..a + j]
  {
    var inner := s[a..b];
    assert forall k :: i <= k < j ==> inner[k] == s[a + k];
  }

  lemma QuotedIff(text: string, pos: nat, end: nat, raw: string)
    requires pos < end <= |text|
    ensures text[pos..end] == "\"" + (raw + "\"") <==>
      end == pos + |raw| + 2 && text[pos] == '"' && text[pos + 1..end - 1] == raw && text[end - 1] == '"'
  {
    var all, quoted := text[pos..end], "\"" + (raw + "\"");
    if all == quoted {
      assert |all| == |raw| + 2 && quoted[0] == '"' && quoted[|raw| + 1] == '"' && quoted[1..|raw| + 1] == raw;
      assert end == pos + |raw| + 2 && all[0] == text[pos] && all[|raw| + 1] == text[end - 1];
      SliceOfSlice(text, pos, end, 1, |raw| + 1);
    }
    if end == pos + |raw| + 2 && text[pos] == '"' && text[pos + 1..end - 1] == raw && text[end - 1] == '"' {
      assert all == [text[pos]] + (text[pos + 1..end - 1] + [text[end - 1]]);
    }
  }

  lemma {:induction false} QuoteAtEnd(text: string, pos: nat, escaped: bool)
    requires pos <= |text| && Scan(text, pos, escaped).Some?
    ensures text[Scan(text, pos, escaped).value.0] == '"'
    decreases |text| - pos
  {
    hide Scan, IsUnit, UnitText;
    if At(text, pos) == '"' {
      NothingScanned(text, pos, escaped);
    } else {
      var u, next, scanned := UnitAt(text, pos, escaped);
      QuoteAtEnd(text, next, scanned);
    }
  }
}
