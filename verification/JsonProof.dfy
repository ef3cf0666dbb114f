/**
  Loading what was dumped, in `3rdparty/crow/json.h` (RFC 8259): the value comes back, for every string
  of octets and every style of white space, exactly if it is not nested too deep.
 */
module JsonProof {
  import opened Wrappers
  import opened JsonSpec

  // ---------------------------------------------------------------- texts

  /** The text has `s` at `pos`. */
  predicate Has(text: string, pos: nat, s: string) {
    pos + |s| <= |text| && text[pos..pos + |s|] == s
  }

  lemma HasBoth(text: string, pos: nat, a: string, b: string)
    ensures Has(text, pos, a + b) <==> Has(text, pos, a) && Has(text, pos + |a|, b)
  {
    if Has(text, pos, a + b) {
      assert text[pos..pos + |a|] == (a + b)[..|a|];
      assert text[pos + |a|..pos + |a| + |b|] == (a + b)[|a|..];
    }
    if Has(text, pos, a) && Has(text, pos + |a|, b) {
      assert text[pos..pos + |a + b|] == text[pos..pos + |a|] + text[pos + |a|..pos + |a| + |b|];
    }
  }

  lemma HasAt(text: string, pos: nat, s: string, i: nat)
    requires Has(text, pos, s) && i < |s|
    ensures At(text, pos + i) == s[i] && pos + |s| <= |text|
  {
    assert text[pos..pos + |s|][i] == s[i];
  }

  // ---------------------------------------------------------------- strings

  lemma EscapeNeedsNoMore(c: char)
    ensures |EscapeChar(c)| == 1 ==> EscapeChar(c) == [c] && c != '"' && c != '\\' && c != '\0'
    ensures |EscapeChar(c)| == 2 ==> EscapeChar(c)[0] == '\\' && EscapeChar(c)[1] in "\"\\/bfnrt"
                                     && Letter(EscapeChar(c)[1]) == [c]
    ensures |EscapeChar(c)| == 1 || |EscapeChar(c)| == 2 || |EscapeChar(c)| == 6
    ensures |EscapeChar(c)| == 6 ==> EscapeChar(c)[0] == '\\' && EscapeChar(c)[1] == 'u' && HexAt(EscapeChar(c), 2)
    ensures |EscapeChar(c)| == 6 ==> Utf8(Code(EscapeChar(c), 2)) == [c]
  {
    if |EscapeChar(c)| > 2 {
      HexReads(c as int / 16);
      HexReads(c as int % 16);
      assert IsHex('0') && FromHex('0') == 0;
      assert EscapeChar(c) == ['\\', 'u', '0', '0', ToHex(c as int / 16), ToHex(c as int % 16)];
      assert Code(EscapeChar(c), 2) == c as int;
    }
  }

  lemma HexReads(n: nat)
    requires n < 16
    ensures IsHex(ToHex(n)) && FromHex(ToHex(n)) == n
  {
  }

  /** Unescaping undoes escaping, for every string: control characters and zero included. */
  lemma {:induction false} UnescapeEscape(s: string)
    ensures WellEscaped(Escape(s)) && Unescape(Escape(s)) == s
  {
    if s != "" {
      var e, rest := EscapeChar(s[0]), Escape(s[1..]);
      UnescapeEscape(s[1..]);
      EscapeNeedsNoMore(s[0]);
      var raw := e + rest;
      assert raw[|e|..] == rest;
      if |e| == 6 {
        assert HexAt(raw, 2) && Code(raw, 2) == Code(e, 2);
      }
    }
  }

  /** The reader passes over an escaped character. */
  lemma ScanChar(text: string, pos: nat, escaped: bool, c: char)
    requires Has(text, pos, EscapeChar(c))
    ensures Scan(text, pos, escaped) == Scan(text, pos + |EscapeChar(c)|, escaped || |EscapeChar(c)| > 1)
  {
    var e := EscapeChar(c);
    EscapeNeedsNoMore(c);
    HasAt(text, pos, e, 0);
    if |e| > 1 {
      HasAt(text, pos, e, 1);
    }
    if |e| == 6 {
      HasAt(text, pos, e, 2);
      HasAt(text, pos, e, 3);
      HasAt(text, pos, e, 4);
      HasAt(text, pos, e, 5);
    }
  }

  lemma {:induction false} ScanEscaped(text: string, pos: nat, escaped: bool, s: string)
    requires Has(text, pos, Escape(s)) && At(text, pos + |Escape(s)|) == '"'
    ensures Scan(text, pos, escaped).Some? && Scan(text, pos, escaped).value.0 == pos + |Escape(s)|
    decreases |s|
  {
    hide EscapeChar, Scan, Has;
    if s == "" {
      ScanQuote(text, pos, escaped);
    } else {
      var e, rest := EscapeChar(s[0]), Escape(s[1..]);
      HasBoth(text, pos, e, rest);
      ScanChar(text, pos, escaped, s[0]);
      ScanEscaped(text, pos + |e|, escaped || |e| > 1, s[1..]);
    }
  }

  lemma ScanQuote(text: string, pos: nat, escaped: bool)
    requires At(text, pos) == '"'
    ensures pos < |text| && Scan(text, pos, escaped) == Some((pos, escaped))
  {
  }

  /** A dumped string is read as the string. */
  lemma StringReads(text: string, pos: nat, s: string)
    requires Has(text, pos, DumpString(s))
    ensures DecodeString(text, pos) == Ok(s, pos + |DumpString(s)|)
  {
    hide Escape, Unescape, WellEscaped, Scan, Has, DumpString, DecodeString;
    var e := Escape(s);
    DumpStringParts(s);
    HasBoth(text, pos, "\"", e + "\"");
    HasBoth(text, pos + 1, e, "\"");
    HasAt(text, pos, "\"", 0);
    HasAt(text, pos + 1 + |e|, "\"", 0);
    HasText(text, pos + 1, e);
    ScanEscaped(text, pos + 1, false, s);
    UnescapeEscape(s);
    QuotesRead(text, pos, e);
  }

  lemma DumpStringParts(s: string)
    ensures DumpString(s) == "\"" + (Escape(s) + "\"")
  {
  }

  lemma HasText(text: string, pos: nat, s: string)
    requires Has(text, pos, s)
    ensures pos + |s| <= |text| && text[pos..pos + |s|] == s
  {
  }

  lemma QuotesRead(text: string, pos: nat, raw: string)
    requires pos + 1 + |raw| <= |text| && At(text, pos) == '"' && text[pos + 1..pos + 1 + |raw|] == raw
    requires Scan(text, pos + 1, false).Some? && Scan(text, pos + 1, false).value.0 == pos + 1 + |raw|
    requires WellEscaped(raw)
    ensures DecodeString(text, pos) == Ok(Unescape(raw), pos + |raw| + 2)
  {
  }

  // ---------------------------------------------------------------- numbers

  function Digit(n: nat): char
    requires n < 10
  {
    '0' + n as char
  }

  /** `std::to_string`. */
  function Natural(n: nat): (s: string)
    ensures s != ""
  {
    if n < 10 then [Digit(n)] else Natural(n / 10) + [Digit(n % 10)]
  }

  function Decimal(n: int): (s: string)
    ensures s != ""
  {
    if n < 0 then "-" + Natural(0 - n) else Natural(n)
  }

  /** The value of digits. */
  function NaturalOf(s: string): nat {
    if s == "" then 0
    else NaturalOf(s[..|s| - 1]) * 10 + if '0' <= s[|s| - 1] <= '9' then s[|s| - 1] as int - '0' as int else 0
  }

  function IntegerOf(s: string): int {
    if s != "" && s[0] == '-' then 0 - NaturalOf(s[1..]) else NaturalOf(s)
  }

  lemma {:induction false} NaturalReadsBack(n: nat)
    ensures NaturalOf(Natural(n)) == n
    ensures '0' <= Natural(n)[0] <= '9' && (Natural(n)[0] == '0' ==> n == 0)
    ensures forall i :: 0 <= i < |Natural(n)| ==> '0' <= Natural(n)[i] <= '9'
  {
    var s := Natural(n);
    if n < 10 {
      assert s[..0] == "";
    } else {
      NaturalReadsBack(n / 10);
      assert s[..|s| - 1] == Natural(n / 10);
    }
  }

  /** Printing an integer and reading it gives the integer. */
  lemma DecimalReadsBack(n: int)
    ensures IntegerOf(Decimal(n)) == n
  {
    if n < 0 {
      NaturalReadsBack(0 - n);
      assert Decimal(n)[1..] == Natural(0 - n);
    } else {
      NaturalReadsBack(n);
    }
  }

  lemma {:induction false} DigitsRun(text: string, pos: nat, s: string)
    requires Has(text, pos, s) && !NumberChar(At(text, pos + |s|))
    requires forall i :: 0 <= i < |s| ==> '0' <= s[i] <= '9'
    ensures NumberFrom(text, pos, DIGITS) == Some(pos + |s|)
    decreases |s|
  {
    if s != "" {
      assert s == [s[0]] + s[1..];
      HasBoth(text, pos, [s[0]], s[1..]);
      HasAt(text, pos, s, 0);
      DigitsRun(text, pos + 1, s[1..]);
    }
  }

  lemma NaturalRuns(text: string, pos: nat, n: nat, state: NumberState)
    requires Has(text, pos, Natural(n)) && !NumberChar(At(text, pos + |Natural(n)|))
    requires state == MINUS || state == AFTER_MINUS
    ensures NumberFrom(text, pos, state) == Some(pos + |Natural(n)|)
  {
    hide Natural, NumberFrom, Has;
    var s := Natural(n);
    NaturalReadsBack(n);
    HasAt(text, pos, s, 0);
    FirstDigitRuns(text, pos, state);
    if n == 0 {
      ZeroRuns(text, pos);
    } else {
      assert s == [s[0]] + s[1..];
      HasBoth(text, pos, [s[0]], s[1..]);
      DigitsRun(text, pos + 1, s[1..]);
    }
  }

  lemma FirstDigitRuns(text: string, pos: nat, state: NumberState)
    requires (state == MINUS || state == AFTER_MINUS) && pos < |text| && '0' <= text[pos] <= '9'
    ensures NumberFrom(text, pos, state) ==
            NumberFrom(text, pos + 1, if text[pos] == '0' then ZERO_FIRST else DIGITS)
  {
  }

  lemma ZeroRuns(text: string, pos: nat)
    ensures Natural(0) == "0"
    ensures pos < |text| && !NumberChar(At(text, pos + 1)) ==> NumberFrom(text, pos + 1, ZERO_FIRST) == Some(pos + 1)
  {
  }

  /** A printed integer is read up to the character that can be no part of a number. */
  lemma IntegerRuns(text: string, pos: nat, n: int)
    requires Has(text, pos, Decimal(n)) && !NumberChar(At(text, pos + |Decimal(n)|))
    ensures NumberFrom(text, pos, MINUS) == Some(pos + |Decimal(n)|)
  {
    if n < 0 {
      HasBoth(text, pos, "-", Natural(0 - n));
      HasAt(text, pos, "-", 0);
      NaturalRuns(text, pos + 1, 0 - n, AFTER_MINUS);
    } else {
      NaturalRuns(text, pos, n, MINUS);
    }
  }

  // ---------------------------------------------------------------- white space

  /** White space as the separator, or no white space at all. */
  predicate Spaced(style: Style) {
    style.indent >= 0 ==> White(style.separator)
  }

  predicate Blank(s: string) {
    forall i :: 0 <= i < |s| ==> White(s[i])
  }

  lemma {:induction false} SkipWhite(text: string, pos: nat, s: string)
    requires Has(text, pos, s) && Blank(s) && !White(At(text, pos + |s|))
    ensures Skip(text, pos) == pos + |s|
    decreases |s|
  {
    if s != "" {
      assert s == [s[0]] + s[1..];
      HasBoth(text, pos, [s[0]], s[1..]);
      HasAt(text, pos, s, 0);
      SkipWhite(text, pos + 1, s[1..]);
    }
  }

  lemma SkipBreak(text: string, pos: nat, style: Style, level: nat)
    requires Spaced(style) && Has(text, pos, Break(style, level)) && !White(At(text, pos + |Break(style, level)|))
    ensures Skip(text, pos) == pos + |Break(style, level)|
  {
    SkipWhite(text, pos, Break(style, level));
  }

  // ---------------------------------------------------------------- values

  /** Every number is a printed integer. */
  predicate Integers(v: Json)
    decreases v
  {
    match v
    case Number(text) => text == Decimal(IntegerOf(text))
    case List(items) => forall i :: 0 <= i < |items| ==> Integers(items[i])
    case Object(fields) => forall i :: 0 <= i < |fields| ==> Integers(fields[i].value)
    case _ => true
  }

  /** How deep lists and objects lie in one another. */
  function Depth(v: Json): nat
    decreases v
  {
    match v
    case List(items) => DepthOfItems(items) + 1
    case Object(fields) => DepthOfFields(fields) + 1
    case _ => 0
  }

  function Max(a: nat, b: nat): nat {
    if a < b then b else a
  }

  function DepthOfItems(items: seq<Json>): nat
    decreases items
  {
    if items == [] then 0 else Max(Depth(items[0]), DepthOfItems(items[1..]))
  }

  function DepthOfFields(fields: seq<Field>): nat
    decreases fields
  {
    if fields == [] then 0 else Max(DepthOfField(fields[0]), DepthOfFields(fields[1..]))
  }

  function DepthOfField(field: Field): nat
    decreases field
  {
    Depth(field.value)
  }

  /** The depth counter goes up by two for every list or object. */
  predicate Fits(depth: nat, nesting: nat) {
    nesting == 0 || depth + 2 * nesting <= MAX_DEPTH + 1
  }

  lemma FirstChar(v: Json, style: Style, level: nat)
    requires Integers(v)
    ensures Dump(v, style, level) != ""
    ensures var c := Dump(v, style, level)[0]; !White(c) && c != ']' && c != '}'
  {
    if v.Number? {
      DecimalFirst(IntegerOf(v.text));
    }
  }

  lemma {:induction false} ValueReads(v: Json, style: Style, level: nat, text: string, pos: nat, depth: nat)
    requires Spaced(style) && Integers(v) && Has(text, pos, Dump(v, style, level))
    requires !NumberChar(At(text, pos + |Dump(v, style, level)|))
    ensures DecodeValue(text, pos, depth) ==
            if Fits(depth, Depth(v)) then Ok(v, pos + |Dump(v, style, level)|) else Bad
    decreases v, 0
  {
    hide Dump, Has, DumpString, DecodeString, DecodeValue, DecodeList, DecodeObject, Depth, Decimal, IntegerOf;
    ValueParts(v, style, level);
    match v {
      case Number(n) =>
        NumberReads(n, text, pos, depth);
      case Str(s) =>
        StringReads(text, pos, s);
        QuoteReads(text, pos, depth);
      case List(items) =>
        ListReads(items, style, level, text, pos, depth + 1);
        FitsInside(depth, DepthOfItems(items));
        BracketReads(text, pos, depth);
      case Object(fields) =>
        ObjectReads(fields, style, level, text, pos, depth + 1);
        FitsInside(depth, DepthOfFields(fields));
        BracketReads(text, pos, depth);
      case _ =>
        WordReads(v, text, pos, depth);
    }
  }

  lemma ValueParts(v: Json, style: Style, level: nat)
    ensures v.List? ==> Depth(v) == DepthOfItems(v.items) + 1
    ensures v.Object? ==> Depth(v) == DepthOfFields(v.fields) + 1
    ensures !v.List? && !v.Object? ==> Depth(v) == 0
    ensures v.Str? ==> Dump(v, style, level) == DumpString(v.s)
    ensures v.Number? ==> Dump(v, style, level) == v.text
    ensures v.Null? || v.True? || v.False? ==> Dump(v, style, level) == Dump(v, COMPACT, 0)
  {
  }

  lemma BracketReads(text: string, pos: nat, depth: nat)
    requires pos < |text|
    ensures At(text, pos) == '[' ==> DecodeValue(text, pos, depth) == DecodeList(text, pos, depth + 1)
    ensures At(text, pos) == '{' ==> DecodeValue(text, pos, depth) == DecodeObject(text, pos, depth + 1)
  {
  }

  lemma FitsInside(depth: nat, nesting: nat)
    ensures Fits(depth, nesting + 1) <==> depth + 1 <= MAX_DEPTH && Fits(depth + 2, nesting)
  {
  }

  lemma WordReads(v: Json, text: string, pos: nat, depth: nat)
    requires v == Null || v == True || v == False
    requires Has(text, pos, Dump(v, COMPACT, 0))
    ensures DecodeValue(text, pos, depth) == Ok(v, pos + |Dump(v, COMPACT, 0)|)
  {
    var word := Dump(v, COMPACT, 0);
    HasAt(text, pos, word, 0);
    assert Word(text, pos, word);
  }

  lemma NumberReads(n: string, text: string, pos: nat, depth: nat)
    requires n == Decimal(IntegerOf(n)) && Has(text, pos, n) && !NumberChar(At(text, pos + |n|))
    ensures DecodeValue(text, pos, depth) == Ok(Number(n), pos + |n|)
  {
    hide Decimal, IntegerOf, NumberFrom, DecodeValue;
    IntegerRuns(text, pos, IntegerOf(n));
    DecimalFirst(IntegerOf(n));
    HasAt(text, pos, n, 0);
    DigitReads(text, pos, depth);
  }

  lemma DigitReads(text: string, pos: nat, depth: nat)
    requires pos <= |text| && NumberChar(At(text, pos)) && NumberFrom(text, pos, MINUS).Some?
    ensures var end := NumberFrom(text, pos, MINUS).value;
      DecodeValue(text, pos, depth) == Ok(Number(text[pos..end]), end)
  {
  }

  lemma DecimalFirst(n: int)
    ensures NumberChar(Decimal(n)[0])
  {
    NaturalReadsBack(if n < 0 then 0 - n else n);
  }

  lemma QuoteReads(text: string, pos: nat, depth: nat)
    requires pos <= |text| && DecodeString(text, pos).Ok?
    ensures DecodeValue(text, pos, depth) == Ok(Str(DecodeString(text, pos).value), DecodeString(text, pos).pos)
  {
  }

  // ---------------------------------------------------------------- lists and objects

  /** The parts of a bracketed text. */
  lemma Parts(text: string, pos: nat, open: string, a: string, inner: string, b: string, end: string)
    requires Has(text, pos, open + (a + (inner + (b + end))))
    ensures Has(text, pos, open) && Has(text, pos + |open|, a) && Has(text, pos + |open| + |a|, inner)
    ensures Has(text, pos + |open| + |a| + |inner|, b) && Has(text, pos + |open| + |a| + |inner| + |b|, end)
  {
    hide Has;
    HasBoth(text, pos, open, a + (inner + (b + end)));
    HasBoth(text, pos + |open|, a, inner + (b + end));
    HasBoth(text, pos + |open| + |a|, inner, b + end);
    HasBoth(text, pos + |open| + |a| + |inner|, b, end);
  }

  /** White space around something that is not white. */
  lemma Skips(text: string, pos: nat, a: string, inner: string, b: string, close: nat)
    requires Blank(a) && Blank(b) && (inner != "" ==> !White(inner[0]))
    requires Has(text, pos, a) && Has(text, pos + |a|, inner) && Has(text, pos + |a| + |inner|, b)
    requires close == pos + |a| + |inner| + |b| && !White(At(text, close))
    ensures Skip(text, pos + |a| + |inner|) == close
    ensures Skip(text, pos) == if inner == "" then close else pos + |a|
  {
    assert inner == "" ==> Blank(a + b);
    hide Skip, Has, Blank;
    SkipWhite(text, pos + |a| + |inner|, b);
    if inner == "" {
      HasBoth(text, pos, a, b);
      SkipWhite(text, pos, a + b);
    } else {
      HasAt(text, pos + |a|, inner, 0);
      SkipWhite(text, pos, a);
    }
  }

  /** The positions in a bracketed text, and what is skipped there: `first` is its inside, `close` its end. */
  lemma Bracketed(text: string, pos: nat, open: string, style: Style, level: nat, inner: string, end: string)
    returns (first: nat, close: nat)
    requires |open| == |end| == 1 && Spaced(style) && !White(end[0]) && !NumberChar(end[0])
    requires inner != "" ==> !White(inner[0])
    requires Has(text, pos, open + (Break(style, level + 1) + (inner + (Break(style, level) + end))))
    ensures At(text, pos) == open[0] && pos < |text| && first <= close < |text|
    ensures first == pos + 1 + |Break(style, level + 1)| && close == first + |inner| + |Break(style, level)|
    ensures Has(text, first, inner) && At(text, close) == end[0]
    ensures Skip(text, first + |inner|) == close && !NumberChar(At(text, first + |inner|))
    ensures Skip(text, pos + 1) == if inner == "" then close else first
  {
    var a, b := Break(style, level + 1), Break(style, level);
    BreakIsWhite(style, level + 1);
    BreakIsWhite(style, level);
    assert b != "" ==> b[0] == NL;
    hide Break, Skip, Has, Blank;
    Parts(text, pos, open, a, inner, b, end);
    first := pos + 1 + |a|;
    close := first + |inner| + |b|;
    HasAt(text, pos, open, 0);
    HasAt(text, close, end, 0);
    Skips(text, pos + 1, a, inner, b, close);
    if b != "" {
      HasAt(text, first + |inner|, b, 0);
    }
  }

  lemma BreakIsWhite(style: Style, level: nat)
    requires Spaced(style)
    ensures Blank(Break(style, level))
  {
  }

  /** Between two entries: a comma, and the white space behind it. */
  lemma CommaReads(text: string, pos: nat, style: Style, level: nat, more: string)
    requires Spaced(style) && more != "" && !White(more[0])
    requires Has(text, pos, "," + (Break(style, level) + more))
    ensures At(text, pos) == ',' && pos < |text| && Skip(text, pos) == pos
    ensures Skip(text, pos + 1) == pos + 1 + |Break(style, level)|
    ensures Has(text, pos + 1 + |Break(style, level)|, more)
  {
    var b := Break(style, level);
    BreakIsWhite(style, level);
    hide Break, Skip, Has, Blank;
    HasBoth(text, pos, ",", b + more);
    HasBoth(text, pos + 1, b, more);
    HasAt(text, pos, ",", 0);
    HasAt(text, pos + 1 + |b|, more, 0);
    SkipWhite(text, pos + 1, b);
    SkipNothing(text, pos);
  }

  lemma SkipNothing(text: string, pos: nat)
    requires pos <= |text| && !White(At(text, pos))
    ensures Skip(text, pos) == pos
  {
  }

  lemma {:induction false} ListReads(items: seq<Json>, style: Style, level: nat, text: string, pos: nat, depth: nat)
    requires Spaced(style) && (forall i :: 0 <= i < |items| ==> Integers(items[i]))
    requires Has(text, pos, Dump(List(items), style, level))
    ensures pos < |text| && At(text, pos) == '['
    ensures DecodeList(text, pos, depth) ==
            if depth <= MAX_DEPTH && Fits(depth + 1, DepthOfItems(items))
            then Ok(List(items), pos + |Dump(List(items), style, level)|) else Bad
    decreases items, 2
  {
    hide Dump, DumpItems, Has, Break, Skip, DecodeItems;
    var inner := DumpItems(items, style, level + 1);
    ItemsBegin(items, style, level + 1);
    ListParts(items, style, level);
    var first, close := Bracketed(text, pos, "[", style, level, inner, "]");
    if items != [] {
      HasAt(text, first, inner, 0);
      ItemsRead(items, style, level + 1, text, first, depth, close);
    }
  }

  lemma ListParts(items: seq<Json>, style: Style, level: nat)
    ensures Dump(List(items), style, level) ==
            "[" + (Break(style, level + 1) + (DumpItems(items, style, level + 1) + (Break(style, level) + "]")))
  {
  }

  lemma ItemsBegin(items: seq<Json>, style: Style, level: nat)
    requires forall i :: 0 <= i < |items| ==> Integers(items[i])
    ensures DumpItems(items, style, level) == "" <==> items == []
    ensures items != [] ==> !White(DumpItems(items, style, level)[0]) && DumpItems(items, style, level)[0] != ']'
  {
    if items != [] {
      FirstChar(items[0], style, level);
    }
  }

  lemma {:induction false} ItemsRead(items: seq<Json>, style: Style, level: nat, text: string, pos: nat, depth: nat,
                                     close: nat)
    requires items != [] && Spaced(style) && (forall i :: 0 <= i < |items| ==> Integers(items[i]))
    requires Has(text, pos, DumpItems(items, style, level)) && close < |text| && At(text, close) == ']'
    requires var end := pos + |DumpItems(items, style, level)|;
      Skip(text, end) == close && !NumberChar(At(text, end))
    ensures DecodeItems(text, pos, depth) ==
            if Fits(depth + 1, DepthOfItems(items)) then Ok(items, close + 1) else Bad
    decreases items, 1
  {
    hide Dump, DumpItems, Has, Skip, Break, DecodeValue, Depth, DepthOfItems, DecodeItems, Integers;
    var own, rest := Dump(items[0], style, level), items[1..];
    ItemsParts(items, style, level);
    if |items| == 1 {
      ValueReads(items[0], style, level, text, pos, depth + 1);
      ItemsLast(text, pos, depth, items[0], pos + |own|, close);
    } else {
      ItemsBegin(rest, style, level);
      var next := Separated(text, pos, own, style, level, DumpItems(rest, style, level));
      ValueReads(items[0], style, level, text, pos, depth + 1);
      ItemsRead(rest, style, level, text, next, depth, close);
      ItemsStep(text, pos, depth, items[0], pos + |own|, next);
    }
  }

  lemma ItemsParts(items: seq<Json>, style: Style, level: nat)
    requires items != []
    ensures items == if |items| == 1 then [items[0]] else [items[0]] + items[1..]
    ensures |items| == 1 ==> DumpItems(items, style, level) == Dump(items[0], style, level)
    ensures |items| == 1 ==> DepthOfItems(items) == Depth(items[0])
    ensures |items| > 1 ==>
      DumpItems(items, style, level) ==
      Dump(items[0], style, level) + ("," + (Break(style, level) + DumpItems(items[1..], style, level)))
    ensures |items| > 1 ==> DepthOfItems(items) == Max(Depth(items[0]), DepthOfItems(items[1..]))
  {
    if |items| == 1 {
      assert DepthOfItems(items[1..]) == 0;
    }
  }

  lemma ItemsLast(text: string, pos: nat, depth: nat, v: Json, end: nat, close: nat)
    requires pos <= |text| && end <= |text| && Skip(text, end) == close && At(text, close) == ']'
    requires DecodeValue(text, pos, depth + 1) == Ok(v, end) || DecodeValue(text, pos, depth + 1) == Bad
    ensures DecodeItems(text, pos, depth) ==
            if DecodeValue(text, pos, depth + 1) == Bad then Bad else Ok([v], close + 1)
  {
    hide DecodeValue, Skip;
  }

  /** An entry with others behind it: where they begin. */
  lemma Separated(text: string, pos: nat, own: string, style: Style, level: nat, more: string) returns (next: nat)
    requires Spaced(style) && more != "" && !White(more[0])
    requires Has(text, pos, own + ("," + (Break(style, level) + more)))
    ensures next == pos + |own| + 1 + |Break(style, level)| <= |text|
    ensures Has(text, pos, own) && Has(text, next, more)
    ensures pos + |own| < |text| && At(text, pos + |own|) == ',' && Skip(text, pos + |own|) == pos + |own|
    ensures Skip(text, pos + |own| + 1) == next
  {
    hide Has, Skip, Break;
    HasBoth(text, pos, own, "," + (Break(style, level) + more));
    CommaReads(text, pos + |own|, style, level, more);
    next := pos + |own| + 1 + |Break(style, level)|;
    HasAt(text, next, more, 0);
  }

  lemma ItemsStep(text: string, pos: nat, depth: nat, v: Json, end: nat, next: nat)
    requires pos <= |text| && end < |text| && next <= |text|
    requires At(text, end) == ',' && Skip(text, end) == end && Skip(text, end + 1) == next
    requires DecodeValue(text, pos, depth + 1) == Ok(v, end) || DecodeValue(text, pos, depth + 1) == Bad
    ensures DecodeItems(text, pos, depth) ==
      if DecodeValue(text, pos, depth + 1) == Bad then Bad
      else match DecodeItems(text, next, depth)
        case Bad => Bad
        case Ok(more, last) => Ok([v] + more, last)
  {
    hide DecodeValue, Skip;
  }

  lemma {:induction false} ObjectReads(fields: seq<Field>, style: Style, level: nat, text: string, pos: nat, depth: nat)
    requires Spaced(style) && (forall i :: 0 <= i < |fields| ==> Integers(fields[i].value))
    requires Has(text, pos, Dump(Object(fields), style, level))
    ensures pos < |text| && At(text, pos) == '{'
    ensures DecodeObject(text, pos, depth) ==
            if depth <= MAX_DEPTH && Fits(depth + 1, DepthOfFields(fields))
            then Ok(Object(fields), pos + |Dump(Object(fields), style, level)|) else Bad
    decreases fields, 3
  {
    hide Dump, DumpFields, Has, Break, Skip, DecodeFields;
    var inner := DumpFields(fields, style, level + 1);
    FieldsBegin(fields, style, level + 1);
    ObjectParts(fields, style, level);
    var first, close := Bracketed(text, pos, "{", style, level, inner, "}");
    if fields != [] {
      HasAt(text, first, inner, 0);
      FieldsRead(fields, style, level + 1, text, first, depth, close);
    }
  }

  lemma ObjectParts(fields: seq<Field>, style: Style, level: nat)
    ensures Dump(Object(fields), style, level) ==
            "{" + (Break(style, level + 1) + (DumpFields(fields, style, level + 1) + (Break(style, level) + "}")))
  {
  }

  lemma FieldsBegin(fields: seq<Field>, style: Style, level: nat)
    ensures DumpFields(fields, style, level) == "" <==> fields == []
    ensures fields != [] ==> DumpFields(fields, style, level)[0] == '"'
  {
  }

  lemma {:induction false} FieldReads(field: Field, style: Style, level: nat, text: string, pos: nat, depth: nat)
    requires Spaced(style) && Integers(field.value) && Has(text, pos, DumpField(field, style, level))
    requires !NumberChar(At(text, pos + |DumpField(field, style, level)|))
    ensures DecodeField(text, pos, depth) ==
            if Fits(depth + 1, DepthOfField(field)) then Ok(field, pos + |DumpField(field, style, level)|) else Bad
    decreases field, 1
  {
    hide Dump, DumpField, Has, DumpString, Skip, Colon, DecodeValue, DecodeString, Depth, DecodeField, DepthOfField,
         Integers;
    var key, colon, own := DumpString(field.key), Colon(style), Dump(field.value, style, level);
    FieldParts(field, style, level);
    FirstChar(field.value, style, level);
    HasBoth(text, pos, key, colon + own);
    HasBoth(text, pos + |key|, colon, own);
    StringReads(text, pos, field.key);
    ColonSkips(text, pos + |key|, style, own);
    ValueReads(field.value, style, level, text, pos + |key| + |colon|, depth + 1);
    FieldStep(text, pos, depth, field.key, pos + |key|, pos + |key| + |colon|);
  }

  lemma FieldParts(field: Field, style: Style, level: nat)
    ensures DumpField(field, style, level) ==
            DumpString(field.key) + (Colon(style) + Dump(field.value, style, level))
    ensures DepthOfField(field) == Depth(field.value)
  {
  }

  lemma FieldStep(text: string, pos: nat, depth: nat, key: string, end: nat, next: nat)
    requires pos <= |text| && end < |text| && next <= |text| && DecodeString(text, pos) == Ok(key, end)
    requires At(text, end) == ':' && Skip(text, end) == end && Skip(text, end + 1) == next
    ensures DecodeField(text, pos, depth) ==
      match DecodeValue(text, next, depth + 1)
      case Bad => Bad
      case Ok(v, last) => Ok(Field(key, v), last)
  {
    hide DecodeValue, DecodeString, Skip;
  }

  lemma ColonSkips(text: string, pos: nat, style: Style, own: string)
    requires Has(text, pos, Colon(style)) && Has(text, pos + |Colon(style)|, own) && own != "" && !White(own[0])
    ensures pos < |text| && Skip(text, pos) == pos && At(text, pos) == ':'
    ensures Skip(text, pos + 1) == pos + |Colon(style)| <= |text|
  {
    HasAt(text, pos, Colon(style), 0);
    HasAt(text, pos + |Colon(style)|, own, 0);
    if style.indent >= 0 {
      HasAt(text, pos, Colon(style), 1);
    }
  }

  lemma {:induction false} FieldsRead(fields: seq<Field>, style: Style, level: nat, text: string, pos: nat,
                                      depth: nat, close: nat)
    requires fields != [] && Spaced(style) && (forall i :: 0 <= i < |fields| ==> Integers(fields[i].value))
    requires Has(text, pos, DumpFields(fields, style, level)) && close < |text| && At(text, close) == '}'
    requires var end := pos + |DumpFields(fields, style, level)|;
      Skip(text, end) == close && !NumberChar(At(text, end))
    ensures DecodeFields(text, pos, depth) ==
            if Fits(depth + 1, DepthOfFields(fields)) then Ok(fields, close + 1) else Bad
    decreases fields, 2
  {
    hide DumpField, DumpFields, Has, Skip, Break, DecodeField, DepthOfField, DepthOfFields, DecodeFields, Integers;
    var own, rest := DumpField(fields[0], style, level), fields[1..];
    FieldsParts(fields, style, level);
    if |fields| == 1 {
      FieldReads(fields[0], style, level, text, pos, depth);
      FieldsLast(text, pos, depth, fields[0], pos + |own|, close);
    } else {
      FieldsBegin(rest, style, level);
      var next := Separated(text, pos, own, style, level, DumpFields(rest, style, level));
      FieldReads(fields[0], style, level, text, pos, depth);
      FieldsRead(rest, style, level, text, next, depth, close);
      FieldsStep(text, pos, depth, fields[0], pos + |own|, next);
    }
  }

  lemma FieldsParts(fields: seq<Field>, style: Style, level: nat)
    requires fields != []
    ensures fields == if |fields| == 1 then [fields[0]] else [fields[0]] + fields[1..]
    ensures |fields| == 1 ==> DumpFields(fields, style, level) == DumpField(fields[0], style, level)
    ensures |fields| == 1 ==> DepthOfFields(fields) == DepthOfField(fields[0])
    ensures |fields| > 1 ==>
      DumpFields(fields, style, level) ==
      DumpField(fields[0], style, level) + ("," + (Break(style, level) + DumpFields(fields[1..], style, level)))
    ensures |fields| > 1 ==> DepthOfFields(fields) == Max(DepthOfField(fields[0]), DepthOfFields(fields[1..]))
  {
    if |fields| == 1 {
      assert DepthOfFields(fields[1..]) == 0;
    }
  }

  lemma FieldsLast(text: string, pos: nat, depth: nat, field: Field, end: nat, close: nat)
    requires pos <= |text| && end <= |text| && Skip(text, end) == close && At(text, close) == '}'
    requires DecodeField(text, pos, depth) == Ok(field, end) || DecodeField(text, pos, depth) == Bad
    ensures DecodeFields(text, pos, depth) ==
            if DecodeField(text, pos, depth) == Bad then Bad else Ok([field], close + 1)
  {
    hide DecodeField, Skip;
  }

  lemma FieldsStep(text: string, pos: nat, depth: nat, field: Field, end: nat, next: nat)
    requires pos <= |text| && end < |text| && next <= |text|
    requires At(text, end) == ',' && Skip(text, end) == end && Skip(text, end + 1) == next
    requires DecodeField(text, pos, depth) == Ok(field, end) || DecodeField(text, pos, depth) == Bad
    ensures DecodeFields(text, pos, depth) ==
      if DecodeField(text, pos, depth) == Bad then Bad
      else match DecodeFields(text, next, depth)
        case Bad => Bad
        case Ok(more, last) => Ok([field] + more, last)
  {
    hide DecodeField, Skip;
  }

  // ---------------------------------------------------------------- the round trip

  /**
    Loading the dump of a value, compact or indented by white space, yields that value if its lists and
    objects lie at most 5000 deep in one another, and fails if they lie deeper.
   */
  lemma LoadDump(v: Json, style: Style)
    requires Spaced(style) && Integers(v)
    ensures Load(Dump(v, style, 0)) == if Depth(v) <= 5000 then Some(v) else None
  {
    var text := Dump(v, style, 0);
    FirstChar(v, style, 0);
    assert text[0..|text|] == text;
    ValueReads(v, style, 0, text, 0, 0);
    assert Skip(text, 0) == 0 && Skip(text, |text|) == |text|;
  }
}
