/**
  What it means for a URL to match a pattern of `3rdparty/crow/routing.h`: both are cut into the same
  number of parts, a character against itself, a parameter's tag against a text that is a value of its kind.
 */
module RouterMatch {
  import opened Wrappers
  import opened Numerals
  import opened RouterSpec
  import opened RouterProof
  import opened RouterTheorem
  import opened RouterZero

  // ---------------------------------------------------------------- values

  /** The numeral of the number, with any zeros before it. */
  predicate IsNumeral(s: string, n: nat) {
    s != "" && HasDigits(n, 10, |s|) && s == Decimal(n, |s|)
  }

  function Magnitude(i: int): nat {
    if i < 0 then 0 - i else i
  }

  /** A numeral behind an optional sign, up to where no more digit follows, in a range. */
  predicate IsInteger(url: string, pos: nat, end: nat, low: int, high: int, i: int)
    requires pos < end <= |url|
  {
    var signed := url[pos] == '+' || url[pos] == '-';
    var from := if signed then pos + 1 else pos;
    && IsNumeral(url[from..end], Magnitude(i)) && (if url[pos] == '-' then i <= 0 else i >= 0)
    && (end == |url| || !('0' <= url[end] <= '9')) && low <= i <= high
  }

  /** The text from `pos` to `end` is what a parameter of the kind takes, and this is its value. */
  predicate Takes(t: ParamType, req: Request, pos: nat, end: nat, v: Value) {
    var url := req.url;
    && pos < end <= |url|
    && match t
       case INT => v.IntValue? && IsInteger(url, pos, end, -9223372036854775808, 9223372036854775807, v.i)
       case UINT => v.UintValue? && url[pos] != '-' && IsInteger(url, pos, end, 0, 18446744073709551615, v.u)
       case DOUBLE =>
         v.DoubleValue? && url[pos] in "0123456789+-." && req.strtod(url, pos) == Some((v.d, end))
       case STRING =>
         v == StringValue(url[pos..end]) && '/' !in url[pos..end] && (end == |url| || url[end] == '/')
       case PATH => v == StringValue(url[pos..end]) && end == |url|
  }

  lemma {:induction false} DigitsEndIff(s: string, pos: nat, end: nat)
    requires pos <= |s|
    ensures DigitsEnd(s, pos) == end <==>
      pos <= end <= |s| && (forall k :: pos <= k < end ==> '0' <= s[k] <= '9')
      && (end == |s| || !('0' <= s[end] <= '9'))
    decreases |s| - pos
  {
    if pos < |s| && IsDigit(s[pos]) {
      DigitsEndIff(s, pos + 1, end);
    }
  }

  lemma {:induction false} NumeralIff(s: string, n: nat)
    ensures HasDigits(n, 10, |s|) && s == Decimal(n, |s|) <==>
      (forall k :: 0 <= k < |s| ==> '0' <= s[k] <= '9') && DigitsValue(s) == n
    decreases |s|
  {
    hide Decimal, HasDigits, DigitsValue, DecimalDigit;
    NumeralUnfolds(s, n);
    if s != "" {
      var front, c := s[..|s| - 1], s[|s| - 1];
      NumeralIff(front, n / 10);
      assert s == front + [c];
      if '0' <= c <= '9' {
        DigitIff(c, n % 10);
        TenthsAre(DigitsValue(front), (c - '0') as nat);
      }
      LastOf(front, c, Decimal(n / 10, |front|), DecimalDigit(n % 10));
    }
  }

  lemma NumeralUnfolds(s: string, n: nat)
    ensures s == "" ==> (HasDigits(n, 10, 0) <==> n == 0) && Decimal(n, 0) == "" && DigitsValue(s) == 0
    ensures s != "" ==>
      var k := |s| - 1;
      && (HasDigits(n, 10, |s|) <==> HasDigits(n / 10, 10, k))
      && Decimal(n, |s|) == Decimal(n / 10, k) + [DecimalDigit(n % 10)]
      && ('0' <= s[k] <= '9' ==> DigitsValue(s) == DigitsValue(s[..k]) * 10 + (s[k] - '0') as nat)
  {
    hide DecimalDigit;
  }

  lemma TenthsAre(tens: nat, ones: nat)
    requires ones < 10
    ensures (tens * 10 + ones) / 10 == tens && (tens * 10 + ones) % 10 == ones
  {
  }

  lemma LastOf(a: string, c: char, b: string, d: char)
    ensures a + [c] == b + [d] <==> a == b && c == d
  {
    if a + [c] == b + [d] {
      assert (a + [c])[..|a|] == a && (b + [d])[..|b|] == b && (a + [c])[|a|] == c && (b + [d])[|b|] == d;
    }
  }

  lemma DigitIff(c: char, d: nat)
    requires '0' <= c <= '9' && d < 10
    ensures c == DecimalDigit(d) <==> d == (c - '0') as nat
  {
  }

  lemma ReadIntegerIff(url: string, pos: nat, low: int, high: int, i: int, end: nat)
    requires pos < |url|
    ensures ReadInteger(url, pos, low, high) == Some((i, end)) <==>
      pos < end <= |url| && IsInteger(url, pos, end, low, high, i)
  {
    hide DigitsEnd, DigitsValue, Decimal, HasDigits;
    var start := if url[pos] == '-' || url[pos] == '+' then pos + 1 else pos;
    DigitsEndIff(url, start, end);
    if start < end <= |url| {
      NumeralIff(url[start..end], Magnitude(i));
      DigitsOfSlice(url, start, end);
    }
  }

  lemma DigitsOfSlice(s: string, from: nat, end: nat)
    requires from <= end <= |s|
    ensures (forall k :: 0 <= k < end - from ==> '0' <= s[from..end][k] <= '9') <==>
            (forall k :: from <= k < end ==> '0' <= s[k] <= '9')
  {
    if forall k :: 0 <= k < end - from ==> '0' <= s[from..end][k] <= '9' {
      forall k | from <= k < end ensures '0' <= s[k] <= '9' {
        assert s[k] == s[from..end][k - from];
      }
    }
  }

  lemma {:induction false} SegmentEndIff(s: string, pos: nat, end: nat)
    requires pos <= |s|
    ensures SegmentEnd(s, pos) == end <==>
      pos <= end <= |s| && '/' !in s[pos..end] && (end == |s| || s[end] == '/')
    decreases |s| - pos
  {
    if pos < |s| && s[pos] != '/' {
      SegmentEndIff(s, pos + 1, end);
      if pos < end <= |s| {
        assert s[pos..end] == [s[pos]] + s[pos + 1..end];
      }
    } else if pos < end <= |s| {
      assert s[pos..end][0] == s[pos];
    }
  }

  /** What a parameter takes of the URL is a text of its kind, and no other. */
  lemma ConvertIff(t: ParamType, req: Request, pos: nat, v: Value, end: nat)
    requires pos < |req.url|
    ensures Convert(t, req, pos) == Some((v, end)) <==> Takes(t, req, pos, end, v)
  {
    hide ReadInteger, SegmentEnd, IsInteger;
    var url := req.url;
    match t {
      case INT => IntegerIff(t, req, pos, v, end);
      case UINT => IntegerIff(t, req, pos, v, end);
      case DOUBLE => assert url[pos] in "0123456789+-." <==> IsDigit(url[pos]) || url[pos] in "+-.";
      case STRING => SegmentEndIff(url, pos, end);
      case PATH => assert url[pos..] == url[pos..|url|];
    }
  }

  lemma IntegerIff(t: ParamType, req: Request, pos: nat, v: Value, end: nat)
    requires pos < |req.url| && (t == INT || t == UINT)
    ensures Convert(t, req, pos) == Some((v, end)) <==> Takes(t, req, pos, end, v)
  {
    hide ReadInteger, IsInteger;
    if v.IntValue? {
      ReadIntegerIff(req.url, pos, -9223372036854775808, 9223372036854775807, v.i, end);
      StartsInteger(req.url, pos, end, -9223372036854775808, 9223372036854775807, v.i);
    } else if v.UintValue? {
      ReadIntegerIff(req.url, pos, 0, 18446744073709551615, v.u, end);
      StartsInteger(req.url, pos, end, 0, 18446744073709551615, v.u);
    }
  }

  /** An integer begins with a sign or a digit. */
  lemma StartsInteger(url: string, pos: nat, end: nat, low: int, high: int, i: int)
    requires pos < |url|
    ensures pos < end <= |url| && IsInteger(url, pos, end, low, high, i) ==>
      IsDigit(url[pos]) || url[pos] == '+' || url[pos] == '-'
  {
    if pos < end <= |url| && IsInteger(url, pos, end, low, high, i) && url[pos] != '+' && url[pos] != '-' {
      NumeralIff(url[pos..end], Magnitude(i));
      assert url[pos..end][0] == url[pos];
    }
  }

  // ---------------------------------------------------------------- patterns

  predicate IsTag(t: ParamType, tag: string) {
    match t
    case INT => tag == "<int>"
    case UINT => tag == "<uint>"
    case DOUBLE => tag == "<float>" || tag == "<double>"
    case STRING => tag == "<str>" || tag == "<string>"
    case PATH => tag == "<path>"
  }

  /** A part of a pattern with the part of the URL that stands in its place. */
  datatype Slot = Literal(c: char) | Hole(tag: string, kind: ParamType, text: string, value: Value)

  function PatternOf(slots: seq<Slot>): string {
    if slots == [] then ""
    else (match slots[0] case Literal(c) => [c] case Hole(tag, _, _, _) => tag) + PatternOf(slots[1..])
  }

  function UrlOf(slots: seq<Slot>): string {
    if slots == [] then ""
    else (match slots[0] case Literal(c) => [c] case Hole(_, _, text, _) => text) + UrlOf(slots[1..])
  }

  /** From `pos` on the URL has the parts: no character opens a tag, and every text is taken by its tag. */
  predicate Slotted(slots: seq<Slot>, req: Request, pos: nat)
    decreases |slots|
  {
    slots == [] ||
    match slots[0]
    case Literal(c) => c != '<' && Slotted(slots[1..], req, pos + 1)
    case Hole(tag, kind, text, value) =>
      IsTag(kind, tag) && Takes(kind, req, pos, pos + |text|, value) && Slotted(slots[1..], req, pos + |text|)
  }

  /** The values in order, a list for each kind. */
  function Ints(slots: seq<Slot>): seq<int> {
    if slots == [] then []
    else (if slots[0].Hole? && slots[0].value.IntValue? then [slots[0].value.i] else []) + Ints(slots[1..])
  }

  function Uints(slots: seq<Slot>): seq<int> {
    if slots == [] then []
    else (if slots[0].Hole? && slots[0].value.UintValue? then [slots[0].value.u] else []) + Uints(slots[1..])
  }

  function Doubles(slots: seq<Slot>): seq<real> {
    if slots == [] then []
    else (if slots[0].Hole? && slots[0].value.DoubleValue? then [slots[0].value.d] else []) + Doubles(slots[1..])
  }

  function Strings(slots: seq<Slot>): seq<string> {
    if slots == [] then []
    else (if slots[0].Hole? && slots[0].value.StringValue? then [slots[0].value.s] else []) + Strings(slots[1..])
  }

  function WithValues(params: Params, slots: seq<Slot>): Params {
    Params(params.ints + Ints(slots), params.uints + Uints(slots), params.doubles + Doubles(slots),
           params.strings + Strings(slots))
  }

  lemma WithNoValues(params: Params)
    ensures WithValues(params, []) == params
  {
  }

  lemma WithMoreValues(params: Params, slot: Slot, slots: seq<Slot>)
    ensures WithValues(params, [slot] + slots) ==
      match slot case Literal(_) => WithValues(params, slots) case Hole(_, _, _, v) => WithValues(params.Push(v), slots)
  {
    assert ([slot] + slots)[1..] == slots;
    match slot {
      case Literal(_) =>
        assert [] + Ints(slots) == Ints(slots) && [] + Uints(slots) == Uints(slots);
        assert [] + Doubles(slots) == Doubles(slots) && [] + Strings(slots) == Strings(slots);
      case Hole(_, _, _, v) =>
        match v {
          case IntValue(i) => assert params.ints + ([i] + Ints(slots)) == params.ints + [i] + Ints(slots);
          case UintValue(u) => assert params.uints + ([u] + Uints(slots)) == params.uints + [u] + Uints(slots);
          case DoubleValue(d) =>
            assert params.doubles + ([d] + Doubles(slots)) == params.doubles + [d] + Doubles(slots);
          case StringValue(s) =>
            assert params.strings + ([s] + Strings(slots)) == params.strings + [s] + Strings(slots);
        }
    }
  }

  // ---------------------------------------------------------------- matching

  /** The slots are a way to read the pattern from `i` on and the URL from `pos` on. */
  predicate Reads(slots: seq<Slot>, url: string, i: nat, req: Request, pos: nat)
    requires i <= |url| && pos <= |req.url|
  {
    url[i..] == PatternOf(slots) && req.url[pos..] == UrlOf(slots) && Slotted(slots, req, pos)
  }

  /** One part in front: what it is of the pattern and of the URL. */
  lemma ReadsFirst(slot: Slot, slots: seq<Slot>, url: string, i: nat, next: nat, req: Request, pos: nat, end: nat)
    requires i < next <= |url| && pos < end <= |req.url|
    requires match slot
      case Literal(c) => url[i..next] == [c] == req.url[pos..end] && c != '<'
      case Hole(tag, kind, text, v) =>
        url[i..next] == tag && req.url[pos..end] == text && IsTag(kind, tag) && Takes(kind, req, pos, end, v)
    ensures Reads([slot] + slots, url, i, req, pos) <==> Reads(slots, url, next, req, end)
  {
    hide Takes, IsTag, PatternOf, UrlOf;
    var all := [slot] + slots;
    assert all[1..] == slots;
    FirstTexts(slot, slots);
    SplitsAt(url, i, next);
    SplitsAt(req.url, pos, end);
    SameFront(url[i..next], url[next..], PatternOf(slots));
    SameFront(req.url[pos..end], req.url[end..], UrlOf(slots));
  }

  lemma SplitsAt(s: string, i: nat, j: nat)
    requires i <= j <= |s|
    ensures s[i..] == s[i..j] + s[j..]
  {
  }

  lemma FirstTexts(slot: Slot, slots: seq<Slot>)
    ensures PatternOf([slot] + slots) ==
            (match slot case Literal(c) => [c] case Hole(tag, _, _, _) => tag) + PatternOf(slots)
    ensures UrlOf([slot] + slots) ==
            (match slot case Literal(c) => [c] case Hole(_, _, text, _) => text) + UrlOf(slots)
  {
    assert ([slot] + slots)[1..] == slots;
  }

  lemma SameFront(a: string, b: string, c: string)
    ensures a + b == a + c <==> b == c
  {
    if a + b == a + c {
      assert b == (a + b)[|a|..] && c == (a + c)[|a|..];
    }
  }

  lemma TagOf(url: string, i: nat) returns (tag: string)
    requires i < |url| && Pieces(url, i).Some? && url[i] == '<'
    ensures StepAt(url, i).Par? && IsTag(StepAt(url, i).t, tag)
    ensures i + |tag| == NextAt(url, i) && url[i..NextAt(url, i)] == tag
  {
    var k := WhichTag(url, i, 0);
    tag := TAGS[k].1;
  }

  lemma TagIs(url: string, i: nat, kind: ParamType, tag: string)
    requires i + |tag| <= |url| && url[i..i + |tag|] == tag && IsTag(kind, tag)
    ensures url[i] == '<' && TagFrom(url, i, 0) == Some((kind, |tag|))
  {
    assert url[i] == url[i..i + |tag|][0];
    var k := match kind case INT => 0 case UINT => 1 case DOUBLE => if tag == "<float>" then 2 else 3
                        case STRING => if tag == "<str>" then 4 else 5 case PATH => 6;
    assert TAGS[k] == (kind, tag);
    TagIsFound(url, i, k, 0);
  }

  /** Matching a pattern finds a way to read both texts. */
  lemma {:induction false} MatchReads(url: string, i: nat, req: Request, pos: nat, params: Params, result: Params)
    returns (slots: seq<Slot>)
    requires i <= |url| && Pieces(url, i).Some? && pos <= |req.url|
    requires MatchPath(Pieces(url, i).value, req, pos, params) == Some(result)
    ensures Reads(slots, url, i, req, pos) && result == WithValues(params, slots)
    decreases |url| - i
  {
    hide Pieces, Takes, Convert, Reads, IsTag, TagFrom;
    if i == |url| {
      slots := [];
      NothingToRead(url, req, pos);
      WithNoValues(params);
    } else {
      var next, rest := NextAt(url, i), Pieces(url, NextAt(url, i)).value;
      assert Pieces(url, i).value == [StepAt(url, i)] + rest;
      assert ([StepAt(url, i)] + rest)[1..] == rest;
      if url[i] == '<' {
        var tag := TagOf(url, i);
        var kind := StepAt(url, i).t;
        var v := Convert(kind, req, pos).value;
        ConvertIff(kind, req, pos, v.0, v.1);
        TakesForward(kind, req, pos, v.1, v.0);
        var more := MatchReads(url, next, req, v.1, params.Push(v.0), result);
        var slot := Hole(tag, kind, req.url[pos..v.1], v.0);
        slots := [slot] + more;
        ReadsFirst(slot, more, url, i, next, req, pos, v.1);
        WithMoreValues(params, slot, more);
      } else {
        var more := MatchReads(url, next, req, pos + 1, params, result);
        var slot := Literal(url[i]);
        slots := [slot] + more;
        assert url[i..next] == [url[i]] && req.url[pos..pos + 1] == [url[i]];
        ReadsFirst(slot, more, url, i, next, req, pos, pos + 1);
        WithMoreValues(params, slot, more);
      }
    }
  }

  lemma TakesForward(t: ParamType, req: Request, pos: nat, end: nat, v: Value)
    requires Takes(t, req, pos, end, v)
    ensures pos < end <= |req.url|
  {
  }

  lemma NothingToRead(url: string, req: Request, pos: nat)
    requires pos <= |req.url| && Pieces(url, |url|).Some?
    ensures Pieces(url, |url|) == Some([])
    ensures Reads([], url, |url|, req, pos) <==> pos == |req.url|
  {
  }

  /** And every way to read both is found. */
  lemma {:induction false} ReadingMatches(url: string, i: nat, req: Request, pos: nat, params: Params, slots: seq<Slot>)
    requires i <= |url| && Pieces(url, i).Some? && pos <= |req.url| && Reads(slots, url, i, req, pos)
    ensures MatchPath(Pieces(url, i).value, req, pos, params) == Some(WithValues(params, slots))
    decreases |slots|
  {
    hide Pieces, Takes, Convert, IsTag, TagFrom, MatchPath, WithValues;
    if slots == [] {
      assert i == |url|;
      NothingToRead(url, req, pos);
      WithNoValues(params);
      NothingMatches(req, pos, params);
    } else {
      var slot, more := slots[0], slots[1..];
      assert slots == [slot] + more;
      FirstTexts(slot, more);
      WithMoreValues(params, slot, more);
      match slot {
        case Literal(c) =>
          assert url[i..][0] == c && req.url[pos..][0] == c;
          LiteralStep(url, i, c);
          ReadsFirst(slot, more, url, i, i + 1, req, pos, pos + 1);
          ReadingMatches(url, i + 1, req, pos + 1, params, more);
          MatchesChr(c, Pieces(url, i + 1).value, req, pos, params);
        case Hole(tag, kind, text, v) =>
          var end, next := pos + |text|, i + |tag|;
          TakesForward(kind, req, pos, end, v);
          TagIsNotEmpty(kind, tag);
          FrontIs(url, i, tag, PatternOf(more));
          FrontIs(req.url, pos, text, UrlOf(more));
          HoleStep(url, i, kind, tag);
          ReadsFirst(slot, more, url, i, next, req, pos, end);
          ConvertIff(kind, req, pos, v, end);
          ReadingMatches(url, next, req, end, params.Push(v), more);
          MatchesPar(kind, Pieces(url, next).value, req, pos, params, v, end);
      }
    }
  }

  lemma NothingMatches(req: Request, pos: nat, params: Params)
    requires pos <= |req.url|
    ensures MatchPath([], req, pos, params) == if pos == |req.url| then Some(params) else None
  {
  }

  lemma MatchesChr(c: char, rest: seq<Piece>, req: Request, pos: nat, params: Params)
    requires pos < |req.url| && req.url[pos] == c
    ensures MatchPath([Chr(c)] + rest, req, pos, params) == MatchPath(rest, req, pos + 1, params)
  {
    assert ([Chr(c)] + rest)[1..] == rest;
  }

  lemma MatchesPar(t: ParamType, rest: seq<Piece>, req: Request, pos: nat, params: Params, v: Value, end: nat)
    requires pos < |req.url| && Convert(t, req, pos) == Some((v, end))
    ensures MatchPath([Par(t)] + rest, req, pos, params) == MatchPath(rest, req, end, params.Push(v))
  {
    assert ([Par(t)] + rest)[1..] == rest;
  }

  lemma TagIsNotEmpty(kind: ParamType, tag: string)
    requires IsTag(kind, tag)
    ensures tag != ""
  {
  }

  lemma FrontIs(s: string, i: nat, a: string, b: string)
    requires i <= |s| && s[i..] == a + b
    ensures i + |a| <= |s| && s[i..i + |a|] == a
  {
    assert s[i..i + |a|] == s[i..][..|a|];
  }

  lemma LiteralStep(url: string, i: nat, c: char)
    requires i < |url| && Pieces(url, i).Some? && url[i] == c != '<'
    ensures Pieces(url, i + 1).Some? && Pieces(url, i).value == [Chr(c)] + Pieces(url, i + 1).value
    ensures url[i..i + 1] == [c] && Pieces(url, i).value[1..] == Pieces(url, i + 1).value
  {
  }

  lemma HoleStep(url: string, i: nat, kind: ParamType, tag: string)
    requires i + |tag| <= |url| && url[i..i + |tag|] == tag && IsTag(kind, tag) && tag != "" && Pieces(url, i).Some?
    ensures Pieces(url, i + |tag|).Some? && Pieces(url, i).value == [Par(kind)] + Pieces(url, i + |tag|).value
    ensures Pieces(url, i).value[1..] == Pieces(url, i + |tag|).value
  {
    TagIs(url, i, kind, tag);
  }

  /**
    A URL matches a rule, with these parameters, if and only if pattern and URL are cut into parts that
    stand for each other: a character for itself, and for each tag a text of its kind, whose values in
    order are the parameters.
   */
  lemma MatchMeans(rule: Rule, req: Request, params: Params)
    requires WellFormed(rule)
    ensures Match(rule, req) == Some(params) <==>
      exists slots :: rule.url == PatternOf(slots) && req.url == UrlOf(slots) && Slotted(slots, req, 0)
                      && params == Params(Ints(slots), Uints(slots), Doubles(slots), Strings(slots))
  {
    hide Slotted, PatternOf, UrlOf, MatchPath, Pieces;
    assert rule.url[0..] == rule.url && req.url[0..] == req.url;
    if Match(rule, req) == Some(params) {
      var slots := MatchReads(rule.url, 0, req, 0, NO_PARAMS, params);
      OnlyValues(slots);
      assert rule.url == PatternOf(slots) && req.url == UrlOf(slots) && Slotted(slots, req, 0);
    }
    if slots :| rule.url == PatternOf(slots) && req.url == UrlOf(slots) && Slotted(slots, req, 0)
                && params == Params(Ints(slots), Uints(slots), Doubles(slots), Strings(slots)) {
      ReadingMatches(rule.url, 0, req, 0, NO_PARAMS, slots);
      OnlyValues(slots);
    }
  }

  lemma OnlyValues(slots: seq<Slot>)
    ensures WithValues(NO_PARAMS, slots) == Params(Ints(slots), Uints(slots), Doubles(slots), Strings(slots))
  {
    assert [] + Ints(slots) == Ints(slots) && [] + Uints(slots) == Uints(slots);
    assert [] + Doubles(slots) == Doubles(slots) && [] + Strings(slots) == Strings(slots);
  }

  // ---------------------------------------------------------------- patterns that can be added

  function Joined(parts: seq<string>): string {
    if parts == [] then "" else parts[0] + Joined(parts[1..])
  }

  predicate IsPart(part: string) {
    (|part| == 1 && part != "<") || exists t: ParamType :: IsTag(t, part)
  }

  predicate AreParts(parts: seq<string>) {
    parts == [] || (IsPart(parts[0]) && AreParts(parts[1..]))
  }

  /** `add` gets through a pattern if and only if it consists of tags and of characters that open none. */
  lemma GoesThroughIff(url: string)
    ensures Pieces(url, 0).Some? <==> exists parts :: url == Joined(parts) && AreParts(parts)
  {
    hide Pieces, Joined, AreParts;
    assert url[0..] == url;
    if Pieces(url, 0).Some? {
      var parts := PartsOf(url, 0);
      assert url == Joined(parts) && AreParts(parts);
    }
    if parts :| url == Joined(parts) && AreParts(parts) {
      PartsGoThrough(url, 0, parts);
    }
  }

  lemma {:induction false} PartsOf(url: string, i: nat) returns (parts: seq<string>)
    requires i <= |url| && Pieces(url, i).Some?
    ensures url[i..] == Joined(parts) && AreParts(parts)
    decreases |url| - i
  {
    hide Pieces, IsTag, TagFrom;
    if i == |url| {
      parts := [];
    } else {
      var next := NextAt(url, i);
      var more := PartsOf(url, next);
      var part := url[i..next];
      if url[i] == '<' {
        var tag := TagOf(url, i);
      } else {
        assert part == [url[i]];
      }
      parts := [part] + more;
      assert parts[1..] == more && url[i..] == part + url[next..];
    }
  }

  lemma {:induction false} PartsGoThrough(url: string, i: nat, parts: seq<string>)
    requires i <= |url| && url[i..] == Joined(parts) && AreParts(parts)
    ensures Pieces(url, i).Some?
    decreases |parts|
  {
    hide IsTag, TagFrom;
    if parts != [] {
      var part := parts[0];
      FrontIs(url, i, part, Joined(parts[1..]));
      assert url[i + |part|..] == url[i..][|part|..] == Joined(parts[1..]);
      PartsGoThrough(url, i + |part|, parts[1..]);
      if !(|part| == 1 && part != "<") {
        var t: ParamType :| IsTag(t, part);
        TagIsNotEmpty(t, part);
        TagIs(url, i, t, part);
      } else {
        assert url[i..i + 1] == part && url[i] == part[0];
      }
    }
  }
}
