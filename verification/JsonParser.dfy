/**
  The recursive-descent parser of `3rdparty/crow/json.h` with its cursor and its buffer, against the
  functions that say what a text is read as.
 */
module JsonParser {
  import opened Wrappers
  import opened JsonSpec
  import opened JsonReader

  /** A decoding ended at `data` with `r`, as the text says. */
  predicate Decoded(buf: seq<char>, low: nat, data: nat, r: RValue, expected: Result<Json>) {
    match expected
    case Bad => r == RError
    case Ok(v, end) => data == end && low <= end && r != RError && Denotes(buf, r, v) && Within(r, low, end)
  }

  class Parser {
    const buf: array<char>
    var data: nat
    /** The text before the parser wrote into it. */
    ghost const text: string

    /** From the cursor on the buffer still is the text, with a zero behind it. */
    ghost predicate Ready()
      reads this, buf
    {
      buf.Length == |text| + 1 && data <= |text| && buf[data..] == text[data..] + "\0"
    }

    constructor (s: string)
      ensures Ready() && data == 0 && text == s && fresh(buf)
    {
      text := s;
      data := 0;
      buf := new char[|s| + 1](i requires 0 <= i <= |s| => if i < |s| then s[i] else '\0');
      new;
      assert buf[0..] == s + "\0";
      assert s[0..] == s;
    }

    lemma Peek(k: nat)
      requires Ready() && data + k <= |text|
      ensures buf[data + k] == At(text, data + k)
    {
      assert buf[data..][k] == (text[data..] + "\0")[k];
    }

    lemma StillReady(was: nat, next: nat, before: seq<char>)
      requires buf.Length == |text| + 1 && was <= next <= |text| && |before| == buf.Length
      requires before[was..] == text[was..] + "\0" && buf[next..] == before[next..]
      ensures buf[next..] == text[next..] + "\0"
    {
      assert before[next..] == before[was..][next - was..];
      assert (text[was..] + "\0")[next - was..] == text[next..] + "\0";
    }

    /** The cursor moved, and nothing was written. */
    method Advance(k: nat)
      requires Ready() && data + k <= |text|
      modifies this`data
      ensures Ready() && data == old(data) + k
    {
      StillReady(data, data + k, buf[..]);
      data := data + k;
    }

    method Consume(c: char) returns (ok: bool)
      requires Ready() && c != '\0'
      modifies this`data
      ensures Ready() && ok == (At(text, old(data)) == c) && data == old(data) + (if ok then 1 else 0)
    {
      Peek(0);
      ok := buf[data] == c;
      if ok {
        Advance(1);
      }
    }

    method WsSkip()
      requires Ready()
      modifies this`data
      ensures Ready() && data == Skip(text, old(data))
    {
      ghost var start := data;
      Peek(0);
      while buf[data] == ' ' || buf[data] == '\t' || buf[data] == '\r' || buf[data] == '\n'
        invariant Ready() && start <= data && Skip(text, data) == Skip(text, start) && buf[data] == At(text, data)
        decreases |text| - data
      {
        Advance(1);
        Peek(0);
      }
    }

    // -------------------------------------------------------------- strings and numbers

    method DecodeString() returns (r: RValue)
      requires Ready()
      modifies this`data, buf
      ensures Ready() && old(data) <= data && buf[..old(data)] == old(buf[..data])
      ensures match JsonSpec.DecodeString(text, old(data))
        case Bad => r == RError
        case Ok(s, end) =>
          && data == end && r.RString? && old(data) < r.start <= r.end < end
          && StringAt(buf[..], r.start, r.end, s)
    {
      r := RError;
      var quote := Consume('"');
      if quote {
        var start := data;
        var end := ScanString();
        if end.Some? {
          StringRead(text, start, end.value);
          Close(start, end.value.0, end.value.1);
          r := RString(start, end.value.0);
        }
      }
    }

    lemma StringRead(text: string, start: nat, end: (nat, bool))
      requires 0 < start <= |text| && At(text, start - 1) == '"' && Scan(text, start, false) == Some(end)
      ensures WellEscaped(text[start..end.0]) && (!end.1 ==> Unescape(text[start..end.0]) == text[start..end.0])
      ensures JsonSpec.DecodeString(text, start - 1) == Ok(Unescape(text[start..end.0]), end.0 + 1)
    {
      ScanIsWell(text, start, false);
    }

    /** The loop of `decode_string`, up to the closing quote. */
    method ScanString() returns (end: Option<(nat, bool)>)
      requires Ready()
      modifies this`data
      ensures Ready() && old(data) <= data && end == Scan(text, old(data), false)
      ensures end.Some? ==> data == end.value.0
    {
      ghost var start := data;
      var escaped, going := false, true;
      end := None;
      while going
        invariant Ready() && start <= data
        invariant going ==> end == None && Scan(text, start, false) == Scan(text, data, escaped)
        invariant !going ==> end == Scan(text, start, false) && (end.Some? ==> data == end.value.0)
        decreases |text| - data, if going then 1 else 0
      {
        Peek(0);
        if buf[data] != '"' && buf[data] != '\\' && buf[data] != '\0' {
          Advance(1);
        } else if buf[data] == '"' {
          end := Some((data, escaped));
          going := false;
        } else if buf[data] == '\\' {
          going := Escape(escaped);
          escaped := true;
        } else {
          going := false;
        }
      }
    }

    /** Behind a backslash. */
    method Escape(ghost escaped: bool) returns (ok: bool)
      requires Ready() && At(text, data) == '\\'
      modifies this`data
      ensures Ready() && old(data) < data
      ensures Scan(text, old(data), escaped) == if ok then Scan(text, data, true) else None
    {
      Advance(1);
      Peek(0);
      ok := false;
      if buf[data] == 'u' {
        ok := CheckHex();
        if ok {
          Advance(5);
        }
      } else if buf[data] in "\"\\/bfnrt" {
        ok := true;
        Advance(1);
      }
    }

    /** Four hexadecimal digits behind the cursor; the test stops at the first that is none. */
    method CheckHex() returns (ok: bool)
      requires Ready() && At(text, data) == 'u'
      ensures ok == HexAt(text, data + 1) && (ok ==> data + 5 <= |text|)
    {
      ok := Hex(1);
      if ok {
        ok := Hex(2);
      }
      if ok {
        ok := Hex(3);
      }
      if ok {
        ok := Hex(4);
      }
    }

    method Hex(k: nat) returns (ok: bool)
      requires Ready() && data + k <= |text|
      ensures ok == IsHex(At(text, data + k)) && (ok ==> data + k < |text|)
    {
      Peek(k);
      var c := buf[data + k];
      ok := '0' <= c <= '9' || 'a' <= c <= 'f' || 'A' <= c <= 'F';
    }

    /** A zero over the closing quote, and the flag over the opening one. */
    method Close(start: nat, end: nat, escaped: bool)
      requires Ready() && data == end && 0 < start <= end < |text| 
      requires buf[start..end] == text[start..end]
      modifies this`data, buf
      ensures Ready() && data == end + 1
      ensures buf[..start - 1] == old(buf[..start - 1]) && buf[start..end] == text[start..end]
      ensures buf[start - 1] == if escaped then 1 as char else '\0'
    {
      ghost var before := buf[..];
      buf[data] := '\0';
      buf[start - 1] := if escaped then 1 as char else '\0';
      StillReady(end, end + 1, before);
      data := data + 1;
    }

    method DecodeNumber() returns (r: RValue)
      requires Ready()
      modifies this`data
      ensures Ready() && old(data) <= data
      ensures match NumberFrom(text, old(data), MINUS)
        case None => r == RError
        case Some(end) => data == end && r == RNumber(old(data), end)
    {
      var start := data;
      var state, going := MINUS, true;
      r := RError;
      while state != INVALID && going
        invariant Ready() && start <= data
        invariant going ==> r == RError && NumberFrom(text, start, MINUS) == NumberFrom(text, data, state)
        invariant !going ==> match NumberFrom(text, start, MINUS)
          case None => r == RError
          case Some(end) => data == end && r == RNumber(start, end)
        decreases |text| - data, if going then 1 else 0
      {
        Peek(0);
        var c := buf[data];
        if '0' <= c <= '9' || c == '.' || c == '-' || c == '+' || c == 'e' || c == 'E' {
          state := NextState(state, c);
          if '1' <= c <= '9' {
            Digits(state);
          } else {
            Advance(1);
          }
        } else {
          if state == ZERO_FIRST || state == DIGITS || state == DIGITS_AFTER_POINTS || state == DIGITS_AFTER_E {
            r := RNumber(start, data);
          }
          going := false;
        }
      }
    }

    /** The switch over the state and the character. */
    method NextState(state: NumberState, c: char) returns (next: NumberState)
      requires NumberChar(c)
      ensures next == NumberStep(state, c)
    {
      next := INVALID;
      var digit := '0' <= c <= '9';
      match state {
        case MINUS =>
          next := if c == '0' then ZERO_FIRST else if digit then DIGITS else if c == '-' then AFTER_MINUS else INVALID;
        case AFTER_MINUS => next := if c == '0' then ZERO_FIRST else if digit then DIGITS else INVALID;
        case ZERO_FIRST => next := if c == '.' then DIGITS_AFTER_POINTS else INVALID;
        case DIGITS =>
          if digit {
            next := DIGITS;
          } else if c == '.' {
            next := DIGITS_AFTER_POINTS;
          } else if c == 'e' || c == 'E' {
            next := NumberState.E;
          }
        case DIGITS_AFTER_POINTS =>
          if digit {
            next := DIGITS_AFTER_POINTS;
          } else if c == 'e' || c == 'E' {
            next := NumberState.E;
          }
        case E => next := if digit || c == '-' || c == '+' then DIGITS_AFTER_E else INVALID;
        case DIGITS_AFTER_E => next := if digit then DIGITS_AFTER_E else INVALID;
        case INVALID =>
      }
    }

    /** From a digit to behind the last digit: none of them changes the state any more. */
    method Digits(state: NumberState)
      requires Ready() && '1' <= At(text, data) <= '9'
      requires state == DIGITS || state == DIGITS_AFTER_POINTS || state == DIGITS_AFTER_E || state == INVALID
      modifies this`data
      ensures Ready() && old(data) < data
      ensures NumberFrom(text, data, state) == NumberFrom(text, old(data) + 1, state)
    {
      ghost var first := data + 1;
      Peek(1);
      while '0' <= buf[data + 1] <= '9'
        invariant Ready() && first <= data + 1 <= |text| && buf[data + 1] == At(text, data + 1)
        invariant NumberFrom(text, data + 1, state) == NumberFrom(text, first, state)
        decreases |text| - data
      {
        Advance(1);
        Peek(1);
      }
      Advance(1);
    }

    // -------------------------------------------------------------- values

    /** The letters of a word one after the other; the comparison stops at the first that differs. */
    method DecodeWord(word: string, value: RValue) returns (r: RValue)
      requires Ready() && '\0' !in word
      modifies this`data
      ensures Ready() && old(data) <= data
      ensures Word(text, old(data), word) ==> r == value && data == old(data) + |word|
      ensures !Word(text, old(data), word) ==> r == RError
    {
      var k := 0;
      var same := true;
      while k < |word| && same
        invariant k <= |word| && Ready() && data == old(data)
        invariant same ==> data + k <= |text| && text[data..data + k] == word[..k]
        invariant !same ==> !Word(text, data, word)
      {
        Peek(k);
        same := buf[data + k] == word[k];
        if same {
          assert text[data..data + k + 1] == text[data..data + k] + [text[data + k]];
          assert word[..k + 1] == word[..k] + [word[k]];
        }
        k := k + 1;
      }
      r := RError;
      if same {
        assert word[..k] == word;
        Advance(|word|);
        r := value;
      }
    }

    method DecodeValue(depth: nat) returns (r: RValue)
      requires Ready()
      modifies this`data, buf
      ensures Ready() && old(data) <= data && buf[..old(data)] == old(buf[..data])
      ensures Decoded(buf[..], old(data), data, r, JsonSpec.DecodeValue(text, old(data), depth))
      decreases |text| - data, 1
    {
      hide JsonSpec.DecodeList, JsonSpec.DecodeObject, JsonSpec.DecodeString, NumberFrom;
      Peek(0);
      var c := buf[data];
      if c == '[' {
        r := DecodeList(depth + 1);
      } else if c == '{' {
        r := DecodeObject(depth + 1);
      } else if c == '"' {
        r := DecodeString();
      } else if c == 't' {
        r := DecodeWord("true", RTrue);
      } else if c == 'f' {
        r := DecodeWord("false", RFalse);
      } else if c == 'n' {
        r := DecodeWord("null", RNull);
      } else {
        ghost var start := data;
        r := DecodeNumber();
        NumberRead(start);
      }
    }

    /** The stretch of a number still is in the buffer. */
    lemma NumberRead(start: nat)
      requires start <= data && buf.Length == |text| + 1 && data <= |text|
      requires buf[start..] == text[start..] + "\0"
      ensures buf[..][start..data] == text[start..data]
    {
      assert buf[..][start..data] == buf[start..][..data - start];
      assert text[start..data] == (text[start..] + "\0")[..data - start];
    }

    method DecodeList(depth: nat) returns (r: RValue)
      requires Ready() && At(text, data) == '['
      modifies this`data, buf
      ensures Ready() && old(data) <= data && buf[..old(data)] == old(buf[..data])
      ensures Decoded(buf[..], old(data), data, r, JsonSpec.DecodeList(text, old(data), depth))
      decreases |text| - data, 0
    {
      hide DecodeItems;
      var _ := Consume('[');
      r := RError;
      if depth <= MAX_DEPTH {
        WsSkip();
        Peek(0);
        if buf[data] == ']' {
          Advance(1);
          r := RList([]);
        } else {
          ghost var first := data;
          r := ItemsLoop(depth);
          ghost var items := DecodeItems(text, first, depth);
          if items.Ok? {
            ListDenotes(buf[..], r.items, items.value, first, data, old(data), data);
          }
        }
      }
    }

    /** The loop of `decode_list`. */
    method ItemsLoop(depth: nat) returns (r: RValue)
      requires Ready()
      modifies this`data, buf
      ensures Ready() && old(data) <= data && buf[..old(data)] == old(buf[..data])
      ensures ListDone(buf[..], old(data), data, r, DecodeItems(text, old(data), depth))
      decreases |text| - data, 3
    {
      hide JsonSpec.DecodeValue, DecodeItems, DenoteAll;
      ghost var start, mark, values := data, data, [];
      var items, going := [], true;
      r := RError;
      NothingYet(buf[..], start);
      BehindNothing(DecodeItems(text, data, depth));
      while going
        invariant Ready() && start <= mark <= data && buf[..start] == old(buf[..data])
        invariant going ==> DenoteAll(buf[..], items, values, start, mark)
        invariant going ==> DecodeItems(text, start, depth) == ItemsBehind(values, DecodeItems(text, data, depth))
        invariant !going ==> ListDone(buf[..], start, data, r, DecodeItems(text, start, depth))
        decreases |text| - data, if going then 1 else 0
      {
        ghost var here, value, was := data, Null, buf[..];
        r, going, items, mark, value := NextItem(depth, items, values, start, mark);
        Prefix(was, buf[..], start, here);
        ItemsGoOn(values, value, DecodeItems(text, here, depth),
                  if going then Some(DecodeItems(text, data, depth)) else None);
        values := values + [value];
      }
    }

    /** One round of it: an item, and a comma or the closing bracket behind it. */
    method NextItem(depth: nat, items: seq<RValue>, ghost values: seq<Json>, ghost start: nat, ghost mark: nat)
      returns (r: RValue, going: bool, more: seq<RValue>, ghost high: nat, ghost value: Json)
      requires Ready() && start <= mark <= data && DenoteAll(buf[..], items, values, start, mark)
      modifies this`data, buf
      ensures Ready() && start <= high <= data && old(data) <= data && (going ==> old(data) < data)
      ensures buf[..old(data)] == old(buf[..data])
      ensures going ==>
        && DenoteAll(buf[..], more, values + [value], start, high)
        && DecodeItems(text, old(data), depth) == ItemsBehind([value], DecodeItems(text, data, depth))
      ensures !going && r == RError ==> DecodeItems(text, old(data), depth) == Bad
      ensures !going && r != RError ==>
        DecodeItems(text, old(data), depth) == Ok([value], data) && r == RList(more)
        && DenoteAll(buf[..], more, values + [value], start, data)
      decreases |text| - data, 2
    {
      hide JsonSpec.DecodeValue, DecodeItems, DenoteAll, Denotes, Within;
      ghost var was := buf[..];
      ItemsAre(text, data, depth);
      r, going, more, high, value := RError, false, items, mark, Null;
      ghost var here := data;
      var v := DecodeValue(depth + 1);
      if v != RError {
        value := JsonSpec.DecodeValue(text, here, depth + 1).value;
        DenoteMore(was, buf[..], items, values, start, mark, here, data, v, value);
        high := data;
        more := items + [v];
        WsSkip();
        Peek(0);
        if buf[data] == ']' {
          Advance(1);
          DenoteWider(buf[..], more, values + [value], start, high, data);
          r := RList(more);
        } else {
          going := Consume(',');
          if going {
            WsSkip();
          }
        }
      }
    }

    method DecodeObject(depth: nat) returns (r: RValue)
      requires Ready() && At(text, data) == '{'
      modifies this`data, buf
      ensures Ready() && old(data) <= data && buf[..old(data)] == old(buf[..data])
      ensures Decoded(buf[..], old(data), data, r, JsonSpec.DecodeObject(text, old(data), depth))
      decreases |text| - data, 0
    {
      hide DecodeFields;
      var _ := Consume('{');
      r := RError;
      if depth <= MAX_DEPTH {
        WsSkip();
        Peek(0);
        if buf[data] == '}' {
          Advance(1);
          r := RObject([]);
        } else {
          ghost var first := data;
          r := FieldsLoop(depth);
          ghost var fields := DecodeFields(text, first, depth);
          if fields.Ok? {
            ObjectDenotes(buf[..], r.fields, fields.value, first, data, old(data), data);
          }
        }
      }
    }

    /** The loop of `decode_object`. */
    method FieldsLoop(depth: nat) returns (r: RValue)
      requires Ready()
      modifies this`data, buf
      ensures Ready() && old(data) <= data && buf[..old(data)] == old(buf[..data])
      ensures ObjectDone(buf[..], old(data), data, r, DecodeFields(text, old(data), depth))
      decreases |text| - data, 4
    {
      hide JsonSpec.DecodeField, DecodeFields, FieldsAt;
      ghost var start, mark, fields := data, data, [];
      var fs, going := [], true;
      r := RError;
      NothingYet(buf[..], start);
      FieldsBehindNothing(DecodeFields(text, data, depth));
      while going
        invariant Ready() && start <= mark <= data && buf[..start] == old(buf[..data])
        invariant going ==> FieldsAt(buf[..], fs, fields, start, mark)
        invariant going ==> DecodeFields(text, start, depth) == FieldsBehind(fields, DecodeFields(text, data, depth))
        invariant !going ==> ObjectDone(buf[..], start, data, r, DecodeFields(text, start, depth))
        decreases |text| - data, if going then 1 else 0
      {
        ghost var here, field, was := data, Field("", Null), buf[..];
        r, going, fs, mark, field := NextField(depth, fs, fields, start, mark);
        Prefix(was, buf[..], start, here);
        FieldsGoOn(fields, field, DecodeFields(text, here, depth),
                   if going then Some(DecodeFields(text, data, depth)) else None);
        fields := fields + [field];
      }
    }

    /** One round of it: a field, and a comma or the closing brace behind it. */
    method NextField(depth: nat, fs: seq<RField>, ghost fields: seq<Field>, ghost start: nat, ghost mark: nat)
      returns (r: RValue, going: bool, more: seq<RField>, ghost high: nat, ghost field: Field)
      requires Ready() && start <= mark <= data && FieldsAt(buf[..], fs, fields, start, mark)
      modifies this`data, buf
      ensures Ready() && start <= high <= data && old(data) <= data && (going ==> old(data) < data)
      ensures buf[..old(data)] == old(buf[..data])
      ensures going ==>
        && FieldsAt(buf[..], more, fields + [field], start, high)
        && DecodeFields(text, old(data), depth) == FieldsBehind([field], DecodeFields(text, data, depth))
      ensures !going && r == RError ==> DecodeFields(text, old(data), depth) == Bad
      ensures !going && r != RError ==>
        DecodeFields(text, old(data), depth) == Ok([field], data) && r == RObject(more)
        && FieldsAt(buf[..], more, fields + [field], start, data)
      decreases |text| - data, 3
    {
      hide JsonSpec.DecodeField, DecodeFields, FieldsAt, FieldAt;
      ghost var was := buf[..];
      FieldsAre(text, data, depth);
      r, going, more, high, field := RError, false, fs, mark, Field("", Null);
      ghost var here := data;
      var f := DecodeField(depth);
      if f.Some? {
        field := JsonSpec.DecodeField(text, here, depth).value;
        FieldsMore(was, buf[..], fs, fields, start, mark, here, data, f.value, field);
        high := data;
        more := fs + [f.value];
        WsSkip();
        Peek(0);
        if buf[data] == '}' {
          Advance(1);
          FieldsWider(buf[..], more, fields + [field], start, high, data);
          r := RObject(more);
        } else {
          going := Consume(',');
          if going {
            WsSkip();
          }
        }
      }
    }

    /** A key, which is unescaped at once, a colon and a value; nothing for an error. */
    method DecodeField(depth: nat) returns (f: Option<RField>)
      requires Ready()
      modifies this`data, buf
      ensures Ready() && old(data) <= data && buf[..old(data)] == old(buf[..data])
      ensures match JsonSpec.DecodeField(text, old(data), depth)
        case Bad => f == None
        case Ok(field, end) => data == end && f.Some? && FieldAt(buf[..], f.value, field, old(data), end)
      decreases |text| - data, 2
    {
      hide JsonSpec.DecodeValue, Denotes, Within, StringAt;
      f := None;
      ghost var start, was := data, buf[..];
      var found, keyStart, keyEnd := KeyAndColon();
      if found {
        ghost var here, key, between := data, JsonSpec.DecodeString(text, start).value, buf[..];
        var v := DecodeValue(depth + 1);
        Prefix(between, buf[..], start, here);
        if v != RError {
          f := Some(RField(keyStart, keyEnd, v));
          SliceFrame(between, buf[..], 0, here, 0, here);
          StringFrame(between, buf[..], 0, here, keyStart, keyEnd, key);
          WithinMore(v, here, data, start, data);
        }
      }
    }

    /** A key and the colon behind it, up to the value. */
    method KeyAndColon() returns (found: bool, keyStart: nat, keyEnd: nat)
      requires Ready()
      modifies this`data, buf
      ensures Ready() && old(data) <= data && buf[..old(data)] == old(buf[..data])
      ensures match JsonSpec.DecodeString(text, old(data))
        case Bad => !found
        case Ok(key, end) =>
          && found == (At(text, Skip(text, end)) == ':')
          && (found ==>
                && data == Skip(text, Skip(text, end) + 1) && old(data) < keyStart <= keyEnd < data
                && StringAt(buf[..], keyStart, keyEnd, key))
    {
      hide JsonSpec.DecodeString, StringAt;
      found, keyStart, keyEnd := false, 0, 0;
      ghost var start, was := data, buf[..];
      var t := DecodeString();
      if t != RError {
        ghost var key := JsonSpec.DecodeString(text, start).value;
        WsSkip();
        found := Consume(':');
        if found {
          ghost var between := buf[..];
          keyStart := t.start;
          keyEnd := Key(t.start, t.end, key);
          Prefix(between, buf[..], start, t.start - 1);
          WsSkip();
        }
      }
    }

    /** `t.s()` on a key behind the cursor. */
    method Key(start: nat, end: nat, ghost key: string) returns (keyEnd: nat)
      requires Ready() && 0 < start <= end < data && StringAt(buf[..], start, end, key)
      modifies buf
      ensures Ready() && buf[..start - 1] == old(buf[..start - 1])
      ensures start <= keyEnd <= end && StringAt(buf[..], start, keyEnd, key)
    {
      ghost var before := buf[..];
      keyEnd := UnescapeInPlace(buf, start, end);
      assert buf[data..] == before[data..];
    }

    /** `parse`. */
    method Parse() returns (r: RValue)
      requires Ready() && data == 0
      modifies this`data, buf
      ensures match Load(text) case None => r == RError case Some(v) => Denotes(buf[..], r, v)
    {
      hide JsonSpec.DecodeValue, Denotes, Within;
      WsSkip();
      r := DecodeValue(0);
      if r != RError {
        WsSkip();
        Peek(0);
        if buf[data] != '\0' {
          r := RError;
        }
      }
    }
  }

  lemma ItemsAre(text: string, pos: nat, depth: nat)
    requires pos <= |text|
    ensures var first := JsonSpec.DecodeValue(text, pos, depth + 1);
      DecodeItems(text, pos, depth) ==
      if first == Bad then Bad
      else
        var q := Skip(text, first.pos);
        if At(text, q) == ']' then Ok([first.value], q + 1)
        else if At(text, q) != ',' then Bad
        else ItemsBehind([first.value], DecodeItems(text, Skip(text, q + 1), depth))
  {
  }

  lemma FieldsAre(text: string, pos: nat, depth: nat)
    requires pos <= |text|
    ensures var first := JsonSpec.DecodeField(text, pos, depth);
      DecodeFields(text, pos, depth) ==
      if first == Bad then Bad
      else
        var q := Skip(text, first.pos);
        if At(text, q) == '}' then Ok([first.value], q + 1)
        else if At(text, q) != ',' then Bad
        else FieldsBehind([first.value], DecodeFields(text, Skip(text, q + 1), depth))
  {
  }

  /** The end of the loop over the items. */
  predicate ListDone(buf: seq<char>, start: nat, data: nat, r: RValue, expected: Result<seq<Json>>) {
    match expected
    case Bad => r == RError
    case Ok(values, end) => data == end && r.RList? && DenoteAll(buf, r.items, values, start, end)
  }

  predicate ObjectDone(buf: seq<char>, start: nat, data: nat, r: RValue, expected: Result<seq<Field>>) {
    match expected
    case Bad => r == RError
    case Ok(fields, end) => data == end && r.RObject? && FieldsAt(buf, r.fields, fields, start, end)
  }

  lemma ItemsGoOn(values: seq<Json>, value: Json, here: Result<seq<Json>>, next: Option<Result<seq<Json>>>)
    requires next.Some? ==> here == ItemsBehind([value], next.value)
    ensures next.Some? ==> ItemsBehind(values, here) == ItemsBehind(values + [value], next.value)
    ensures here.Ok? && here.value == [value] ==> ItemsBehind(values, here) == Ok(values + [value], here.pos)
  {
    if next.Some? {
      BehindMore(values, value, next.value);
    }
  }

  lemma FieldsGoOn(fields: seq<Field>, field: Field, here: Result<seq<Field>>, next: Option<Result<seq<Field>>>)
    requires next.Some? ==> here == FieldsBehind([field], next.value)
    ensures next.Some? ==> FieldsBehind(fields, here) == FieldsBehind(fields + [field], next.value)
    ensures here.Ok? && here.value == [field] ==> FieldsBehind(fields, here) == Ok(fields + [field], here.pos)
  {
    if next.Some? {
      FieldsBehindMore(fields, field, next.value);
    }
  }

  lemma NothingYet(buf: seq<char>, at: nat)
    requires at <= |buf|
    ensures DenoteAll(buf, [], [], at, at) && FieldsAt(buf, [], [], at, at)
  {
  }

  lemma Prefix(a: seq<char>, b: seq<char>, less: nat, more: nat)
    requires less <= more <= |a| == |b| && a[..more] == b[..more]
    ensures a[..less] == b[..less]
  {
    SliceFrame(a, b, 0, more, 0, less);
    assert a[..less] == a[0..less] && b[..less] == b[0..less];
  }

  lemma BehindNothing(rest: Result<seq<Json>>)
    ensures ItemsBehind([], rest) == rest
  {
    if rest.Ok? {
      assert [] + rest.value == rest.value;
    }
  }

  lemma FieldsBehindNothing(rest: Result<seq<Field>>)
    ensures FieldsBehind([], rest) == rest
  {
    if rest.Ok? {
      assert [] + rest.value == rest.value;
    }
  }

  lemma BehindMore(values: seq<Json>, value: Json, rest: Result<seq<Json>>)
    ensures ItemsBehind(values, ItemsBehind([value], rest)) == ItemsBehind(values + [value], rest)
  {
    if rest.Ok? {
      assert values + ([value] + rest.value) == (values + [value]) + rest.value;
    }
  }

  lemma FieldsBehindMore(fields: seq<Field>, field: Field, rest: Result<seq<Field>>)
    ensures FieldsBehind(fields, FieldsBehind([field], rest)) == FieldsBehind(fields + [field], rest)
  {
    if rest.Ok? {
      assert fields + ([field] + rest.value) == (fields + [field]) + rest.value;
    }
  }

  /** The items that were read, and those that come. */
  function ItemsBehind(values: seq<Json>, rest: Result<seq<Json>>): Result<seq<Json>> {
    match rest case Bad => Bad case Ok(more, end) => Ok(values + more, end)
  }

  function FieldsBehind(fields: seq<Field>, rest: Result<seq<Field>>): Result<seq<Field>> {
    match rest case Bad => Bad case Ok(more, end) => Ok(fields + more, end)
  }
}
