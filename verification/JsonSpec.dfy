/**
  The JSON writer and reader of `3rdparty/crow/json.h`: what they write and read, as functions of
  texts. A text is a string of octets.
 */
module JsonSpec {
  import opened Wrappers

  /** A value; a number is its text. */
  datatype Json =
    | Null | False | True | Number(text: string) | Str(s: string) | List(items: seq<Json>)
    | Object(fields: seq<Field>)

  datatype Field = Field(key: string, value: Json)

  const BS: char := 8 as char
  const TAB: char := 9 as char
  const NL: char := 10 as char
  const FF: char := 12 as char
  const CR: char := 13 as char

  // ---------------------------------------------------------------- writing

  function ToHex(c: nat): char
    requires c < 16
  {
    if c < 10 then '0' + c as char else 'a' + (c - 10) as char
  }

  function EscapeChar(c: char): (e: string)
    ensures |e| > 0
  {
    if c == '"' then "\\\""
    else if c == '\\' then "\\\\"
    else if c == NL then "\\n"
    else if c == BS then "\\b"
    else if c == FF then "\\f"
    else if c == CR then "\\r"
    else if c == TAB then "\\t"
    else if c as int < 0x20 then "\\u00" + [ToHex(c as int / 16), ToHex(c as int % 16)]
    else [c]
  }

  function Escape(s: string): string {
    if s == "" then "" else EscapeChar(s[0]) + Escape(s[1..])
  }

  /** `dump`'s arguments; a negative indent writes no white space at all. */
  datatype Style = Style(indent: int, separator: char)

  const COMPACT: Style := Style(-1, ' ')

  function Repeat(c: char, n: nat): (s: string)
    ensures |s| == n && forall i :: 0 <= i < n ==> s[i] == c
  {
    if n == 0 then "" else Repeat(c, n - 1) + [c]
  }

  /** A line break and the indentation behind it. */
  function Break(style: Style, level: nat): string {
    if style.indent < 0 then "" else [NL] + Repeat(style.separator, level * style.indent)
  }

  function DumpString(s: string): string {
    "\"" + Escape(s) + "\""
  }

  /** `dump_internal`. */
  function Dump(v: Json, style: Style, level: nat): string
    decreases v
  {
    match v
    case Null => "null"
    case False => "false"
    case True => "true"
    case Number(text) => text
    case Str(s) => DumpString(s)
    case List(items) =>
      "[" + (Break(style, level + 1) + (DumpItems(items, style, level + 1) + (Break(style, level) + "]")))
    case Object(fields) =>
      "{" + (Break(style, level + 1) + (DumpFields(fields, style, level + 1) + (Break(style, level) + "}")))
  }

  function DumpItems(items: seq<Json>, style: Style, level: nat): string
    decreases items
  {
    if items == [] then ""
    else if |items| == 1 then Dump(items[0], style, level)
    else Dump(items[0], style, level) + ("," + (Break(style, level) + DumpItems(items[1..], style, level)))
  }

  function Colon(style: Style): string {
    if style.indent < 0 then ":" else ": "
  }

  function DumpField(field: Field, style: Style, level: nat): string
    decreases field
  {
    DumpString(field.key) + (Colon(style) + Dump(field.value, style, level))
  }

  function DumpFields(fields: seq<Field>, style: Style, level: nat): string
    decreases fields
  {
    if fields == [] then ""
    else if |fields| == 1 then DumpField(fields[0], style, level)
    else DumpField(fields[0], style, level) + ("," + (Break(style, level) + DumpFields(fields[1..], style, level)))
  }

  // ---------------------------------------------------------------- strings, read

  /** The text is followed by a zero. */
  function At(text: string, pos: nat): char {
    if pos < |text| then text[pos] else '\0'
  }

  predicate IsHex(c: char) {
    '0' <= c <= '9' || 'a' <= c <= 'f' || 'A' <= c <= 'F'
  }

  predicate HexAt(text: string, pos: nat) {
    IsHex(At(text, pos)) && IsHex(At(text, pos + 1)) && IsHex(At(text, pos + 2)) && IsHex(At(text, pos + 3))
  }

  /** The loop of `decode_string`: the closing quote, and whether there were escapes before it. */
  function Scan(text: string, pos: nat, escaped: bool): (r: Option<(nat, bool)>)
    requires pos <= |text|
    ensures r.Some? ==> pos <= r.value.0 < |text|
    decreases |text| - pos
  {
    var c := At(text, pos);
    if c == '"' then Some((pos, escaped))
    else if c == '\0' then None
    else if c != '\\' then Scan(text, pos + 1, escaped)
    else if At(text, pos + 1) == 'u' then
      if HexAt(text, pos + 2) then Scan(text, pos + 6, true) else None
    else if At(text, pos + 1) in "\"\\/bfnrt" then Scan(text, pos + 2, true)
    else None
  }

  function FromHex(c: char): (v: nat)
    ensures IsHex(c) ==> v < 16
  {
    if c >= 'a' then c as int - 'a' as int + 10
    else if c >= 'A' then c as int - 'A' as int + 10
    else if c >= '0' then c as int - '0' as int
    else 0
  }

  /** The octets of a code of four hexadecimal digits, in UTF-8. */
  function Utf8(code: nat): (s: string)
    requires code < 0x10000
    ensures |s| <= 3
  {
    if code >= 0x800 then
      [(0xE0 + code / 0x1000) as char, (0x80 + code / 0x40 % 0x40) as char, (0x80 + code % 0x40) as char]
    else if code >= 0x80 then [(0xC0 + code / 0x40) as char, (0x80 + code % 0x40) as char]
    else [code as char]
  }

  function Code(raw: string, at: nat): (code: nat)
    requires at + 4 <= |raw| && HexAt(raw, at)
    ensures code < 0x10000
  {
    FromHex(raw[at]) * 0x1000 + FromHex(raw[at + 1]) * 0x100 + FromHex(raw[at + 2]) * 0x10 + FromHex(raw[at + 3])
  }

  /** What a single letter behind a backslash stands for. */
  function Letter(c: char): string {
    match c
    case '"' => "\""
    case '\\' => "\\"
    case '/' => "/"
    case 'b' => [BS]
    case 'f' => [FF]
    case 'n' => [NL]
    case 'r' => [CR]
    case 't' => [TAB]
    case _ => ""
  }

  /** The text between two quotes that `decode_string` accepts. */
  predicate WellEscaped(raw: string)
    decreases |raw|
  {
    if raw == "" then true
    else if raw[0] != '\\' then WellEscaped(raw[1..])
    else if |raw| < 2 then false
    else if raw[1] == 'u' then |raw| >= 6 && HexAt(raw, 2) && WellEscaped(raw[6..])
    else raw[1] in "\"\\/bfnrt" && WellEscaped(raw[2..])
  }

  /** `rvalue::unescape`. */
  function Unescape(raw: string): (s: string)
    requires WellEscaped(raw)
    ensures |s| <= |raw|
    decreases |raw|
  {
    if raw == "" then ""
    else if raw[0] != '\\' then [raw[0]] + Unescape(raw[1..])
    else if raw[1] == 'u' then Utf8(Code(raw, 2)) + Unescape(raw[6..])
    else Letter(raw[1]) + Unescape(raw[2..])
  }

  /** What the loop accepts can be unescaped, and without an escape it is the string itself. */
  lemma {:induction false} ScanIsWell(text: string, pos: nat, escaped: bool)
    requires pos <= |text| && Scan(text, pos, escaped).Some?
    ensures var end := Scan(text, pos, escaped).value;
      && WellEscaped(text[pos..end.0])
      && (!end.1 ==> !escaped && Unescape(text[pos..end.0]) == text[pos..end.0])
    decreases |text| - pos
  {
    var c, end := text[pos], Scan(text, pos, escaped).value.0;
    var raw := text[pos..end];
    if c == '"' {
    } else if c != '\\' {
      ScanIsWell(text, pos + 1, escaped);
      assert raw[1..] == text[pos + 1..end];
    } else if text[pos + 1] == 'u' {
      ScanIsWell(text, pos + 6, true);
      assert raw[6..] == text[pos + 6..end];
    } else {
      ScanIsWell(text, pos + 2, true);
      assert raw[2..] == text[pos + 2..end];
    }
  }

  // ---------------------------------------------------------------- numbers, read

  datatype NumberState = MINUS | AFTER_MINUS | ZERO_FIRST | DIGITS | DIGITS_AFTER_POINTS | E | DIGITS_AFTER_E | INVALID

  predicate NumberChar(c: char) {
    '0' <= c <= '9' || c == '.' || c == '-' || c == '+' || c == 'e' || c == 'E'
  }

  function NumberStep(s: NumberState, c: char): NumberState
    requires NumberChar(c)
  {
    match s
    case MINUS =>
      if c == '0' then ZERO_FIRST else if '1' <= c <= '9' then DIGITS else if c == '-' then AFTER_MINUS else INVALID
    case AFTER_MINUS => if c == '0' then ZERO_FIRST else if '1' <= c <= '9' then DIGITS else INVALID
    case ZERO_FIRST => if c == '.' then DIGITS_AFTER_POINTS else INVALID
    case DIGITS =>
      if '0' <= c <= '9' then DIGITS else if c == '.' then DIGITS_AFTER_POINTS
      else if c == 'e' || c == 'E' then NumberState.E else INVALID
    case DIGITS_AFTER_POINTS =>
      if '0' <= c <= '9' then DIGITS_AFTER_POINTS else if c == 'e' || c == 'E' then NumberState.E else INVALID
    case E => if '0' <= c <= '9' || c == '-' || c == '+' then DIGITS_AFTER_E else INVALID
    case DIGITS_AFTER_E => if '0' <= c <= '9' then DIGITS_AFTER_E else INVALID
    case INVALID => INVALID
  }

  predicate NumberEnds(s: NumberState) {
    s == ZERO_FIRST || s == DIGITS || s == DIGITS_AFTER_POINTS || s == DIGITS_AFTER_E
  }

  /** `decode_number` from a state on: where the number ends. */
  function NumberFrom(text: string, pos: nat, s: NumberState): (end: Option<nat>)
    requires pos <= |text|
    ensures end.Some? ==> pos <= end.value <= |text| && (s == MINUS ==> pos < end.value)
    decreases |text| - pos
  {
    if s == INVALID then None
    else if NumberChar(At(text, pos)) then NumberFrom(text, pos + 1, NumberStep(s, text[pos]))
    else if NumberEnds(s) then Some(pos) else None
  }

  // ---------------------------------------------------------------- values, read

  const MAX_DEPTH: nat := 10000

  predicate White(c: char) {
    c == ' ' || c == TAB || c == CR || c == NL
  }

  function Skip(text: string, pos: nat): (r: nat)
    requires pos <= |text|
    ensures pos <= r <= |text|
    decreases |text| - pos
  {
    if White(At(text, pos)) then Skip(text, pos + 1) else pos
  }

  datatype Result<T> = Ok(value: T, pos: nat) | Bad

  predicate Word(text: string, pos: nat, word: string) {
    pos + |word| <= |text| && text[pos..pos + |word|] == word
  }

  /** `decode_string`, and the string that its text stands for. */
  function DecodeString(text: string, pos: nat): (r: Result<string>)
    requires pos <= |text|
    ensures r.Ok? ==> pos < r.pos <= |text|
  {
    if At(text, pos) != '"' then Bad
    else match Scan(text, pos + 1, false)
      case None => Bad
      case Some(end) =>
        ScanIsWell(text, pos + 1, false);
        Ok(Unescape(text[pos + 1..end.0]), end.0 + 1)
  }

  function DecodeValue(text: string, pos: nat, depth: nat): (r: Result<Json>)
    requires pos <= |text|
    ensures r.Ok? ==> pos < r.pos <= |text|
    decreases |text| - pos, 1
  {
    var c := At(text, pos);
    if c == '[' then DecodeList(text, pos, depth + 1)
    else if c == '{' then DecodeObject(text, pos, depth + 1)
    else if c == '"' then match DecodeString(text, pos) case Bad => Bad case Ok(s, end) => Ok(Str(s), end)
    else if c == 't' then if Word(text, pos, "true") then Ok(True, pos + 4) else Bad
    else if c == 'f' then if Word(text, pos, "false") then Ok(False, pos + 5) else Bad
    else if c == 'n' then if Word(text, pos, "null") then Ok(Null, pos + 4) else Bad
    else match NumberFrom(text, pos, MINUS)
      case None => Bad
      case Some(end) => Ok(Number(text[pos..end]), end)
  }

  function DecodeList(text: string, pos: nat, depth: nat): (r: Result<Json>)
    requires pos < |text|
    ensures r.Ok? ==> pos < r.pos <= |text|
    decreases |text| - pos, 0
  {
    if depth > MAX_DEPTH then Bad
    else
      var first := Skip(text, pos + 1);
      if At(text, first) == ']' then Ok(List([]), first + 1)
      else match DecodeItems(text, first, depth)
        case Bad => Bad
        case Ok(items, end) => Ok(List(items), end)
  }

  /** The loop over the items, up to the closing bracket. */
  function DecodeItems(text: string, pos: nat, depth: nat): (r: Result<seq<Json>>)
    requires pos <= |text|
    ensures r.Ok? ==> pos < r.pos <= |text|
    decreases |text| - pos, 2
  {
    match DecodeValue(text, pos, depth + 1)
    case Bad => Bad
    case Ok(v, end) =>
      var q := Skip(text, end);
      if At(text, q) == ']' then Ok([v], q + 1)
      else if At(text, q) != ',' then Bad
      else match DecodeItems(text, Skip(text, q + 1), depth)
        case Bad => Bad
        case Ok(more, last) => Ok([v] + more, last)
  }

  function DecodeObject(text: string, pos: nat, depth: nat): (r: Result<Json>)
    requires pos < |text|
    ensures r.Ok? ==> pos < r.pos <= |text|
    decreases |text| - pos, 0
  {
    if depth > MAX_DEPTH then Bad
    else
      var first := Skip(text, pos + 1);
      if At(text, first) == '}' then Ok(Object([]), first + 1)
      else match DecodeFields(text, first, depth)
        case Bad => Bad
        case Ok(fields, end) => Ok(Object(fields), end)
  }

  /** A key, a colon and a value. */
  function DecodeField(text: string, pos: nat, depth: nat): (r: Result<Field>)
    requires pos <= |text|
    ensures r.Ok? ==> pos < r.pos <= |text|
    decreases |text| - pos, 2
  {
    match DecodeString(text, pos)
    case Bad => Bad
    case Ok(key, end) =>
      var colon := Skip(text, end);
      if At(text, colon) != ':' then Bad
      else match DecodeValue(text, Skip(text, colon + 1), depth + 1)
        case Bad => Bad
        case Ok(v, last) => Ok(Field(key, v), last)
  }

  function DecodeFields(text: string, pos: nat, depth: nat): (r: Result<seq<Field>>)
    requires pos <= |text|
    ensures r.Ok? ==> pos < r.pos <= |text|
    decreases |text| - pos, 3
  {
    match DecodeField(text, pos, depth)
    case Bad => Bad
    case Ok(field, end) =>
      var q := Skip(text, end);
      if At(text, q) == '}' then Ok([field], q + 1)
      else if At(text, q) != ',' then Bad
      else match DecodeFields(text, Skip(text, q + 1), depth)
        case Bad => Bad
        case Ok(more, last) => Ok([field] + more, last)
  }

  /** `load`: one value, and nothing but white space around it. */
  function Load(text: string): Option<Json> {
    match DecodeValue(text, Skip(text, 0), 0)
    case Bad => None
    case Ok(v, end) => if At(text, Skip(text, end)) == '\0' then Some(v) else None
  }
}
