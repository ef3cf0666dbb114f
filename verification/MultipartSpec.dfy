/**
  Multipart bodies of `3rdparty/crow/multipart.h` and `3rdparty/crow/multipart_view.h`: how parts are
  written, and what the copying parser and the one on views read.
 */
module MultipartSpec {
  import opened Wrappers

  datatype Param = Param(name: string, value: string)

  /** A header with its parameters, in the order of the maps they are kept in. */
  datatype Header = Header(name: string, value: string, params: seq<Param>)

  datatype Part = Part(headers: seq<Header>, body: string)

  const CRLF: string := "\r\n"
  const BLANK: string := "\r\n\r\n"

  // ---------------------------------------------------------------- writing

  function DumpParams(params: seq<Param>): string {
    if params == [] then ""
    else "; " + (params[0].name + ("=\"" + (params[0].value + ("\"" + DumpParams(params[1..])))))
  }

  function DumpHeader(h: Header): string {
    h.name + (": " + (h.value + DumpParams(h.params)))
  }

  function DumpHeaders(headers: seq<Header>): string {
    if headers == [] then "" else DumpHeader(headers[0]) + (CRLF + DumpHeaders(headers[1..]))
  }

  function DumpPart(p: Part): string {
    DumpHeaders(p.headers) + (CRLF + (p.body + CRLF))
  }

  function DumpParts(parts: seq<Part>, delimiter: string): string {
    if parts == [] then delimiter + ("--" + CRLF)
    else delimiter + (CRLF + (DumpPart(parts[0]) + DumpParts(parts[1..], delimiter)))
  }

  function Delimiter(boundary: string): string {
    "--" + boundary
  }

  /** `message::dump`. */
  function Dump(parts: seq<Part>, boundary: string): string {
    DumpParts(parts, Delimiter(boundary))
  }

  // ---------------------------------------------------------------- strings

  predicate HasAt(s: string, i: nat, pattern: string) {
    i + |pattern| <= |s| && s[i..i + |pattern|] == pattern
  }

  /** The first occurrence from `i` on; `None` for `npos`. */
  function FindFrom(s: string, pattern: string, i: nat): (found: Option<nat>)
    requires pattern != ""
    ensures found.Some? ==> i <= found.value && HasAt(s, found.value, pattern)
    ensures found.Some? ==> forall k :: i <= k < found.value ==> !HasAt(s, k, pattern)
    ensures found.None? ==> forall k :: i <= k ==> !HasAt(s, k, pattern)
    decreases |s| - i
  {
    if i + |pattern| > |s| then None
    else if HasAt(s, i, pattern) then Some(i)
    else FindFrom(s, pattern, i + 1)
  }

  function Find(s: string, pattern: string): (found: Option<nat>)
    requires pattern != ""
    ensures found.Some? ==> HasAt(s, found.value, pattern)
  {
    FindFrom(s, pattern, 0)
  }

  function Min(a: nat, b: nat): nat {
    if a < b then a else b
  }

  /** `substr(0, found)`. */
  function Before(s: string, found: Option<nat>): string
    requires found.Some? ==> found.value <= |s|
  {
    match found case None => s case Some(p) => s[..p]
  }

  /** `erase(0, found + k)`; `npos + k` wraps to `k - 1`. */
  function Behind(s: string, found: Option<nat>, k: nat): string
    requires k > 0
  {
    match found case None => s[Min(k - 1, |s|)..] case Some(p) => s[Min(p + k, |s|)..]
  }

  // ---------------------------------------------------------------- reading a section

  function Trim(s: string): string {
    if |s| > 1 && s[0] == '"' && s[|s| - 1] == '"' then s[1..|s| - 1] else s
  }

  function ParseParam(param: string): Param {
    var split := Find(param, "=");
    Param(Before(param, split), Trim(match split case None => param case Some(p) => param[p + 1..]))
  }

  /** A map takes a name only once. */
  function Insert(params: seq<Param>, p: Param): seq<Param> {
    if exists k :: 0 <= k < |params| && params[k].name == p.name then params else params + [p]
  }

  /** What is behind the first "; ", or nothing. */
  function Rest(line: string): (rest: string)
    ensures line != "" ==> |rest| < |line|
  {
    match Find(line, "; ") case None => "" case Some(p) => line[p + 2..]
  }

  function ParseParams(line: string, params: seq<Param>): seq<Param>
    decreases |line|
  {
    if line == "" then params
    else ParseParams(Rest(line), Insert(params, ParseParam(Before(line, Find(line, "; ")))))
  }

  /** A header line; `None` where a position is out of range. */
  function ParseLine(line: string): Option<Header> {
    if line == "" then Some(Header("", "", []))
    else
      var header := Before(line, Find(line, "; "));
      var split := Find(header, ": ");
      if split.None? && header == "" then None
      else
        Some(Header(Before(header, split), match split case None => header[1..] case Some(p) => header[p + 2..],
                    ParseParams(Rest(line), [])))
  }

  /** `parse_section_head`. */
  function ParseHead(lines: string): Option<seq<Header>>
    decreases |lines|
  {
    if lines == "" then Some([])
    else
      var found := Find(lines, CRLF);
      match ParseLine(Before(lines, found))
      case None => None
      case Some(h) =>
        match ParseHead(Behind(lines, found, 2))
        case None => None
        case Some(more) => Some([h] + more)
  }

  /** `parse_section`: the header lines, and the rest without its last two characters. */
  function ParseSection(section: string): Option<Part> {
    var found := Find(section, BLANK);
    var rest := Behind(section, found, 4);
    match ParseHead(match found case None => section[..Min(1, |section|)] case Some(p) => section[..p + 2])
    case None => None
    case Some(headers) => Some(Part(headers, if |rest| < 2 then rest else rest[..|rest| - 2]))
  }

  // ---------------------------------------------------------------- reading a body

  /** How reading ends: with a value, with an exception, or where the code's behaviour is undefined. */
  datatype Outcome<+T> = Done(value: T) | Thrown | Undefined

  function Upper(c: char): char {
    if 'a' <= c <= 'z' then (c as int - 32) as char else c
  }

  /** Names of headers are compared without case. */
  predicate SameName(a: string, b: string) {
    |a| == |b| && forall i :: 0 <= i < |a| ==> Upper(a[i]) == Upper(b[i])
  }

  const DISPOSITION: string := "Content-Disposition"

  predicate HasParam(h: Header, name: string) {
    exists k :: 0 <= k < |h.params| && h.params[k].name == name
  }

  /**
    The part's disposition has the parameter that names the part. Which of several dispositions the map
    would find is not specified, so each of them must have it.
   */
  predicate IsNamed(p: Part) {
    && (exists k :: 0 <= k < |p.headers| && SameName(p.headers[k].name, DISPOSITION))
    && forall k :: 0 <= k < |p.headers| && SameName(p.headers[k].name, DISPOSITION) ==> HasParam(p.headers[k], "name")
  }

  /** What `parse_body` makes of a section: the name's iterator is used whether or not there is a name. */
  function ReadSection(section: string): Outcome<Part> {
    match ParseSection(section)
    case None => Thrown
    case Some(p) => if IsNamed(p) then Done(p) else Undefined
  }

  /** A part and the parts after it; what goes wrong first decides. */
  function Prepend(part: Outcome<Part>, more: Outcome<seq<Part>>): Outcome<seq<Part>> {
    match part
    case Thrown => Thrown
    case Undefined => Undefined
    case Done(p) => match more case Done(ps) => Done([p] + ps) case _ => more
  }

  /** `parse_body` of the copying parser. */
  function CopyBody(body: string, delimiter: string): Outcome<seq<Part>>
    requires delimiter != ""
    decreases |body|
  {
    if body == CRLF then Done([])
    else match Find(body, delimiter)
      case None => Thrown
      case Some(p) =>
        var more := CopyBody(Behind(body, Some(p), |delimiter| + 2), delimiter);
        if p == 0 then more else Prepend(ReadSection(body[..p]), more)
  }

  /** A section on which a view is asked for a position behind its end. */
  predicate Short(section: string) {
    Find(section, BLANK) == None && |section| < 3
  }

  function ViewSection(section: string): Outcome<Part> {
    if Short(section) then Thrown else ReadSection(section)
  }

  /** `parse_body` of the parser on views: it stops where no delimiter is. */
  function ViewBody(body: string, delimiter: string): Outcome<seq<Part>>
    requires delimiter != ""
    decreases |body|
  {
    if body == CRLF then Done([])
    else match Find(body, delimiter)
      case None => Done([])
      case Some(p) =>
        if p + |delimiter| + 2 > |body| then Thrown
        else
          var more := ViewBody(body[p + |delimiter| + 2..], delimiter);
          if p == 0 then more else Prepend(ViewSection(body[..p]), more)
  }

  /** A message made from a request: only the copying one refuses an empty boundary. */
  function CopyMessage(body: string, boundary: string): Outcome<seq<Part>> {
    if boundary == "" then Thrown else CopyBody(body, Delimiter(boundary))
  }

  function ViewMessage(body: string, boundary: string): Outcome<seq<Part>> {
    ViewBody(body, Delimiter(boundary))
  }
}
