/**
  The loops of `3rdparty/crow/multipart.h` and `3rdparty/crow/multipart_view.h`: the text that is read is
  taken off the front of `body`, `lines` and `line`, and what it says is put behind `parts`.
 */
module Multipart {
  import opened Wrappers
  import opened MultipartSpec
  import opened MultipartProof

  /** `parse_section_head`, the same in both; `None` for an exception. */
  method ParseSectionHead(head: string) returns (headers: Option<seq<Header>>)
    ensures headers == ParseHead(head)
  {
    var lines, done := head, [];
    var ok := true;
    JoinedNothing(ParseHead(lines));
    while lines != "" && ok
      invariant ok ==> ParseHead(head) == Joined(done, ParseHead(lines))
      invariant !ok ==> ParseHead(head) == None
      decreases |lines|
    {
      hide ParseLine, Find, ParseHead;
      HeadStep(lines);
      var found := Find(lines, CRLF);
      var line := Before(lines, found);
      var h := ParseHeaderLine(line);
      lines := Erase(lines, found, 2);
      if h == None {
        ok := false;
      } else {
        JoinedMore(done, h.value, ParseHead(lines));
        done := done + [h.value];
      }
    }
    headers := if ok then Some(done) else None;
    assert done + [] == done;
  }

  function Joined(done: seq<Header>, more: Option<seq<Header>>): Option<seq<Header>> {
    match more case None => None case Some(hs) => Some(done + hs)
  }

  lemma JoinedNothing(more: Option<seq<Header>>)
    ensures Joined([], more) == more
  {
    if more.Some? {
      assert [] + more.value == more.value;
    }
  }

  lemma HeadStep(lines: string)
    requires lines != ""
    ensures var found := Find(lines, CRLF);
      |Behind(lines, found, 2)| < |lines| && ParseHead(lines) ==
      match ParseLine(Before(lines, found))
      case None => None
      case Some(h) => Joined([h], ParseHead(Behind(lines, found, 2)))
  {
    hide ParseLine;
  }

  lemma JoinedMore(done: seq<Header>, h: Header, more: Option<seq<Header>>)
    ensures Joined(done, Joined([h], more)) == Joined(done + [h], more)
  {
    if more.Some? {
      assert done + ([h] + more.value) == done + [h] + more.value;
    }
  }

  /** One header line: the name and value, and then the parameters. */
  method ParseHeaderLine(text: string) returns (h: Option<Header>)
    ensures h == ParseLine(text)
  {
    hide Find, ParseParam, ParseParams, Insert, ParseLine;
    LineParts(text);
    var line := text;
    if line == "" {
      h := Some(Header("", "", []));
    } else {
      var found := Find(line, "; ");
      var header := Before(line, found);
      line := Rest(line);
      var split := Find(header, ": ");
      if split == None && header == "" {
        h := None;
      } else {
        var name := Before(header, split);
        var value := if split.Some? then header[split.value + 2..] else header[1..];
        var params := [];
        while line != ""
          invariant ParseParams(line, params) == ParseParams(Rest(text), [])
          decreases |line|
        {
          ParamsStep(line, params);
          var param := ReadParam(Before(line, Find(line, "; ")));
          params := Emplace(params, param);
          line := Rest(line);
        }
        ParamsEnd(params);
        h := Some(Header(name, value, params));
      }
    }
  }

  lemma LineParts(line: string)
    ensures line == "" ==> ParseLine(line) == Some(Header("", "", []))
    ensures line != "" ==>
      var header := Before(line, Find(line, "; "));
      var split := Find(header, ": ");
      ParseLine(line) ==
      if split.None? && header == "" then None
      else Some(Header(Before(header, split), if split.Some? then header[split.value + 2..] else header[1..],
                       ParseParams(Rest(line), [])))
  {
    hide ParseParams;
  }

  lemma ParamsStep(line: string, params: seq<Param>)
    requires line != ""
    ensures ParseParams(line, params) ==
            ParseParams(Rest(line), Insert(params, ParseParam(Before(line, Find(line, "; ")))))
  {
  }

  lemma ParamsEnd(params: seq<Param>)
    ensures ParseParams("", params) == params
  {
  }

  // ---------------------------------------------------------------- texts, as the code cuts them

  /** `erase(0, found + k)`, in 64 bits: behind `npos` the sum wraps. */
  method Erase(s: string, found: Option<nat>, k: nat) returns (rest: string)
    requires 0 < k && (found == None ==> k < 0x1_0000_0000_0000_0000)
    ensures rest == Behind(s, found, k)
  {
    var count := match found case None => (0xFFFF_FFFF_FFFF_FFFF + k) % 0x1_0000_0000_0000_0000 case Some(p) => p + k;
    rest := if count < |s| then s[count..] else "";
  }

  /** A parameter without the quotes around its value. */
  method ReadParam(text: string) returns (param: Param)
    ensures param == ParseParam(text)
  {
    hide Find;
    var split := Find(text, "=");
    var name, value := text, text;
    if split.Some? {
      name, value := text[..split.value], text[split.value + 1..];
    }
    if |value| > 1 && value[0] == '"' && value[|value| - 1] == '"' {
      value := value[1..|value| - 1];
    }
    param := Param(name, value);
  }

  /** `emplace` in a map: a name that is there stays as it is. */
  method Emplace(params: seq<Param>, p: Param) returns (more: seq<Param>)
    ensures more == Insert(params, p)
  {
    var there := false;
    for i := 0 to |params|
      invariant there <==> exists k :: 0 <= k < i && params[k].name == p.name
    {
      there := there || params[i].name == p.name;
    }
    more := if there then params else params + [p];
  }

  // ---------------------------------------------------------------- writing

  /** `message::dump`. */
  method DumpMessage(parts: seq<Part>, boundary: string) returns (str: string)
    ensures str == Dump(parts, boundary)
  {
    hide DumpPart, DumpParts;
    var delimiter := "--" + boundary;
    str := "";
    assert parts[0..] == parts && "" + DumpParts(parts, delimiter) == DumpParts(parts, delimiter);
    for i := 0 to |parts|
      invariant str + DumpParts(parts[i..], delimiter) == Dump(parts, boundary)
    {
      DumpFirst(parts, i, delimiter, str);
      var part := DumpOne(parts[i]);
      str := str + delimiter + "\r\n" + part;
    }
    DumpLast(parts[|parts|..], delimiter, str);
    str := str + delimiter + "--" + "\r\n";
  }

  lemma DumpFirst(parts: seq<Part>, i: nat, delimiter: string, before: string)
    requires i < |parts|
    ensures before + DumpParts(parts[i..], delimiter) ==
            before + delimiter + "\r\n" + DumpPart(parts[i]) + DumpParts(parts[i + 1..], delimiter)
  {
    hide DumpPart;
    assert parts[i..][0] == parts[i] && parts[i..][1..] == parts[i + 1..];
  }

  lemma DumpLast(none: seq<Part>, delimiter: string, before: string)
    requires none == []
    ensures before + DumpParts(none, delimiter) == before + delimiter + "--" + "\r\n"
  {
  }

  /** `dump` of one part: its headers with their parameters, an empty line, and the data. */
  method DumpOne(part: Part) returns (str: string)
    ensures str == DumpPart(part)
  {
    hide DumpHeader, DumpHeaders;
    str := "";
    var headers := part.headers;
    assert headers[0..] == headers && "" + DumpHeaders(headers) == DumpHeaders(headers);
    for i := 0 to |headers|
      invariant str + DumpHeaders(headers[i..]) == DumpHeaders(headers)
    {
      HeadersFirst(headers, i, str);
      var line := DumpLine(headers[i]);
      str := str + line + "\r\n";
    }
    HeadersLast(headers[|headers|..], str);
    str := str + "\r\n" + part.body + "\r\n";
  }

  lemma HeadersFirst(headers: seq<Header>, i: nat, before: string)
    requires i < |headers|
    ensures before + DumpHeaders(headers[i..]) ==
            before + DumpHeader(headers[i]) + "\r\n" + DumpHeaders(headers[i + 1..])
  {
    hide DumpHeader;
    assert headers[i..][0] == headers[i] && headers[i..][1..] == headers[i + 1..];
  }

  lemma HeadersLast(none: seq<Header>, before: string)
    requires none == []
    ensures before + DumpHeaders(none) == before
  {
  }

  method DumpLine(h: Header) returns (str: string)
    ensures str == DumpHeader(h)
  {
    str := h.name + ": " + h.value;
    var params := h.params;
    assert params[0..] == params;
    for i := 0 to |params|
      invariant str + DumpParams(params[i..]) == DumpHeader(h)
    {
      ParamsFirst(params, i, str);
      str := str + "; " + params[i].name + "=" + ("\"" + params[i].value + "\"");
    }
  }

  lemma ParamsFirst(params: seq<Param>, i: nat, before: string)
    requires i < |params|
    ensures before + DumpParams(params[i..]) ==
            before + "; " + params[i].name + "=" + ("\"" + params[i].value + "\"") + DumpParams(params[i + 1..])
  {
    assert params[i..][0] == params[i] && params[i..][1..] == params[i + 1..];
  }

  /** What a call that changes `parts` may end with. */
  datatype Ending = FINISHED | THREW | WENT_UNDEFINED

  function EndOf<T>(outcome: Outcome<T>): Ending {
    match outcome case Done(_) => FINISHED case Thrown => THREW case Undefined => WENT_UNDEFINED
  }

  class Message {
    var parts: seq<Part>

    constructor ()
      ensures parts == []
    {
      parts := [];
    }

    /** The section's part goes behind the others, if it has a name to be found by. */
    method Add(section: string) returns (ending: Ending)
      modifies this
      ensures ending == EndOf(ReadSection(section))
      ensures parts == if ending.FINISHED? then old(parts) + [ReadSection(section).value] else old(parts)
    {
      hide ParseHead, IsNamed;
      var found := Find(section, BLANK);
      var head := if found.Some? then section[..found.value + 2] else section[..Min(1, |section|)];
      var rest := Erase(section, found, 4);
      var headers := ParseSectionHead(head);
      if headers == None {
        ending := THREW;
      } else {
        var part := Part(headers.value, if |rest| < 2 then rest else rest[..|rest| - 2]);
        if IsNamed(part) {
          parts := parts + [part];
          ending := FINISHED;
        } else {
          ending := WENT_UNDEFINED;
        }
      }
    }

    /** `parse_body` of the copying parser. */
    method ParseBody(text: string, delimiter: string) returns (ending: Ending)
      requires delimiter != ""
      modifies this
      ensures ending == EndOf(CopyBody(text, delimiter))
      ensures ending.FINISHED? ==> parts == old(parts) + CopyBody(text, delimiter).value
    {
      hide CopyBody, ReadSection, Find;
      var body := text;
      ending := FINISHED;
      ghost var start := parts;
      while body != CRLF && ending.FINISHED?
        invariant ending.FINISHED? ==> Extends(start, CopyBody(text, delimiter), parts, CopyBody(body, delimiter))
        invariant !ending.FINISHED? ==> ending == EndOf(CopyBody(text, delimiter))
        decreases |body|, ending.FINISHED?
      {
        CopyRound(body, delimiter);
        var found := Find(body, delimiter);
        if found == None {
          ending := THREW;
        } else {
          var section := body[..found.value];
          body := Erase(body, found, |delimiter| + 2);
          if section != "" {
            OneMore(start, CopyBody(text, delimiter), parts, ReadSection(section), CopyBody(body, delimiter));
            ending := Add(section);
          }
        }
      }
      if ending.FINISHED? {
        CopyEnds(delimiter);
      }
    }

    /** `parse_body` of the parser on views, which leaves the loop where it finds no delimiter. */
    method ParseViewBody(text: string, delimiter: string) returns (ending: Ending)
      requires delimiter != ""
      modifies this
      ensures ending == EndOf(ViewBody(text, delimiter))
      ensures ending.FINISHED? ==> parts == old(parts) + ViewBody(text, delimiter).value
    {
      hide ViewBody, ReadSection, Find, Short;
      var body := text;
      ending := FINISHED;
      var stopped := false;
      ghost var start := parts;
      while body != CRLF && ending.FINISHED? && !stopped
        invariant ending.FINISHED? ==> Extends(start, ViewBody(text, delimiter), parts, ViewBody(body, delimiter))
        invariant stopped ==> ending.FINISHED? && ViewBody(body, delimiter) == Done([])
        invariant !ending.FINISHED? ==> ending == EndOf(ViewBody(text, delimiter))
        decreases |body|, ending.FINISHED?, !stopped
      {
        ViewRound(body, delimiter);
        var found := Find(body, delimiter);
        if found == None {
          stopped := true;
        } else if found.value + |delimiter| + 2 > |body| {
          ending := THREW;
        } else {
          var section := body[..found.value];
          body := body[found.value + |delimiter| + 2..];
          if section != "" {
            OneMore(start, ViewBody(text, delimiter), parts, ViewSection(section), ViewBody(body, delimiter));
            if IsShort(section) {
              ending := THREW;
            } else {
              ending := Add(section);
            }
          }
        }
      }
      if ending.FINISHED? {
        ViewEnds(delimiter);
      }
    }
  }

  /** Whether `section.substr(3)` is out of range, where no empty line is. */
  predicate IsShort(section: string)
    ensures IsShort(section) == Short(section)
  {
    Find(section, BLANK) == None && |section| < 3
  }

  /** The whole is what has been read and what is still to be read. */
  ghost predicate Extends(start: seq<Part>, whole: Outcome<seq<Part>>, done: seq<Part>, more: Outcome<seq<Part>>) {
    EndOf(whole) == EndOf(more) && (more.Done? ==> start + whole.value == done + more.value)
  }

  lemma OneMore(start: seq<Part>, whole: Outcome<seq<Part>>, done: seq<Part>, part: Outcome<Part>,
                more: Outcome<seq<Part>>)
    requires Extends(start, whole, done, Prepend(part, more))
    ensures part.Done? ==> Extends(start, whole, done + [part.value], more)
    ensures !part.Done? ==> EndOf(part) == EndOf(whole)
  {
    if part.Done? && more.Done? {
      assert done + ([part.value] + more.value) == done + [part.value] + more.value;
    }
  }

  lemma CopyEnds(delimiter: string)
    requires delimiter != ""
    ensures CopyBody(CRLF, delimiter) == Done([])
  {
  }

  lemma ViewEnds(delimiter: string)
    requires delimiter != ""
    ensures ViewBody(CRLF, delimiter) == Done([])
  {
  }

  /** The constructor from a request; it refuses an empty boundary. */
  method FromRequest(body: string, boundary: string) returns (ending: Ending, parts: seq<Part>)
    ensures ending == EndOf(CopyMessage(body, boundary))
    ensures ending.FINISHED? ==> parts == CopyMessage(body, boundary).value
  {
    hide CopyBody;
    var message := new Message();
    if boundary == "" {
      ending := THREW;
    } else {
      ending := message.ParseBody(body, "--" + boundary);
    }
    parts := message.parts;
  }

  /** The constructor of a view from a request; an empty boundary leaves the two hyphens as delimiter. */
  method ViewOfRequest(body: string, boundary: string) returns (ending: Ending, parts: seq<Part>)
    ensures ending == EndOf(ViewMessage(body, boundary))
    ensures ending.FINISHED? ==> parts == ViewMessage(body, boundary).value
  {
    hide ViewBody;
    var message := new Message();
    ending := message.ParseViewBody(body, "--" + boundary);
    parts := message.parts;
  }

  /** Parts written and read again by either parser: they come back if and only if each has a name. */
  method RoundTrip(parts: seq<Part>, boundary: string)
    returns (copying: Ending, copied: seq<Part>, viewing: Ending, viewed: seq<Part>)
    requires Separable(parts, boundary) && boundary != ""
    ensures copying.FINISHED? && copied == parts <==> forall p :: p in parts ==> IsNamed(p)
    ensures viewing.FINISHED? && viewed == parts <==> forall p :: p in parts ==> IsNamed(p)
  {
    DumpReadsBack(parts, boundary);
    hide Separable, CopyMessage, ViewMessage, Dump, IsNamed;
    var str := DumpMessage(parts, boundary);
    copying, copied := FromRequest(str, boundary);
    viewing, viewed := ViewOfRequest(str, boundary);
  }
}
