/**
  The two multipart parsers of `3rdparty/crow/multipart.h` and `3rdparty/crow/multipart_view.h` agree,
  and both read back the parts that were written (section 5.1.1 of RFC 2046).
 */
module MultipartProof {
  import opened Wrappers
  import opened MultipartSpec

  // ---------------------------------------------------------------- the two parsers

  /** The delimiters of the body, each with two characters behind it, lead to the line break at its end. */
  predicate Ends(body: string, delimiter: string)
    requires delimiter != ""
    decreases |body|
  {
    body == CRLF ||
    (Find(body, delimiter).Some? &&
     var rest := Find(body, delimiter).value + |delimiter| + 2;
     rest <= |body| && Ends(body[rest..], delimiter))
  }

  /** Behind sections that are read, one is too short for the parser on views. */
  predicate MeetsShort(body: string, delimiter: string)
    requires delimiter != ""
    decreases |body|
  {
    body != CRLF && Find(body, delimiter).Some? &&
    var p := Find(body, delimiter).value;
    (p > 0 && Short(body[..p])) ||
    ((p == 0 || ReadSection(body[..p]).Done?) &&
     MeetsShort(Behind(body, Some(p), |delimiter| + 2), delimiter))
  }

  /**
    On every body that its delimiters lead to the end of, the parsers have the same outcome exactly if
    no short section is met: one that is leads the copying parser to a name that is not there, and makes
    the one on views throw.
   */
  lemma {:induction false} ParsersAgree(body: string, delimiter: string)
    requires delimiter != "" && Ends(body, delimiter)
    ensures ViewBody(body, delimiter) == CopyBody(body, delimiter) <==> !MeetsShort(body, delimiter)
    ensures MeetsShort(body, delimiter) ==>
      CopyBody(body, delimiter) == Undefined && ViewBody(body, delimiter) == Thrown
    decreases |body|
  {
    hide CopyBody, ViewBody, ReadSection, Short, Behind, Ends, MeetsShort;
    if body == CRLF {
      BodyEnds(delimiter);
      ShortRound(body, delimiter);
    } else {
      EndsRound(body, delimiter);
      var p := Find(body, delimiter).value;
      CopyRound(body, delimiter);
      ViewRound(body, delimiter);
      ShortRound(body, delimiter);
      BehindIs(body, p, |delimiter| + 2);
      ParsersAgree(body[p + |delimiter| + 2..], delimiter);
      if p > 0 && Short(body[..p]) {
        ShortIsNameless(body[..p]);
      }
    }
  }

  lemma EndsRound(body: string, delimiter: string)
    requires delimiter != "" && body != CRLF && Ends(body, delimiter)
    ensures Find(body, delimiter).Some?
    ensures var rest := Find(body, delimiter).value + |delimiter| + 2;
      rest <= |body| && Ends(body[rest..], delimiter)
  {
  }

  lemma ShortRound(body: string, delimiter: string)
    requires delimiter != ""
    ensures body == CRLF ==> !MeetsShort(body, delimiter)
    ensures body != CRLF && Find(body, delimiter).Some? ==>
      var p := Find(body, delimiter).value;
      MeetsShort(body, delimiter) ==
      ((p > 0 && Short(body[..p])) ||
       ((p == 0 || ReadSection(body[..p]).Done?) &&
        MeetsShort(Behind(body, Some(p), |delimiter| + 2), delimiter)))
  {
    hide ReadSection, Short, Find;
  }

  /** The copying parser takes one character of a short section for the name of a header without a value. */
  lemma ShortIsNameless(section: string)
    requires section != "" && Short(section)
    ensures ReadSection(section) == Undefined && ViewSection(section) == Thrown
  {
    var head := section[..1];
    assert Find(head, CRLF) == None;
    assert Find(head, "; ") == None && Find(head, ": ") == None;
    assert head[1..] == "" && ParseParams("", []) == [];
    assert Before(head, None) == head && Rest(head) == "";
    OneHeader(head);
  }

  lemma OneHeader(head: string)
    requires |head| == 1 && ParseLine(head) == Some(Header(head, "", [])) && Find(head, CRLF) == None
    ensures ParseHead(head) == Some([Header(head, "", [])])
    ensures !SameName(head, DISPOSITION)
  {
    hide ParseLine, Find;
    assert Behind(head, None, 2) == "" && Before(head, None) == head;
    assert ParseHead("") == Some([]);
    assert [Header(head, "", [])] + [] == [Header(head, "", [])];
  }

  /** Elsewhere only the copying parser finds fault: a body that does not end so is never read. */
  lemma {:induction false} NotRead(body: string, delimiter: string)
    requires delimiter != "" && !Ends(body, delimiter)
    ensures !CopyBody(body, delimiter).Done?
    decreases |body|
  {
    hide CopyBody, ReadSection, Behind, Find;
    if Find(body, delimiter).Some? {
      var p := Find(body, delimiter).value;
      CopyRound(body, delimiter);
      if p + |delimiter| + 2 <= |body| {
        BehindIs(body, p, |delimiter| + 2);
        NotRead(body[p + |delimiter| + 2..], delimiter);
      } else {
        NothingBehind(body, p, |delimiter| + 2);
        NothingFound(delimiter);
        CopyRound("", delimiter);
      }
    } else {
      CopyRound(body, delimiter);
    }
  }

  /** One character before the delimiter is enough for the parsers to differ. */
  lemma ShortSection()
    ensures Ends("x--B\r\n\r\n", "--B") && MeetsShort("x--B\r\n\r\n", "--B")
    ensures CopyBody("x--B\r\n\r\n", "--B") == Undefined && ViewBody("x--B\r\n\r\n", "--B") == Thrown
  {
    var body := "x--B\r\n\r\n";
    assert body[0..3][0] == 'x' && body[1..4] == "--B";
    FindIs(body, "--B", 0, 1);
    assert body[1 + 3 + 2..] == CRLF;
    assert body[..1] == "x" && Find("x", BLANK) == None;
    ParsersAgree(body, "--B");
  }

  lemma BehindIs(body: string, p: nat, k: nat)
    requires 0 < k && p + k <= |body|
    ensures Behind(body, Some(p), k) == body[p + k..]
  {
  }

  lemma NothingBehind(body: string, p: nat, k: nat)
    requires 0 < k && p + k > |body|
    ensures Behind(body, Some(p), k) == ""
  {
  }

  lemma CopyRound(body: string, delimiter: string)
    requires delimiter != "" && body != CRLF
    ensures Find(body, delimiter) == None ==> CopyBody(body, delimiter) == Thrown
    ensures Find(body, delimiter).Some? ==>
      var p := Find(body, delimiter).value;
      var rest := Behind(body, Some(p), |delimiter| + 2);
      |rest| < |body| && CopyBody(body, delimiter) ==
      if p == 0 then CopyBody(rest, delimiter) else Prepend(ReadSection(body[..p]), CopyBody(rest, delimiter))
  {
    hide ReadSection;
  }

  lemma ViewRound(body: string, delimiter: string)
    requires delimiter != "" && body != CRLF
    ensures Find(body, delimiter) == None ==> ViewBody(body, delimiter) == Done([])
    ensures Find(body, delimiter).Some? ==>
      var p := Find(body, delimiter).value;
      (p + |delimiter| + 2 > |body| ==> ViewBody(body, delimiter) == Thrown)
      && (p + |delimiter| + 2 <= |body| ==>
            ViewBody(body, delimiter) ==
            var more := ViewBody(body[p + |delimiter| + 2..], delimiter);
            if p == 0 then more else Prepend(ViewSection(body[..p]), more))
  {
    hide ViewSection, Find;
  }

  // ---------------------------------------------------------------- names

  /** The disposition is the header of this name, in any letters. */
  lemma DispositionIs(name: string)
    ensures SameName(name, DISPOSITION) <==>
      |name| == 19
      && forall i :: 0 <= i < 19 ==> name[i] == "content-disposition"[i] || name[i] == "CONTENT-DISPOSITION"[i]
  {
    var small, capital := "content-disposition", "CONTENT-DISPOSITION";
    if |name| == 19 {
      forall i | 0 <= i < 19
        ensures Upper(name[i]) == Upper(DISPOSITION[i]) <==> name[i] == small[i] || name[i] == capital[i]
      {
        assert Upper(small[i]) == Upper(DISPOSITION[i]) == capital[i];
        UpperIs(name[i], small[i], capital[i]);
      }
    }
  }

  lemma UpperIs(c: char, small: char, capital: char)
    requires (small == capital == '-') || ('a' <= small <= 'z' && capital as int == small as int - 32)
    requires !('a' <= capital <= 'z')
    ensures Upper(c) == capital <==> c == small || c == capital
  {
  }

  /** A part with one header is named exactly if that is a disposition with a parameter of the name "name". */
  lemma NamedMeans(name: string, value: string, params: seq<Param>, body: string)
    ensures IsNamed(Part([Header(name, value, params)], body)) <==>
      SameName(name, DISPOSITION) && exists k :: 0 <= k < |params| && params[k].name == "name"
  {
    hide SameName;
    var p := Part([Header(name, value, params)], body);
    assert p.headers[0] == Header(name, value, params);
  }

  // ---------------------------------------------------------------- finding

  /** The text does not occur. */
  predicate Lacks(s: string, pattern: string)
    requires pattern != ""
  {
    Find(s, pattern) == None
  }

  lemma {:induction false} FindIs(s: string, pattern: string, from: nat, p: nat)
    requires pattern != "" && from <= p && HasAt(s, p, pattern)
    requires forall k :: from <= k < p ==> !HasAt(s, k, pattern)
    ensures FindFrom(s, pattern, from) == Some(p)
    decreases p - from
  {
    if from < p {
      FindIs(s, pattern, from + 1, p);
    }
  }

  /**
    The first occurrence is where `pattern` was put, if it is not in the text before and none can lie
    across the seam: some character that ends the text is not in the pattern's front part.
   */
  lemma FoundBehind(text: string, pattern: string, rest: string)
    requires pattern != "" && Lacks(text, pattern) && NoSeam(text, pattern)
    ensures Find(text + (pattern + rest), pattern) == Some(|text|)
  {
    var s := text + (pattern + rest);
    assert s[|text|..|text| + |pattern|] == pattern;
    forall k | 0 <= k < |text| ensures !HasAt(s, k, pattern) {
      if HasAt(s, k, pattern) {
        if k + |pattern| <= |text| {
          assert s[k..k + |pattern|] == text[k..k + |pattern|];
          assert HasAt(text, k, pattern);
        } else {
          SeamHas(text, pattern, rest, k);
        }
        assert false;
      }
    }
    FindIs(s, pattern, 0, |text|);
  }

  /** No end of the text is a beginning of the pattern that the pattern could go on from. */
  predicate NoSeam(text: string, pattern: string) {
    forall n :: 0 < n < |pattern| && n <= |text| ==> !SeamAt(text, pattern, n)
  }

  /** The last `n` characters of the text, and then the pattern, begin with the pattern. */
  predicate SeamAt(text: string, pattern: string, n: nat)
    requires n <= |text| && n < |pattern|
  {
    text[|text| - n..] + pattern[..|pattern| - n] == pattern
  }

  lemma SeamHas(text: string, pattern: string, rest: string, k: nat)
    requires k < |text| < k + |pattern| && HasAt(text + (pattern + rest), k, pattern)
    ensures SeamAt(text, pattern, |text| - k)
  {
    var s, n := text + (pattern + rest), |text| - k;
    assert s[k..k + |pattern|] == text[k..] + pattern[..|pattern| - n];
  }

  /** Two different characters cannot overlap with themselves. */
  lemma NoSeamOfTwo(text: string, pattern: string)
    requires |pattern| <= 2 && (|pattern| == 2 ==> pattern[0] != pattern[1])
    ensures NoSeam(text, pattern)
  {
    forall n | 0 < n < |pattern| && n <= |text| ensures !SeamAt(text, pattern, n) {
      assert (text[|text| - n..] + pattern[..|pattern| - n])[1] == pattern[0];
    }
  }

  lemma FindInFront(text: string, pattern: string, rest: string)
    requires pattern != "" && |pattern| <= 2 && (|pattern| == 2 ==> pattern[0] != pattern[1]) && Lacks(text, pattern)
    ensures Find(text + (pattern + rest), pattern) == Some(|text|)
    ensures (text + (pattern + rest))[..|text|] == text && (text + (pattern + rest))[|text| + |pattern|..] == rest
  {
    NoSeamOfTwo(text, pattern);
    FoundBehind(text, pattern, rest);
  }

  // ---------------------------------------------------------------- parameters and headers

  function ParamText(p: Param): string {
    p.name + ("=\"" + (p.value + "\""))
  }

  predicate GoodParam(p: Param) {
    Lacks(p.name, "=") && Lacks(ParamText(p), "; ")
  }

  predicate NamesDiffer(params: seq<Param>) {
    forall i, j :: 0 <= i < j < |params| ==> params[i].name != params[j].name
  }

  /** A header whose separators are where they belong, without a line break. */
  predicate GoodHeader(h: Header) {
    && Lacks(h.name, ": ") && Lacks(h.name + (": " + h.value), "; ") && Lacks(DumpHeader(h), CRLF)
    && NamesDiffer(h.params) && forall p :: p in h.params ==> GoodParam(p)
  }

  lemma ParamReads(p: Param)
    requires GoodParam(p)
    ensures ParseParam(ParamText(p)) == p
  {
    hide Find, Trim;
    var value := "\"" + (p.value + "\"");
    assert ParamText(p) == p.name + ("=" + value);
    FindInFront(p.name, "=", value);
    QuotesTrimmed(p.value);
  }

  lemma QuotesTrimmed(value: string)
    ensures Trim("\"" + (value + "\"")) == value
  {
  }

  /** The parameters without the separator before the first. */
  function ParamsLine(params: seq<Param>): string {
    if params == [] then "" else ParamText(params[0]) + DumpParams(params[1..])
  }

  lemma DumpedParams(params: seq<Param>)
    ensures DumpParams(params) == if params == [] then "" else "; " + ParamsLine(params)
  {
    if params != [] {
      var p, more := params[0], DumpParams(params[1..]);
      assert "; " + (p.name + ("=\"" + (p.value + ("\"" + more)))) == "; " + (ParamText(p) + more);
    }
  }

  lemma InsertNew(params: seq<Param>, p: Param)
    requires NamesDiffer(params + [p])
    ensures Insert(params, p) == params + [p]
  {
    forall k | 0 <= k < |params| ensures params[k].name != p.name {
      assert (params + [p])[k].name != (params + [p])[|params|].name;
    }
  }

  lemma {:induction false} ParamsRead(params: seq<Param>, before: seq<Param>)
    requires (forall p :: p in params ==> GoodParam(p)) && NamesDiffer(before + params)
    ensures ParseParams(ParamsLine(params), before) == before + params
    decreases |params|
  {
    hide GoodParam, ParamText, DumpParams, Insert, Find, Trim;
    if params == [] {
      assert before + params == before;
    } else {
      var p, rest := params[0], params[1..];
      assert p in params;
      ParamLine(params);
      ParamReads(p);
      NamesDifferFirst(before, params);
      InsertNew(before, p);
      ParamsRead(rest, before + [p]);
      assert before + [p] + rest == before + params;
    }
  }

  lemma NamesDifferFirst(before: seq<Param>, params: seq<Param>)
    requires params != [] && NamesDiffer(before + params)
    ensures NamesDiffer(before + [params[0]]) && before + [params[0]] + params[1..] == before + params
  {
    var all, some := before + params, before + [params[0]];
    forall i, j | 0 <= i < j < |some| ensures some[i].name != some[j].name {
      assert some[i] == all[i] && some[j] == all[j];
    }
  }

  /** The first parameter of a line, and what is behind it. */
  lemma ParamLine(params: seq<Param>)
    requires params != [] && GoodParam(params[0])
    ensures ParamsLine(params) != ""
    ensures Before(ParamsLine(params), Find(ParamsLine(params), "; ")) == ParamText(params[0])
    ensures Rest(ParamsLine(params)) == ParamsLine(params[1..])
  {
    hide Find, ParamText, DumpParams, ParamsLine;
    var t, rest := ParamText(params[0]), params[1..];
    DumpedParams(rest);
    ParamThenRest(params);
    if rest == [] {
      NoParams(rest);
      NoRest(t);
      assert t + "" == t;
    } else {
      FindInFront(t, "; ", ParamsLine(rest));
    }
  }

  lemma ParamThenRest(params: seq<Param>)
    requires params != []
    ensures ParamsLine(params) == ParamText(params[0]) + DumpParams(params[1..]) && ParamText(params[0]) != ""
  {
  }

  lemma HeaderReads(h: Header)
    requires GoodHeader(h)
    ensures ParseLine(DumpHeader(h)) == Some(h)
  {
    hide ParseParams, DumpParams, ParamsLine, Find, ParseLine;
    var text := h.name + (": " + h.value);
    var line := DumpHeader(h);
    assert line == text + DumpParams(h.params);
    DumpedParams(h.params);
    if h.params == [] {
      NoParams(h.params);
      NoRest(text);
      assert line == text;
    } else {
      FindInFront(text, "; ", ParamsLine(h.params));
    }
    FindInFront(h.name, ": ", h.value);
    LineIs(line, text, ParamsLine(h.params), h.name, h.value);
    assert [] + h.params == h.params;
    ParamsRead(h.params, []);
  }

  lemma NoRest(text: string)
    requires Lacks(text, "; ")
    ensures Before(text, Find(text, "; ")) == text && Rest(text) == ""
  {
  }

  lemma LineIs(line: string, text: string, rest: string, name: string, value: string)
    requires line != "" && Before(line, Find(line, "; ")) == text && Rest(line) == rest
    requires Find(text, ": ") == Some(|name|) && text == name + (": " + value)
    ensures ParseLine(line) == Some(Header(name, value, ParseParams(rest, [])))
  {
    hide ParseParams;
    assert text[..|name|] == name && text[|name| + 2..] == value;
  }

  lemma NoParams(params: seq<Param>)
    requires params == []
    ensures ParamsLine(params) == ""
  {
  }

  lemma {:induction false} HeadersRead(headers: seq<Header>)
    requires forall h :: h in headers ==> GoodHeader(h)
    ensures ParseHead(DumpHeaders(headers)) == Some(headers)
    decreases |headers|
  {
    hide GoodHeader, DumpHeader, ParseLine;
    if headers != [] {
      var h, rest := headers[0], headers[1..];
      assert h in headers && [h] + rest == headers;
      HeaderReads(h);
      HeadersRead(rest);
      LineBreaks(h);
      FindInFront(DumpHeader(h), CRLF, DumpHeaders(rest));
    }
  }

  lemma LineBreaks(h: Header)
    requires GoodHeader(h)
    ensures DumpHeader(h) != "" && Lacks(DumpHeader(h), CRLF)
  {
  }

  // ---------------------------------------------------------------- sections

  /** The header lines with a line break between them. */
  function Lines(headers: seq<Header>): string
    requires headers != []
  {
    if |headers| == 1 then DumpHeader(headers[0]) else DumpHeader(headers[0]) + (CRLF + Lines(headers[1..]))
  }

  lemma {:induction false} LinesAre(headers: seq<Header>)
    requires headers != []
    ensures DumpHeaders(headers) == Lines(headers) + CRLF
    decreases |headers|
  {
    if |headers| == 1 {
      assert DumpHeaders(headers[1..]) == "" && CRLF + "" == CRLF;
    } else {
      LinesAre(headers[1..]);
    }
  }

  /** Where a line break occurs behind a line that has none. */
  lemma BreakBehind(line: string, rest: string, k: nat)
    requires Lacks(line, CRLF) && HasAt(line + (CRLF + rest), k, CRLF)
    ensures k == |line| || (k >= |line| + 2 && HasAt(rest, k - |line| - 2, CRLF))
  {
    var s := line + (CRLF + rest);
    assert s[k] == s[k..k + 2][0] == '\r' && s[k + 1] == s[k..k + 2][1] == '\n';
    if k + 2 <= |line| {
      assert s[k..k + 2] == line[k..k + 2];
      assert HasAt(line, k, CRLF);
      assert false;
    } else if k >= |line| + 2 {
      assert s[k..k + 2] == rest[k - |line| - 2..k - |line|];
    }
  }

  /** No line is empty, so two line breaks never follow one another, and the last line ends with none. */
  lemma {:induction false} LinesLackBlank(headers: seq<Header>)
    requires headers != [] && forall h :: h in headers ==> DumpHeader(h) != "" && Lacks(DumpHeader(h), CRLF)
    ensures !HasAt(Lines(headers), 0, CRLF)
    ensures Lacks(Lines(headers), BLANK)
    ensures |Lines(headers)| >= 2 ==> !HasAt(Lines(headers), |Lines(headers)| - 2, CRLF)
    ensures Lines(headers) != ""
    decreases |headers|
  {
    hide DumpHeader;
    var line := DumpHeader(headers[0]);
    assert headers[0] in headers;
    if |headers| == 1 {
      BlankIsBreak(line);
    } else {
      var rest := Lines(headers[1..]);
      LinesLackBlank(headers[1..]);
      LineLacksBlank(line, rest);
    }
  }

  /** A line before lines that have no empty one among them. */
  lemma LineLacksBlank(line: string, rest: string)
    requires line != "" && Lacks(line, CRLF) && rest != "" && Lacks(rest, BLANK) && !HasAt(rest, 0, CRLF)
    requires |rest| >= 2 ==> !HasAt(rest, |rest| - 2, CRLF)
    ensures !HasAt(line + (CRLF + rest), 0, CRLF) && Lacks(line + (CRLF + rest), BLANK)
    ensures !HasAt(line + (CRLF + rest), |line| + |rest|, CRLF)
  {
    hide HasAt, Find;
    var s := line + (CRLF + rest);
    forall k | k >= 0 && HasAt(s, k, CRLF) ensures k != 0 && k + 2 != |s| && !HasAt(s, k + 2, CRLF) {
      BreakBehind(line, rest, k);
      HasAtFits(rest, CRLF);
      if HasAt(s, k + 2, CRLF) {
        BreakBehind(line, rest, k + 2);
        if k > |line| {
          BreakPair(rest, k - |line| - 2);
          LacksMeans(rest, BLANK, k - |line| - 2);
        }
        assert false;
      }
    }
    BreaksApart(s);
  }

  lemma HasAtFits(s: string, pattern: string)
    ensures forall k: nat :: HasAt(s, k, pattern) ==> k + |pattern| <= |s|
  {
  }

  lemma LacksMeans(s: string, pattern: string, k: nat)
    requires pattern != "" && Lacks(s, pattern)
    ensures !HasAt(s, k, pattern)
  {
  }

  lemma BlankIsBreak(line: string)
    requires Lacks(line, CRLF)
    ensures Lacks(line, BLANK)
  {
    if Find(line, BLANK).Some? {
      var k := Find(line, BLANK).value;
      assert line[k..k + 2] == line[k..k + 4][..2];
      assert HasAt(line, k, CRLF);
    }
  }

  lemma BreaksApart(s: string)
    requires forall k :: k >= 0 && HasAt(s, k, CRLF) ==> !HasAt(s, k + 2, CRLF)
    ensures Lacks(s, BLANK)
  {
    if Find(s, BLANK).Some? {
      var k := Find(s, BLANK).value;
      assert s[k..k + 2] == s[k..k + 4][..2] && s[k + 2..k + 4] == s[k..k + 4][2..];
      assert HasAt(s, k, CRLF) && HasAt(s, k + 2, CRLF);
    }
  }

  lemma BreakPair(s: string, k: nat)
    requires HasAt(s, k, CRLF) && HasAt(s, k + 2, CRLF)
    ensures HasAt(s, k, BLANK)
  {
    assert s[k..k + 4] == s[k..k + 2] + s[k + 2..k + 4];
  }

  /** A section that ends its head with an empty line is found to do so there. */
  lemma BlankFound(lines: string, rest: string)
    requires Lacks(lines, BLANK) && (|lines| >= 2 ==> !HasAt(lines, |lines| - 2, CRLF))
    ensures Find(lines + (BLANK + rest), BLANK) == Some(|lines|)
  {
    hide Find, HasAt;
    forall n | 0 < n < 4 && n <= |lines| ensures !SeamAt(lines, BLANK, n) {
      if SeamAt(lines, BLANK, n) {
        SeamOfBlank(lines[|lines| - n..]);
        EndsWithBreak(lines);
        assert false;
      }
    }
    FoundBehind(lines, BLANK, rest);
  }

  lemma SeamOfBlank(tail: string)
    requires 0 < |tail| < 4 && tail + BLANK[..4 - |tail|] == BLANK
    ensures tail == CRLF
  {
    var seam := tail + BLANK[..4 - |tail|];
    assert seam[1] == '\n' && seam[3] == '\n';
    assert |tail| == 2 ==> seam[..2] == tail && BLANK[..2] == CRLF;
  }

  lemma EndsWithBreak(lines: string)
    requires |lines| >= 2 && lines[|lines| - 2..] == CRLF
    ensures HasAt(lines, |lines| - 2, CRLF)
  {
    assert lines[|lines| - 2..|lines|] == lines[|lines| - 2..];
  }

  predicate GoodPart(p: Part) {
    p.headers != [] && forall h :: h in p.headers ==> GoodHeader(h)
  }

  lemma SectionReads(p: Part)
    requires GoodPart(p)
    ensures ParseSection(DumpPart(p)) == Some(p) && |DumpPart(p)| >= 4
    ensures DumpPart(p)[|DumpPart(p)| - 1] == '\n'
  {
    hide GoodHeader, ParseHead, Find, Lines, DumpHeaders, DumpHeader;
    var lines, body := Lines(p.headers), p.body + CRLF;
    LinesAre(p.headers);
    forall h | h in p.headers ensures DumpHeader(h) != "" && Lacks(DumpHeader(h), CRLF) {
      LineBreaks(h);
    }
    LinesLackBlank(p.headers);
    BlankFound(lines, body);
    HeadersRead(p.headers);
    var section := DumpPart(p);
    assert section == lines + (BLANK + body) by {
      assert CRLF + CRLF == BLANK;
      assert lines + CRLF + (CRLF + body) == lines + ((CRLF + CRLF) + body);
    }
    assert section[..|lines| + 2] == lines + CRLF;
    assert section[|lines| + 4..] == body && body[..|body| - 2] == p.body;
  }

  // ---------------------------------------------------------------- bodies

  /** The boundary has no line feed, and the delimiter occurs in no part. */
  predicate Separable(parts: seq<Part>, boundary: string) {
    '\n' !in boundary && forall p :: p in parts ==> GoodPart(p) && Lacks(DumpPart(p), Delimiter(boundary))
  }

  lemma DelimiterFound(section: string, boundary: string, rest: string)
    requires '\n' !in boundary && Lacks(section, Delimiter(boundary))
    requires section != "" ==> section[|section| - 1] == '\n'
    ensures Find(section + (Delimiter(boundary) + rest), Delimiter(boundary)) == Some(|section|)
  {
    var d := Delimiter(boundary);
    forall n | 0 < n < |d| && n <= |section| ensures !SeamAt(section, d, n) {
      assert (section[|section| - n..] + d[..|d| - n])[n - 1] == '\n';
      assert '\n' !in d;
    }
    FoundBehind(section, d, rest);
  }

  /** What is behind a delimiter and the line break after it. */
  function AfterDelimiter(parts: seq<Part>, delimiter: string): string {
    if parts == [] then CRLF else DumpPart(parts[0]) + DumpParts(parts[1..], delimiter)
  }

  lemma DumpedParts(parts: seq<Part>, delimiter: string)
    ensures exists two ::
      |two| == 2 && DumpParts(parts, delimiter) == delimiter + (two + AfterDelimiter(parts, delimiter))
  {
    var two := if parts == [] then "--" else CRLF;
    assert |two| == 2 && DumpParts(parts, delimiter) == delimiter + (two + AfterDelimiter(parts, delimiter));
  }

  /** What is read of the parts: all of them, if each has a name. */
  function Named(parts: seq<Part>): Outcome<seq<Part>> {
    if forall p :: p in parts ==> IsNamed(p) then Done(parts) else Undefined
  }

  lemma NamedFirst(part: Part, rest: seq<Part>)
    ensures Named([part] + rest) == Prepend(if IsNamed(part) then Done(part) else Undefined, Named(rest))
  {
    hide IsNamed;
    var parts := [part] + rest;
    assert parts[0] == part && forall p :: p in rest ==> p in parts;
  }

  lemma {:induction false} BodyReads(parts: seq<Part>, boundary: string)
    requires Separable(parts, boundary)
    ensures CopyBody(AfterDelimiter(parts, Delimiter(boundary)), Delimiter(boundary)) == Named(parts)
    ensures ViewBody(AfterDelimiter(parts, Delimiter(boundary)), Delimiter(boundary)) == Named(parts)
    decreases |parts|
  {
    hide Find, ParseSection, DumpPart, DumpParts, GoodPart, CopyBody, ViewBody, IsNamed, Named;
    var d := Delimiter(boundary);
    var body := AfterDelimiter(parts, d);
    if parts == [] {
      BodyEnds(d);
      NoneNamed();
    } else {
      var part, rest := parts[0], parts[1..];
      assert part in parts && [part] + rest == parts;
      SectionReads(part);
      DumpedParts(rest, d);
      var two :| |two| == 2 && DumpParts(rest, d) == d + (two + AfterDelimiter(rest, d));
      var section, more := DumpPart(part), AfterDelimiter(rest, d);
      DelimiterFound(section, boundary, two + more);
      assert body == section + (d + (two + more));
      assert body[..|section|] == section && body[|section| + |d| + 2..] == more;
      BodyReads(rest, boundary);
      BodyStep(body, d, section, part, more, Named(rest));
      NamedFirst(part, rest);
    }
  }

  lemma NoneNamed()
    ensures Named([]) == Done([])
  {
  }

  lemma BodyEnds(d: string)
    requires d != ""
    ensures CopyBody(CRLF, d) == Done([]) && ViewBody(CRLF, d) == Done([])
  {
  }

  lemma BodyStep(body: string, d: string, section: string, part: Part, rest: string, more: Outcome<seq<Part>>)
    requires d != "" && Find(body, d) == Some(|section|) && |section| >= 3 && |section| + |d| + 2 <= |body|
    requires body[..|section|] == section && ParseSection(section) == Some(part)
    requires body[|section| + |d| + 2..] == rest && CopyBody(rest, d) == more && ViewBody(rest, d) == more
    ensures CopyBody(body, d) == Prepend(if IsNamed(part) then Done(part) else Undefined, more)
    ensures ViewBody(body, d) == Prepend(if IsNamed(part) then Done(part) else Undefined, more)
  {
    hide Find, ParseSection, CopyBody, ViewBody, Short, IsNamed, Behind, Prepend, ReadSection, ViewSection;
    NamedSection(section, part);
    BehindIs(body, |section|, |d| + 2);
    CopyRound(body, d);
    ViewRound(body, d);
  }

  lemma NamedSection(section: string, part: Part)
    requires |section| >= 3 && ParseSection(section) == Some(part)
    ensures ReadSection(section) == ViewSection(section) == if IsNamed(part) then Done(part) else Undefined
  {
    NotShort(section);
  }

  lemma NotShort(section: string)
    requires |section| >= 3
    ensures !Short(section)
  {
  }

  /**
    Messages that can be separated by their boundary: both parsers read back the same headers with the
    same parameters, and the same data, if and only if every part has the parameter that names it; the
    copying one wants a boundary as well.
   */
  lemma DumpReadsBack(parts: seq<Part>, boundary: string)
    requires Separable(parts, boundary)
    ensures CopyMessage(Dump(parts, boundary), boundary) == Done(parts) <==>
      boundary != "" && forall p :: p in parts ==> IsNamed(p)
    ensures ViewMessage(Dump(parts, boundary), boundary) == Done(parts) <==> forall p :: p in parts ==> IsNamed(p)
    ensures CopyMessage(Dump(parts, boundary), boundary) == if boundary == "" then Thrown else Named(parts)
    ensures ViewMessage(Dump(parts, boundary), boundary) == Named(parts)
  {
    hide Find, ParseSection, DumpPart, DumpParts, GoodPart, CopyBody, ViewBody, IsNamed;
    var d := Delimiter(boundary);
    DumpedParts(parts, d);
    var two :| |two| == 2 && DumpParts(parts, d) == d + (two + AfterDelimiter(parts, d));
    var more, body := AfterDelimiter(parts, d), Dump(parts, boundary);
    NothingFound(d);
    DelimiterFound("", boundary, two + more);
    assert "" + (d + (two + more)) == body;
    assert body[|d| + 2..] == more;
    BodyReads(parts, boundary);
    BodyStart(body, d, Named(parts));
  }

  lemma NothingFound(d: string)
    requires d != ""
    ensures Find("", d) == None
  {
  }

  lemma BodyStart(body: string, d: string, more: Outcome<seq<Part>>)
    requires d != "" && Find(body, d) == Some(0) && |d| + 2 <= |body|
    requires CopyBody(body[|d| + 2..], d) == more && ViewBody(body[|d| + 2..], d) == more
    ensures CopyBody(body, d) == more && ViewBody(body, d) == more
  {
    hide Find, ReadSection, CopyBody, ViewBody, Short;
    BehindIs(body, 0, |d| + 2);
    CopyRound(body, d);
    ViewRound(body, d);
  }
}
