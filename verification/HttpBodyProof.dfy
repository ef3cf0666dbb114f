/**
  What the body states of `3rdparty/crow/http_parser_merged.h` make of a body: the parser's assertions
  hold at every octet, and a well-formed body (sections 3.3.3 and 4.1 of RFC 7230) is decoded.
 */
module HttpBodyProof {
  import opened Bytes
  import opened HttpBodySpec
  import opened Numerals

  // ---------------------------------------------------------------- every step

  /** The accumulator tests leave room: nothing wraps, and the sentinel is never reached. */
  lemma AccumulateIsExact(n: uint64, radix: nat, digit: nat)
    requires digit < radix && (radix == 10 || radix == 16) && !TooLarge(n, radix)
    ensures Accumulate(n, radix, digit) == n * radix + digit < ULLONG_MAX
  {
    assert radix == 10 || radix == 16;
  }

  /** No octet can break what the parser asserts, whatever it is. */
  lemma StepKeeps(m: Machine, ch: byte)
    requires m.errno == OK && Asserted(m)
    ensures Step(m, ch).errno == OK ==> Asserted(Step(m, ch))
  {
    hide Act, Unhex;
    if !(ParsingHeader(m.state) && m.nread + 1 > MAX_HEADER_SIZE) {
      if m.state == CHUNK_SIZE {
        DigitKeeps(m, ch);
      } else {
        ActKeeps(m, ch);
      }
    }
  }

  lemma DigitKeeps(m: Machine, ch: byte)
    requires m.errno == OK && Asserted(m) && m.state == CHUNK_SIZE && m.nread < MAX_HEADER_SIZE
    ensures Act(Counted(m), ch).errno == OK ==> Asserted(Act(Counted(m), ch))
  {
    hide Unhex, Accumulate, TooLarge;
    if Unhex(ch) != -1 && !TooLarge(m.contentLength, 16) {
      AccumulateIsExact(m.contentLength, 16, Unhex(ch));
    }
  }

  lemma ActKeeps(m: Machine, ch: byte)
    requires m.errno == OK && Asserted(m) && m.state != CHUNK_SIZE
    requires ParsingHeader(m.state) ==> m.nread < MAX_HEADER_SIZE
    ensures Act(Counted(m), ch).errno == OK ==> Asserted(Act(Counted(m), ch))
  {
    hide Accumulate, TooLarge;
  }

  lemma {:induction false} RunKeeps(m: Machine, data: seq<byte>)
    requires m.errno == OK && Asserted(m)
    ensures Run(m, data).errno == OK ==> Asserted(Run(m, data))
    decreases |data|
  {
    if data != [] {
      if Step(m, data[0]).errno == OK {
        StepKeeps(m, data[0]);
        RunKeeps(Step(m, data[0]), data[1..]);
      } else {
        RunFailed(Step(m, data[0]), data[1..]);
      }
    }
  }

  lemma {:induction false} RunFailed(m: Machine, data: seq<byte>)
    requires m.errno != OK
    ensures Run(m, data) == m
  {
    if data != [] {
      RunFailed(m, data[1..]);
    }
  }

  lemma {:induction false} RunBoth(m: Machine, a: seq<byte>, b: seq<byte>)
    ensures Run(m, a + b) == Run(Run(m, a), b)
    decreases |a|
  {
    if a == [] {
      assert a + b == b;
    } else {
      assert (a + b)[1..] == a[1..] + b;
      RunBoth(Step(m, a[0]), a[1..], b);
    }
  }

  // ---------------------------------------------------------------- stretches of data

  lemma {:induction false} RunChunkData(m: Machine, data: seq<byte>)
    requires m.errno == OK && m.state == CHUNK_DATA && |data| <= m.contentLength && m.contentLength > 0
    ensures Run(m, data) == m.(contentLength := m.contentLength as int - |data|, body := m.body + data,
                               state := if |data| == m.contentLength then CHUNK_DATA_ALMOST_DONE else CHUNK_DATA)
    decreases |data|
  {
    if data == [] {
      assert m.body + data == m.body;
    } else {
      assert m.body + [data[0]] + data[1..] == m.body + data;
      if m.contentLength > 1 {
        RunChunkData(Step(m, data[0]), data[1..]);
      }
    }
  }

  lemma {:induction false} RunIdentity(m: Machine, data: seq<byte>)
    requires m.errno == OK && m.state == BODY_IDENTITY && |data| <= m.contentLength && m.contentLength > 0
    ensures Run(m, data) == if |data| < m.contentLength
      then m.(contentLength := m.contentLength as int - |data|, body := m.body + data)
      else m.(contentLength := 0, body := m.body + data, state := MESSAGE_DONE, completes := m.completes + 1)
    decreases |data|
  {
    if data == [] {
      assert m.body + data == m.body;
    } else {
      assert m.body + [data[0]] + data[1..] == m.body + data;
      if m.contentLength > 1 {
        RunIdentity(Step(m, data[0]), data[1..]);
      }
    }
  }

  // ---------------------------------------------------------------- a chunk

  function Octets(s: string): (b: seq<byte>)
    requires forall i :: 0 <= i < |s| ==> s[i] <= '~'
    ensures |b| == |s| && forall i :: 0 <= i < |b| ==> b[i] == s[i] as int
  {
    if s == "" then [] else [s[0] as int] + Octets(s[1..])
  }

  /** The table knows the digits and the letters, small and capital, and no other octet of its lower half. */
  lemma UnhexIs(ch: byte)
    ensures forall d, capital :: 0 <= d < 16 && HexDigit(d, capital) as int == ch ==> Unhex(ch) == d
    ensures ch < 0x80 && Unhex(ch) != -1 ==> exists d, capital :: 0 <= d < 16 && HexDigit(d, capital) as int == ch
    ensures ch >= 0x80 ==> Unhex(ch) == 0
  {
    if ch < 0x80 && Unhex(ch) != -1 {
      assert HexDigit(Unhex(ch), false) as int == ch || HexDigit(Unhex(ch), true) as int == ch;
    }
  }

  /** The octets of a hexadecimal numeral. */
  function HexOctets(n: nat, capitals: seq<bool>): (b: seq<byte>)
    ensures |b| == |capitals|
  {
    Octets(Hexadecimal(n, capitals))
  }

  lemma HexOctetsLast(n: nat, capitals: seq<bool>)
    requires capitals != []
    ensures var k := |capitals| - 1;
      HexOctets(n, capitals) == HexOctets(n / 16, capitals[..k]) + [HexDigit(n % 16, capitals[k]) as int]
  {
  }

  /** The digits of a number are read as that number. */
  lemma {:induction false} HexIsRead(n: nat, capitals: seq<bool>)
    requires HasDigits(n, 16, |capitals|)
    ensures HexDigits(HexOctets(n, capitals)) && HexFrom(0, HexOctets(n, capitals)) == n
    decreases |capitals|
  {
    hide Hexadecimal, HexDigit, Unhex;
    if capitals == [] {
      NoHex();
    } else {
      var k := |capitals| - 1;
      var last: byte := HexDigit(n % 16, capitals[k]) as int;
      HexIsRead(n / 16, capitals[..k]);
      HexOctetsLast(n, capitals);
      UnhexIs(last);
      HexLast(0, HexOctets(n / 16, capitals[..k]), last);
    }
  }

  lemma NoHex()
    ensures HexOctets(0, []) == []
  {
  }

  lemma {:induction false} HexLast(m: nat, s: seq<byte>, last: byte)
    requires HexDigits(s) && Unhex(last) != -1
    ensures HexDigits(s + [last]) && HexFrom(m, s + [last]) == HexFrom(m, s) * 16 + Unhex(last)
    decreases |s|
  {
    if s == [] {
      assert [last][1..] == [] && s + [last] == [last];
    } else {
      assert (s + [last])[1..] == s[1..] + [last];
      HexLast(m * 16 + Unhex(s[0]), s[1..], last);
    }
  }

  /**
    A chunk: which letters of its size are capitals, with a digit for each, what follows on the line,
    and the data.
   */
  datatype Chunk = Chunk(capitals: seq<bool>, extension: seq<byte>, data: seq<byte>)

  predicate HexDigits(s: seq<byte>) {
    s == [] || (Unhex(s[0]) != -1 && HexDigits(s[1..]))
  }

  function HexFrom(n: nat, s: seq<byte>): (v: nat)
    requires HexDigits(s)
    ensures v >= n
    decreases |s|
  {
    if s == [] then n else HexFrom(n * 16 + Unhex(s[0]), s[1..])
  }

  /** Anything but a carriage return may follow a ';' or a space. */
  predicate Extension(s: seq<byte>) {
    s == [] || ((s[0] == ';' as int || s[0] == ' ' as int) && '\r' as int !in s)
  }

  const CRLF: seq<byte> := ['\r' as int, '\n' as int]

  /** The largest size of a line is that of 80 kilobytes of header. */
  predicate Fits(width: nat, extension: seq<byte>) {
    Extension(extension) && width + |extension| + 2 <= 81920
  }

  /** A size line that the parser accepts: the size in 64 bits, the line within the header limit. */
  predicate SizeLine(size: seq<byte>, extension: seq<byte>) {
    size != [] && HexDigits(size) && HexFrom(0, size) / 16 <= (ULLONG_MAX as int - 16) / 16 && Fits(|size|, extension)
  }

  /** Data whose length has the digits, below the limit of the parser, and a size line within the header limit. */
  predicate WellFormed(c: Chunk) {
    && HasDigits(|c.data|, 16, |c.capitals|) && 0 < |c.data| < 0xFFFF_FFFF_FFFF_FFF0
    && Fits(|c.capitals|, c.extension)
  }

  lemma WellFormedIsRead(n: nat, capitals: seq<bool>, extension: seq<byte>)
    requires HasDigits(n, 16, |capitals|) && n < 0xFFFF_FFFF_FFFF_FFF0 && capitals != [] && Fits(|capitals|, extension)
    ensures SizeLine(HexOctets(n, capitals), extension) && HexFrom(0, HexOctets(n, capitals)) == n
  {
    HexIsRead(n, capitals);
  }

  function Line(size: seq<byte>, extension: seq<byte>): seq<byte> {
    size + extension + CRLF
  }

  function ChunkOctets(c: Chunk): seq<byte> {
    Line(HexOctets(|c.data|, c.capitals), c.extension) + c.data + CRLF
  }

  lemma {:induction false} HexGrows(n: nat, s: seq<byte>)
    requires HexDigits(s) && s != []
    ensures n <= HexFrom(n, s) / 16
    decreases |s|
  {
    if |s| > 1 {
      HexGrows(n * 16 + Unhex(s[0]), s[1..]);
    } else {
      assert s[1..] == [];
    }
  }

  /** The rest of the digits: the accumulator is exact, and an error comes exactly if the value is too large. */
  lemma {:induction false} RunDigits(m: Machine, s: seq<byte>)
    requires m.errno == OK && m.state == CHUNK_SIZE && HexDigits(s)
    requires m.nread + |s| <= MAX_HEADER_SIZE
    ensures s == [] || HexFrom(m.contentLength, s) / 16 <= (ULLONG_MAX as int - 16) / 16 ==>
      HexFrom(m.contentLength, s) < 0x1_0000_0000_0000_0000
      && Run(m, s) == m.(contentLength := HexFrom(m.contentLength, s), nread := m.nread + |s|)
    ensures s != [] && HexFrom(m.contentLength, s) / 16 > (ULLONG_MAX as int - 16) / 16 ==>
      Run(m, s).errno == INVALID_CONTENT_LENGTH
    decreases |s|
  {
    if s != [] {
      var next := Step(m, s[0]);
      HexGrows(m.contentLength, s);
      if TooLarge(m.contentLength, 16) {
        RunFailed(next, s[1..]);
      } else {
        AccumulateIsExact(m.contentLength, 16, Unhex(s[0]));
        RunDigits(next, s[1..]);
      }
    }
  }

  lemma {:induction false} RunParameters(m: Machine, s: seq<byte>)
    requires m.errno == OK && m.state == CHUNK_PARAMETERS && CR !in s && m.nread + |s| <= MAX_HEADER_SIZE
    ensures Run(m, s) == m.(nread := m.nread + |s|)
    decreases |s|
  {
    if s != [] {
      RunParameters(Step(m, s[0]), s[1..]);
    }
  }

  lemma RunOne(m: Machine, data: seq<byte>, p: nat)
    requires p < |data|
    ensures Run(m, data[p..p + 1]) == Step(m, data[p])
  {
    assert data[p..p + 1][1..] == [];
  }

  lemma RunPair(m: Machine, a: byte, b: byte)
    ensures Run(m, [a, b]) == Step(Step(m, a), b)
  {
    var last: seq<byte> := [b];
    assert [a, b][1..] == last && last[1..] == [];
    assert Run(m, [a, b]) == Run(Step(m, a), last) == Run(Step(Step(m, a), b), []);
  }

  /** Where a size line ends: before the data, or before the trailer if the size is zero. */
  function BehindLine(m: Machine, length: uint64): Machine {
    if length == 0 then m.(contentLength := 0, nread := 0, trailing := true, state := HEADER_FIELD_START)
    else m.(contentLength := length, nread := 0, state := CHUNK_DATA)
  }

  /** The whole size line. */
  lemma RunLine(m: Machine, size: seq<byte>, extension: seq<byte>)
    requires m.errno == OK && m.state == CHUNK_SIZE_START && m.nread == 0 && SizeLine(size, extension)
    ensures HexFrom(0, size) < 0x1_0000_0000_0000_0000
    ensures Run(m, Line(size, extension)) == BehindLine(m, HexFrom(0, size))
  {
    hide Step, HexFrom, Extension, Run;
    var sized := Run(m, size);
    RunSize(m, size, extension);
    RunExtension(sized, extension);
    RunBoth(m, size, extension);
    RunBoth(m, size + extension, CRLF);
    RunPair(Run(sized, extension), CR, LF);
    LineBreak(Run(sized, extension));
  }

  lemma LineBreak(m: Machine)
    requires m.errno == OK && (m.state == CHUNK_SIZE || m.state == CHUNK_PARAMETERS) && m.nread + 2 <= MAX_HEADER_SIZE
    ensures Step(Step(m, CR), LF) == BehindLine(m, m.contentLength)
  {
  }

  lemma RunSize(m: Machine, size: seq<byte>, extension: seq<byte>)
    requires m.errno == OK && m.state == CHUNK_SIZE_START && m.nread == 0 && SizeLine(size, extension)
    ensures HexFrom(0, size) < 0x1_0000_0000_0000_0000
    ensures Run(m, size) == m.(state := CHUNK_SIZE, contentLength := HexFrom(0, size), nread := |size|)
  {
    HexGrows(0, size);
    RunDigits(Step(m, size[0]), size[1..]);
  }

  lemma RunExtension(m: Machine, s: seq<byte>)
    requires m.errno == OK && m.state == CHUNK_SIZE && Extension(s) && m.nread + |s| <= MAX_HEADER_SIZE
    ensures Run(m, s) == m.(nread := m.nread + |s|, state := if s == [] then CHUNK_SIZE else CHUNK_PARAMETERS)
  {
    if s != [] {
      assert Step(m, s[0]) == m.(nread := m.nread + 1, state := CHUNK_PARAMETERS);
      RunParameters(Step(m, s[0]), s[1..]);
      assert Run(m, s) == Run(Step(m, s[0]), s[1..]);
    } else {
      assert Run(m, s) == m;
    }
  }

  /** A chunk adds its data to the body, and the parser waits for the next one. */
  lemma RunChunk(m: Machine, c: Chunk)
    requires m.errno == OK && m.state == CHUNK_SIZE_START && m.nread == 0 && WellFormed(c)
    ensures Run(m, ChunkOctets(c)) == m.(contentLength := 0, body := m.body + c.data)
  {
    hide HexOctets, SizeLine, HasDigits, Step, Run, Fits;
    var line := Line(HexOctets(|c.data|, c.capitals), c.extension);
    assert c.capitals != [] by {
      NoDigits(|c.data|);
    }
    WellFormedIsRead(|c.data|, c.capitals, c.extension);
    RunLine(m, HexOctets(|c.data|, c.capitals), c.extension);
    var begun := BehindLine(m, |c.data|);
    RunChunkData(begun, c.data);
    RunBoth(m, line, c.data);
    RunBoth(m, line + c.data, CRLF);
    RunPair(Run(begun, c.data), CR, LF);
    DataBreak(Run(begun, c.data));
  }

  lemma DataBreak(m: Machine)
    requires m.errno == OK && m.state == CHUNK_DATA_ALMOST_DONE
    ensures Step(Step(m, CR), LF) == m.(nread := 0, state := CHUNK_SIZE_START)
  {
  }

  lemma NoDigits(n: nat)
    ensures HasDigits(n, 16, 0) <==> n == 0
  {
  }

  // ---------------------------------------------------------------- a body

  function ChunksOctets(chunks: seq<Chunk>): seq<byte> {
    if chunks == [] then [] else ChunkOctets(chunks[0]) + ChunksOctets(chunks[1..])
  }

  function Data(chunks: seq<Chunk>): seq<byte> {
    if chunks == [] then [] else chunks[0].data + Data(chunks[1..])
  }

  /** A chunked body without a trailer: the chunks, a line of as many zeros as one likes, an empty line. */
  function BodyOctets(chunks: seq<Chunk>, zeros: nat, extension: seq<byte>): seq<byte> {
    ChunksOctets(chunks) + Line(HexOctets(0, seq(zeros, _ => false)), extension) + CRLF
  }

  lemma {:induction false} RunChunks(m: Machine, chunks: seq<Chunk>)
    requires m.errno == OK && m.state == CHUNK_SIZE_START && m.nread == 0
    requires forall c :: c in chunks ==> WellFormed(c)
    ensures Run(m, ChunksOctets(chunks)) ==
            m.(contentLength := if chunks == [] then m.contentLength else 0, body := m.body + Data(chunks))
    decreases |chunks|
  {
    hide ChunkOctets, WellFormed, Step;
    if chunks == [] {
      assert m.body + Data(chunks) == m.body;
    } else {
      var c, rest := chunks[0], chunks[1..];
      RunChunk(m, c);
      var next := Run(m, ChunkOctets(c));
      RunChunks(next, rest);
      RunBoth(m, ChunkOctets(c), ChunksOctets(rest));
      assert m.body + c.data + Data(rest) == m.body + Data(chunks);
    }
  }

  /** Every well-formed chunked body is decoded into the data of its chunks, as one message. */
  lemma ChunkedBodyIsDecoded(chunks: seq<Chunk>, zeros: nat, extension: seq<byte>)
    requires forall c :: c in chunks ==> WellFormed(c)
    requires zeros > 0 && Fits(zeros, extension)
    ensures var m := Run(ChunkedBody(), BodyOctets(chunks, zeros, extension));
      m.errno == OK && m.body == Data(chunks) && m.completes == 1
  {
    hide HexOctets, SizeLine, HasDigits;
    var start := ChunkedBody();
    var size := HexOctets(0, seq(zeros, _ => false));
    ZeroHasDigits(zeros);
    WellFormedIsRead(0, seq(zeros, _ => false), extension);
    RunChunks(start, chunks);
    var m := Run(start, ChunksOctets(chunks));
    assert start.body + Data(chunks) == Data(chunks);
    RunLine(m, size, extension);
    RunBoth(start, ChunksOctets(chunks), Line(size, extension));
    RunBoth(start, ChunksOctets(chunks) + Line(size, extension), CRLF);
    RunPair(BehindLine(m, 0), CR, LF);
  }

  lemma {:induction false} ZeroHasDigits(width: nat)
    ensures HasDigits(0, 16, width) && HasDigits(0, 10, width)
  {
    if width > 0 {
      ZeroHasDigits(width - 1);
    }
  }

  /** A body whose length was given is those octets, as one message. */
  lemma IdentityBodyIsDecoded(data: seq<byte>)
    requires 0 < |data| < ULLONG_MAX
    ensures var m := Run(IdentityBody(|data|), data);
      m.errno == OK && m.body == data && m.completes == 1
  {
    RunIdentity(IdentityBody(|data|), data);
  }

  // ---------------------------------------------------------------- the limit of a line

  /** Until a carriage return comes, every octet of a size line counts. */
  lemma {:induction false} RunCounts(m: Machine, s: seq<byte>)
    requires m.errno == OK && '\r' as int !in s && m.nread <= MAX_HEADER_SIZE
    requires m.state == CHUNK_SIZE_START || m.state == CHUNK_SIZE || m.state == CHUNK_PARAMETERS
    ensures Run(m, s).errno == OK ==> Run(m, s).nread == m.nread + |s| <= MAX_HEADER_SIZE
    decreases |s|
  {
    hide Unhex, Accumulate, TooLarge;
    if s != [] {
      var next := Step(m, s[0]);
      assert s[0] in s;
      if next.errno == OK {
        RunCounts(next, s[1..]);
      } else {
        RunFailed(next, s[1..]);
      }
    }
  }

  /** A size line that goes on for more than 80 kilobytes is an error, whatever it says. */
  lemma LineIsTooLong(m: Machine, s: seq<byte>)
    requires m.errno == OK && m.state == CHUNK_SIZE_START && m.nread == 0
    requires '\r' as int !in s && |s| > 81920
    ensures Run(m, s).errno != OK
  {
    RunCounts(m, s);
  }

  // ---------------------------------------------------------------- the end of a message

  /** Behind a complete message only these states come. */
  predicate Settled(m: Machine) {
    m.errno == OK && m.completes > 0 ==> m.state == MESSAGE_DONE || m.state == HEADERS_ALMOST_DONE
  }

  lemma {:induction false} RunSettles(m: Machine, data: seq<byte>)
    requires Settled(m)
    ensures Settled(Run(m, data)) && Run(m, data).completes >= m.completes
    decreases |data|
  {
    if data != [] {
      RunSettles(Step(m, data[0]), data[1..]);
    }
  }

  /** A message that ended as one message with the last octet had not ended before. */
  lemma NotCompleteBefore(start: Machine, first: seq<byte>, rest: seq<byte>)
    requires start.completes == 0 && rest != []
    requires Run(start, first + rest).errno == OK && Run(start, first + rest).completes == 1
    ensures Run(start, first).errno == OK && Run(start, first).completes == 0
  {
    var m := Run(start, first);
    RunBoth(start, first, rest);
    if m.errno != OK {
      RunFailed(m, rest);
    } else {
      RunSettles(start, first);
      if m.completes > 0 {
        var next := Step(m, rest[0]);
        if next.errno != OK {
          RunFailed(next, rest[1..]);
        } else {
          RunSettles(next, rest[1..]);
        }
      }
    }
  }

  // ---------------------------------------------------------------- Content-Length

  datatype LengthState = START | NUM | WS

  /** The accumulator of the `Content-Length` header, `None` for an error. */
  datatype LengthReader = Reading(state: LengthState, n: uint64) | Refused

  function LengthStep(r: LengthReader, ch: byte): LengthReader {
    match r
    case Refused => Refused
    case Reading(state, n) =>
      var digit := ch as int - '0' as int;
      if state == WS then if ch == SP then r else Refused
      else if state == NUM && ch == SP then Reading(WS, n)
      else if !(0 <= digit <= 9) then Refused
      else if state == START then Reading(NUM, digit)
      else if TooLarge(n, 10) then Refused
      else Reading(NUM, Accumulate(n, 10, digit))
  }

  function ReadLength(r: LengthReader, value: seq<byte>): LengthReader
    decreases |value|
  {
    if value == [] then r else ReadLength(LengthStep(r, value[0]), value[1..])
  }

  predicate Digits(s: seq<byte>) {
    s == [] || (0 <= s[0] as int - '0' as int <= 9 && Digits(s[1..]))
  }

  function DecimalFrom(n: nat, s: seq<byte>): (v: nat)
    requires Digits(s)
    ensures v >= n
    decreases |s|
  {
    if s == [] then n else DecimalFrom(n * 10 + (s[0] as int - '0' as int), s[1..])
  }

  predicate Spaces(s: seq<byte>) {
    s == [] || (s[0] == SP && Spaces(s[1..]))
  }

  lemma {:induction false} DecimalGrows(n: nat, s: seq<byte>)
    requires Digits(s) && s != []
    ensures n <= DecimalFrom(n, s) / 10
    decreases |s|
  {
    if |s| > 1 {
      DecimalGrows(n * 10 + (s[0] as int - '0' as int), s[1..]);
    } else {
      assert s[1..] == [];
    }
  }

  lemma {:induction false} ReadRefused(value: seq<byte>)
    ensures ReadLength(Refused, value) == Refused
    decreases |value|
  {
    if value != [] {
      ReadRefused(value[1..]);
    }
  }

  lemma {:induction false} ReadSpaces(n: uint64, value: seq<byte>)
    ensures ReadLength(Reading(WS, n), value) == if Spaces(value) then Reading(WS, n) else Refused
    decreases |value|
  {
    if value != [] {
      if value[0] == SP {
        ReadSpaces(n, value[1..]);
      } else {
        ReadRefused(value[1..]);
      }
    }
  }

  /** Digits are read exactly unless their value, without its last digit, is over the limit. */
  lemma {:induction false} ReadDigits(n: uint64, digits: seq<byte>, spaces: seq<byte>)
    requires Digits(digits) && Spaces(spaces) && n < ULLONG_MAX
    ensures digits == [] || DecimalFrom(n, digits) / 10 <= (ULLONG_MAX as int - 10) / 10 ==>
      DecimalFrom(n, digits) < ULLONG_MAX
    ensures ReadLength(Reading(NUM, n), digits + spaces) ==
      if digits == [] || DecimalFrom(n, digits) / 10 <= (ULLONG_MAX as int - 10) / 10
      then Reading(if spaces == [] then NUM else WS, DecimalFrom(n, digits)) else Refused
    decreases |digits|
  {
    var value := digits + spaces;
    if digits == [] {
      assert value == spaces;
      if spaces != [] {
        ReadSpaces(n, spaces[1..]);
      }
    } else {
      assert value[1..] == digits[1..] + spaces;
      DecimalGrows(n, digits);
      if TooLarge(n, 10) {
        ReadRefused(value[1..]);
      } else {
        AccumulateIsExact(n, 10, digits[0] as int - '0' as int);
        ReadDigits(Accumulate(n, 10, digits[0] as int - '0' as int), digits[1..], spaces);
      }
    }
  }

  /**
    A `Content-Length` of digits, with spaces behind them, is read as its value exactly if the value
    without its last digit is within the limit; it never wraps and never is the sentinel.
   */
  lemma LengthIsExact(digits: seq<byte>, spaces: seq<byte>)
    requires Digits(digits) && digits != [] && Spaces(spaces)
    ensures |digits| == 1 || DecimalFrom(0, digits) / 10 <= (ULLONG_MAX as int - 10) / 10 ==>
      DecimalFrom(0, digits) < ULLONG_MAX
    ensures ReadLength(Reading(START, ULLONG_MAX), digits + spaces) ==
      if |digits| == 1 || DecimalFrom(0, digits) / 10 <= (ULLONG_MAX as int - 10) / 10
      then Reading(if spaces == [] then NUM else WS, DecimalFrom(0, digits)) else Refused
  {
    hide ReadLength, DecimalFrom;
    FirstDigit(digits, spaces);
    ReadDigits(digits[0] as int - '0' as int, digits[1..], spaces);
  }

  lemma FirstDigit(digits: seq<byte>, spaces: seq<byte>)
    requires Digits(digits) && digits != []
    ensures DecimalFrom(0, digits) == DecimalFrom(digits[0] as int - '0' as int, digits[1..])
    ensures |digits| == 1 ==> DecimalFrom(0, digits) == digits[0] as int - '0' as int
    ensures ReadLength(Reading(START, ULLONG_MAX), digits + spaces) ==
            ReadLength(Reading(NUM, digits[0] as int - '0' as int), digits[1..] + spaces)
  {
    assert (digits + spaces)[1..] == digits[1..] + spaces;
  }

  // ---------------------------------------------------------------- Content-Length, as numerals

  function DecimalOctets(n: nat, width: nat): (b: seq<byte>)
    ensures |b| == width
  {
    Octets(Decimal(n, width))
  }

  lemma DecimalOctetsLast(n: nat, width: nat)
    requires width > 0
    ensures DecimalOctets(n, width) == DecimalOctets(n / 10, width - 1) + [DecimalDigit(n % 10) as int]
  {
  }

  lemma {:induction false} DecimalIsRead(n: nat, width: nat)
    requires HasDigits(n, 10, width)
    ensures Digits(DecimalOctets(n, width)) && DecimalFrom(0, DecimalOctets(n, width)) == n
  {
    hide Decimal;
    if width == 0 {
      NoDecimal();
    } else {
      DecimalIsRead(n / 10, width - 1);
      DecimalOctetsLast(n, width);
      DecimalLast(0, DecimalOctets(n / 10, width - 1), n % 10);
    }
  }

  lemma NoDecimal()
    ensures DecimalOctets(0, 0) == []
  {
  }

  lemma {:induction false} DecimalLast(m: nat, s: seq<byte>, d: nat)
    requires Digits(s) && d < 10
    ensures var last: byte := DecimalDigit(d) as int;
      Digits(s + [last]) && DecimalFrom(m, s + [last]) == DecimalFrom(m, s) * 10 + d
    decreases |s|
  {
    var last: byte := DecimalDigit(d) as int;
    if s == [] {
      assert [last][1..] == [] && s + [last] == [last];
    } else {
      assert (s + [last])[1..] == s[1..] + [last];
      DecimalLast(m * 10 + (s[0] as int - '0' as int), s[1..], d);
    }
  }

  /**
    The numeral of any number, with zeros before it and spaces behind it: the number is read if it is
    less than the largest multiple of ten in 64 bits or has one digit, and else refused.
   */
  lemma NumeralIsRead(n: nat, width: nat, spaces: seq<byte>)
    requires width > 0 && HasDigits(n, 10, width) && (forall i :: 0 <= i < |spaces| ==> spaces[i] == ' ' as int)
    ensures ReadLength(Reading(START, ULLONG_MAX), DecimalOctets(n, width) + spaces) ==
      if n < 18446744073709551610 then Reading(if spaces == [] then NUM else WS, n) else Refused
  {
    hide ReadLength, DecimalOctets, DecimalFrom, Digits;
    DecimalIsRead(n, width);
    AllSpaces(spaces);
    LengthIsExact(DecimalOctets(n, width), spaces);
    OneDigit(n);
  }

  lemma OneDigit(n: nat)
    ensures HasDigits(n, 10, 1) ==> n < 10
  {
    assert HasDigits(n, 10, 1) ==> HasDigits(n / 10, 10, 0);
  }

  lemma {:induction false} AllSpaces(spaces: seq<byte>)
    requires forall i :: 0 <= i < |spaces| ==> spaces[i] == ' ' as int
    ensures Spaces(spaces)
  {
    if spaces != [] {
      AllSpaces(spaces[1..]);
    }
  }
}
