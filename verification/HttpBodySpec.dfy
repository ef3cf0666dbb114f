/**
  The body states of `3rdparty/crow/http_parser_merged.h`, one octet at a time: what the parser would
  do if every call handed it a single octet.
 */
module HttpBodySpec {
  import opened Bytes

  datatype State =
    | BODY_IDENTITY | MESSAGE_DONE
    | CHUNK_SIZE_START | CHUNK_SIZE | CHUNK_PARAMETERS | CHUNK_SIZE_ALMOST_DONE
    | CHUNK_DATA | CHUNK_DATA_ALMOST_DONE | CHUNK_DATA_DONE
    | HEADER_FIELD_START | HEADERS_ALMOST_DONE

  /** The parser's errors; the last one stands for leaving the model at a trailer field. */
  datatype Errno = OK | INVALID_EOF_STATE | HEADER_OVERFLOW | STRICT | INVALID_CHUNK_SIZE | INVALID_CONTENT_LENGTH
                 | TRAILER_FIELD

  type uint64 = n: int | 0 <= n < 0x1_0000_0000_0000_0000 witness 0

  const CR: byte := 13
  const LF: byte := 10
  const SP: byte := 32
  const SEMICOLON: byte := 59

  /** The sentinel for "no Content-Length". */
  const ULLONG_MAX: uint64 := 0xFFFF_FFFF_FFFF_FFFF
  const MAX_HEADER_SIZE: nat := 80 * 1024

  /** The parser's fields, with what its callbacks were given: the body so far and the messages completed. */
  datatype Machine = Machine(state: State, contentLength: uint64, nread: nat, trailing: bool, errno: Errno,
                             body: seq<byte>, completes: nat)

  /** The states whose octets count towards the header size. */
  predicate ParsingHeader(s: State) {
    s == CHUNK_SIZE_START || s == CHUNK_SIZE || s == CHUNK_PARAMETERS || s == CHUNK_SIZE_ALMOST_DONE
    || s == HEADER_FIELD_START || s == HEADERS_ALMOST_DONE
  }

  /** The `unhex` table: its upper half holds zeros. */
  function Unhex(ch: byte): (v: int)
    ensures -1 <= v < 16
  {
    if '0' as int <= ch <= '9' as int then ch - '0' as int
    else if 'A' as int <= ch <= 'F' as int then ch - 'A' as int + 10
    else if 'a' as int <= ch <= 'f' as int then ch - 'a' as int + 10
    else if ch >= 0x80 then 0 else -1
  }

  /** A wrapping step of an accumulator. */
  function Accumulate(n: uint64, radix: nat, digit: nat): uint64 {
    (n * radix + digit) % 0x1_0000_0000_0000_0000
  }

  /** The test against the conservative limit. */
  predicate TooLarge(n: uint64, radix: nat)
    requires radix > 0
  {
    (ULLONG_MAX as int - radix) / radix < n
  }

  function Fail(m: Machine, e: Errno): Machine {
    m.(errno := e)
  }

  function AfterAlmostDone(m: Machine, ch: byte): Machine {
    if ch != LF then Fail(m, STRICT) else m.(completes := m.completes + 1)
  }

  function Act(m: Machine, ch: byte): Machine {
    match m.state
    case BODY_IDENTITY =>
      var left := if m.contentLength == 0 then 0 else m.contentLength as int - 1;
      var got := m.(contentLength := left, body := m.body + [ch]);
      if left == 0 then got.(state := MESSAGE_DONE, completes := m.completes + 1) else got
    case MESSAGE_DONE => m.(completes := m.completes + 1)
    case CHUNK_SIZE_START =>
      if Unhex(ch) == -1 then Fail(m, INVALID_CHUNK_SIZE)
      else m.(contentLength := Unhex(ch), state := CHUNK_SIZE)
    case CHUNK_SIZE =>
      if ch == CR then m.(state := CHUNK_SIZE_ALMOST_DONE)
      else if Unhex(ch) == -1 then
        if ch == SEMICOLON || ch == SP then m.(state := CHUNK_PARAMETERS) else Fail(m, INVALID_CHUNK_SIZE)
      else if TooLarge(m.contentLength, 16) then Fail(m, INVALID_CONTENT_LENGTH)
      else m.(contentLength := Accumulate(m.contentLength, 16, Unhex(ch)))
    case CHUNK_PARAMETERS => if ch == CR then m.(state := CHUNK_SIZE_ALMOST_DONE) else m
    case CHUNK_SIZE_ALMOST_DONE =>
      if ch != LF then Fail(m, STRICT)
      else if m.contentLength == 0 then m.(nread := 0, trailing := true, state := HEADER_FIELD_START)
      else m.(nread := 0, state := CHUNK_DATA)
    case CHUNK_DATA =>
      var left := if m.contentLength == 0 then 0 else m.contentLength as int - 1;
      m.(contentLength := left, body := m.body + [ch],
         state := if left == 0 then CHUNK_DATA_ALMOST_DONE else CHUNK_DATA)
    case CHUNK_DATA_ALMOST_DONE => if ch != CR then Fail(m, STRICT) else m.(state := CHUNK_DATA_DONE)
    case CHUNK_DATA_DONE => if ch != LF then Fail(m, STRICT) else m.(nread := 0, state := CHUNK_SIZE_START)
    case HEADER_FIELD_START =>
      if ch == CR then m.(state := HEADERS_ALMOST_DONE)
      else if ch == LF then AfterAlmostDone(m.(state := HEADERS_ALMOST_DONE), ch)
      else Fail(m, TRAILER_FIELD)
    case HEADERS_ALMOST_DONE => AfterAlmostDone(m, ch)
  }

  function Counted(m: Machine): Machine {
    if ParsingHeader(m.state) then m.(nread := m.nread + 1) else m
  }

  /** One octet; nothing happens any more after an error. */
  function Step(m: Machine, ch: byte): Machine {
    if m.errno != OK then m
    else if ParsingHeader(m.state) && m.nread + 1 > MAX_HEADER_SIZE then Fail(Counted(m), HEADER_OVERFLOW)
    else Act(Counted(m), ch)
  }

  function Run(m: Machine, data: seq<byte>): Machine
    decreases |data|
  {
    if data == [] then m else Run(Step(m, data[0]), data[1..])
  }

  /** What the parser's own assertions say of its fields. */
  predicate Asserted(m: Machine) {
    && (m.state == CHUNK_SIZE_START ==> m.nread == 0)
    && (m.state == BODY_IDENTITY || m.state == CHUNK_DATA ==> 0 < m.contentLength < ULLONG_MAX)
    && (m.state == CHUNK_DATA_ALMOST_DONE ==> m.contentLength == 0)
    && ((m.state == HEADER_FIELD_START || m.state == HEADERS_ALMOST_DONE) ==> m.trailing)
    && (m.state == CHUNK_SIZE_ALMOST_DONE || m.state == CHUNK_SIZE || m.state == CHUNK_PARAMETERS ==>
          m.contentLength < ULLONG_MAX)
    && m.nread <= MAX_HEADER_SIZE
  }

  /** Behind the header of a message whose length is given. */
  function IdentityBody(length: uint64): (m: Machine)
    requires 0 < length < ULLONG_MAX
    ensures Asserted(m)
  {
    Machine(BODY_IDENTITY, length, 0, false, OK, [], 0)
  }

  /** Behind the header of a chunked message. */
  function ChunkedBody(): (m: Machine)
    ensures Asserted(m)
  {
    Machine(CHUNK_SIZE_START, ULLONG_MAX, 0, false, OK, [], 0)
  }
}
