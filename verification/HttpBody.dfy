/**
  The byte loop of `http_parser_execute` in `3rdparty/crow/http_parser_merged.h`, from the start of a
  body on. It takes data in stretches and hands them over by a mark into the buffer of the call.
 */
module HttpBody {
  import opened Wrappers
  import opened Bytes
  import opened HttpBodySpec
  import opened HttpBodyProof

  /** The octets from the mark up to `p`, which no callback has seen yet. */
  function Marked(data: seq<byte>, mark: Option<nat>, p: nat): seq<byte>
    requires p <= |data| && (mark.Some? ==> mark.value <= p)
  {
    match mark case None => [] case Some(k) => data[k..p]
  }

  lemma MarkedIs(data: seq<byte>, k: nat, p: nat, body: seq<byte>)
    requires k <= p <= |data|
    ensures Marked(data, Some(k), p) == data[k..p] && Marked(data, None, p) == []
    ensures body + data[k..p] + [] == body + data[k..p]
  {
  }

  lemma MarkGrows(data: seq<byte>, mark: Option<nat>, p: nat, next: nat, body: seq<byte>)
    requires p <= next <= |data| && (mark.Some? ==> mark.value <= p)
    ensures body + Marked(data, mark, p) + data[p..next] ==
            body + Marked(data, if mark == None then Some(p) else mark, next)
  {
    if mark.Some? {
      assert data[mark.value..p] + data[p..next] == data[mark.value..next];
    }
  }

  /** A round goes on from where the last one stopped, and keeps what the parser asserts. */
  lemma RunOn(start: Machine, before: Machine, data: seq<byte>, p: nat, next: nat)
    requires p <= next <= |data| && before == Run(start, data[..p])
    ensures Run(start, data[..next]) == Run(before, data[p..next])
    ensures before.errno == OK && Asserted(before) && Run(start, data[..next]).errno == OK ==>
            Asserted(Run(start, data[..next]))
  {
    assert data[..next] == data[..p] + data[p..next];
    RunBoth(start, data[..p], data[p..next]);
    if before.errno == OK && Asserted(before) {
      RunKeeps(before, data[p..next]);
    }
  }

  /** Where the loop stops is where the octets one at a time would stop. */
  lemma Behind(start: Machine, data: seq<byte>, p: nat, errno: Errno, ahead: Machine)
    requires p <= |data|
    requires errno == OK ==> p == |data| && ahead == Run(start, data[..p])
    requires errno != OK ==> p < |data| && ahead == Run(start, data[..p + 1]) && ahead.errno != OK
    ensures ahead == Run(start, data)
  {
    if errno == OK {
      assert data[..p] == data;
    } else {
      assert data == data[..p + 1] + data[p + 1..];
      RunBoth(start, data[..p + 1], data[p + 1..]);
      RunFailed(ahead, data[p + 1..]);
    }
  }

  /** The assertions do not speak of the body. */
  lemma AssertedWith(m: Machine, body: seq<byte>)
    ensures Asserted(m.(body := body)) == Asserted(m)
  {
  }

  lemma Unmarked(data: seq<byte>, p: nat, body: seq<byte>)
    requires p <= |data|
    ensures body + Marked(data, None, p) == body
  {
  }

  lemma RunNothing(m: Machine, data: seq<byte>)
    ensures Run(m, data[..0]) == m
  {
  }

  class HttpParser {
    var state: State
    var contentLength: uint64
    var nread: nat
    var trailing: bool
    var errno: Errno
    /** What the callbacks collected: the request's body, and how often it was complete. */
    var body: seq<byte>
    var completes: nat

    function Now(): Machine
      reads this
    {
      Machine(state, contentLength, nread, trailing, errno, body, completes)
    }

    predicate Valid()
      reads this
    {
      errno == OK ==> Asserted(Now())
    }

    constructor (m: Machine)
      ensures Now() == m
    {
      state, contentLength, nread, trailing := m.state, m.contentLength, m.nread, m.trailing;
      errno, body, completes := m.errno, m.body, m.completes;
    }

    method OnBody(octets: seq<byte>)
      modifies this`body
      ensures body == old(body) + octets
    {
      body := body + octets;
    }

    method OnMessageComplete()
      modifies this`completes
      ensures completes == old(completes) + 1
    {
      completes := completes + 1;
    }

    /** The states that take one octet and touch no data. */
    method Octet(ch: byte)
      requires errno == OK && state != BODY_IDENTITY && state != CHUNK_DATA && state != CHUNK_DATA_ALMOST_DONE
      modifies this
      ensures Now() == Act(old(Now()), ch) && body == old(body)
    {
      match state
      case MESSAGE_DONE =>
        OnMessageComplete();
      case CHUNK_SIZE_START =>
        var digit := Unhex(ch);
        if digit == -1 {
          errno := INVALID_CHUNK_SIZE;
        } else {
          contentLength, state := digit, CHUNK_SIZE;
        }
      case CHUNK_SIZE =>
        if ch == CR {
          state := CHUNK_SIZE_ALMOST_DONE;
        } else {
          var digit := Unhex(ch);
          if digit == -1 {
            if ch == SEMICOLON || ch == SP {
              state := CHUNK_PARAMETERS;
            } else {
              errno := INVALID_CHUNK_SIZE;
            }
          } else {
            var t := Accumulate(contentLength, 16, digit);
            if TooLarge(contentLength, 16) {
              errno := INVALID_CONTENT_LENGTH;
            } else {
              contentLength := t;
            }
          }
        }
      case CHUNK_PARAMETERS =>
        if ch == CR {
          state := CHUNK_SIZE_ALMOST_DONE;
        }
      case CHUNK_SIZE_ALMOST_DONE =>
        if ch != LF {
          errno := STRICT;
        } else {
          nread := 0;
          if contentLength == 0 {
            trailing, state := true, HEADER_FIELD_START;
          } else {
            state := CHUNK_DATA;
          }
        }
      case CHUNK_DATA_DONE =>
        if ch != LF {
          errno := STRICT;
        } else {
          nread, state := 0, CHUNK_SIZE_START;
        }
      case HEADER_FIELD_START =>
        if ch == CR {
          state := HEADERS_ALMOST_DONE;
        } else if ch == LF {
          state := HEADERS_ALMOST_DONE;
          HeadersAlmostDone(ch);
        } else {
          errno := TRAILER_FIELD;
        }
      case HEADERS_ALMOST_DONE =>
        HeadersAlmostDone(ch);
    }

    method HeadersAlmostDone(ch: byte)
      requires errno == OK
      modifies this`errno, this`completes
      ensures Now() == AfterAlmostDone(old(Now()), ch)
    {
      if ch != LF {
        errno := STRICT;
      } else {
        OnMessageComplete();
      }
    }

    /** The stretch of data at `p` that is in this buffer: takes it in one go, and marks where it began. */
    method Stretch(data: seq<byte>, p: nat, mark: Option<nat>) returns (last: nat, marked: Option<nat>)
      requires errno == OK && Asserted(Now()) && (state == BODY_IDENTITY || state == CHUNK_DATA)
      requires p < |data| && (mark.Some? ==> mark.value <= p)
      modifies this
      ensures p <= last < |data| && (marked.Some? ==> marked.value <= last) && errno == OK && Valid()
      ensures marked.Some? ==> state == CHUNK_DATA_ALMOST_DONE || last + 1 == |data|
      ensures Now().(body := body + Marked(data, marked, last + 1)) ==
              Run(old(Now()).(body := old(body) + Marked(data, mark, p)), data[p..last + 1])
    {
      hide Run, Marked, Asserted;
      if state == BODY_IDENTITY {
        last, marked := IdentityStretch(data, p, mark);
      } else {
        last, marked := ChunkStretch(data, p, mark);
      }
    }

    method IdentityStretch(data: seq<byte>, p: nat, mark: Option<nat>) returns (last: nat, marked: Option<nat>)
      requires errno == OK && Asserted(Now()) && state == BODY_IDENTITY
      requires p < |data| && (mark.Some? ==> mark.value <= p)
      modifies this
      ensures p <= last < |data| && (marked.Some? ==> marked.value <= last) && errno == OK && Valid()
      ensures marked.Some? ==> state == CHUNK_DATA_ALMOST_DONE || last + 1 == |data|
      ensures Now().(body := body + Marked(data, marked, last + 1)) ==
              Run(old(Now()).(body := old(body) + Marked(data, mark, p)), data[p..last + 1])
    {
      hide Run, Marked;
      ghost var before := Now().(body := body + Marked(data, mark, p));
      var toRead: nat := if contentLength < |data| - p then contentLength else |data| - p;
      marked := if mark == None then Some(p) else mark;
      contentLength := contentLength as int - toRead;
      last := p + toRead - 1;
      MarkGrows(data, mark, p, last + 1, body);
      ghost var after := Run(before, data[p..last + 1]);
      RunIdentity(before, data[p..last + 1]);
      MarkedIs(data, marked.value, last + 1, body);
      if contentLength == 0 {
        state := MESSAGE_DONE;
        OnBody(data[marked.value..last + 1]);
        marked := None;
        OnMessageComplete();
        assert body == after.body;
      }
      assert body + Marked(data, marked, last + 1) == after.body;
    }

    method ChunkStretch(data: seq<byte>, p: nat, mark: Option<nat>) returns (last: nat, marked: Option<nat>)
      requires errno == OK && Asserted(Now()) && state == CHUNK_DATA
      requires p < |data| && (mark.Some? ==> mark.value <= p)
      modifies this
      ensures p <= last < |data| && (marked.Some? ==> marked.value <= last) && errno == OK && Valid()
      ensures marked.Some? ==> state == CHUNK_DATA_ALMOST_DONE || last + 1 == |data|
      ensures Now().(body := body + Marked(data, marked, last + 1)) ==
              Run(old(Now()).(body := old(body) + Marked(data, mark, p)), data[p..last + 1])
    {
      hide Run, Marked;
      ghost var before := Now().(body := body + Marked(data, mark, p));
      var toRead: nat := if contentLength < |data| - p then contentLength else |data| - p;
      marked := if mark == None then Some(p) else mark;
      contentLength := contentLength as int - toRead;
      last := p + toRead - 1;
      MarkGrows(data, mark, p, last + 1, body);
      RunChunkData(before, data[p..last + 1]);
      if contentLength == 0 {
        state := CHUNK_DATA_ALMOST_DONE;
      }
    }

    /** What the parser is, counting the marked octets as handed over. */
    function Ahead(data: seq<byte>, mark: Option<nat>, p: nat): Machine
      requires p <= |data| && (mark.Some? ==> mark.value <= p)
      reads this
    {
      Now().(body := body + Marked(data, mark, p))
    }

    /** One round of the loop: the octet at `p`, or the stretch that begins there; `last` is where it ends. */
    method Round(data: seq<byte>, p: nat, mark: Option<nat>) returns (last: nat, marked: Option<nat>)
      requires errno == OK && Asserted(Now()) && p < |data| && (mark.Some? ==> mark.value <= p)
      requires mark.Some? ==> state == CHUNK_DATA_ALMOST_DONE
      modifies this
      ensures p <= last < |data| && (marked.Some? ==> marked.value <= last)
      ensures errno == OK && marked.Some? ==> state == CHUNK_DATA_ALMOST_DONE || last + 1 == |data|
      ensures errno != OK ==> last == p
      ensures Ahead(data, marked, last + (if errno == OK then 1 else 0)) ==
              Run(old(Ahead(data, mark, p)), data[p..last + 1])
    {
      hide Run, Act, Asserted, Marked;
      last, marked := p, mark;
      if state == BODY_IDENTITY || state == CHUNK_DATA {
        last, marked := Stretch(data, p, mark);
      } else {
        RunOne(Ahead(data, mark, p), data, p);
        if ParsingHeader(state) {
          nread := nread + 1;
          if nread > MAX_HEADER_SIZE {
            errno := HEADER_OVERFLOW;
          }
        }
        if errno == OK {
          if state == CHUNK_DATA_ALMOST_DONE {
            marked := ChunkDataAlmostDone(data, p, mark);
          } else {
            Unmarked(data, p, body);
            Octet(data[p]);
          }
          Unmarked(data, p, body);
          Unmarked(data, p + 1, body);
        }
      }
    }

    /** Behind the data of a chunk, which is handed over now if this buffer had some of it. */
    method ChunkDataAlmostDone(data: seq<byte>, p: nat, mark: Option<nat>) returns (marked: Option<nat>)
      requires errno == OK && state == CHUNK_DATA_ALMOST_DONE && p < |data| && (mark.Some? ==> mark.value <= p)
      modifies this
      ensures if errno == OK then marked == None else marked == mark
      ensures Ahead(data, marked, p) == Act(old(Ahead(data, mark, p)), data[p])
    {
      marked := mark;
      if data[p] != CR {
        errno := STRICT;
      } else {
        state := CHUNK_DATA_DONE;
        if mark.Some? {
          OnBody(data[mark.value..p]);
          marked := None;
        }
      }
    }

    /** Without an octet: the connection ended inside a body. */
    method AtEnd() returns (consumed: nat)
      modifies this`errno
      ensures Now() == if old(errno) == OK then old(Now()).(errno := INVALID_EOF_STATE) else old(Now())
      ensures consumed == if old(errno) == OK then 1 else 0
    {
      consumed := 0;
      if errno == OK {
        errno := INVALID_EOF_STATE;
        consumed := 1;
      }
    }

    /**
      `http_parser_execute` on a buffer with octets: it does what the octets would do one at a time.
      After an error the parser stands at the octet that is wrong, and the data of this buffer that was
      still marked is not handed over.
     */
    method Execute(data: seq<byte>) returns (consumed: nat)
      requires Valid() && data != []
      modifies this
      ensures Valid() && body <= Run(old(Now()), data).body
      ensures Now() == Run(old(Now()), data).(body := body)
      ensures errno == OK ==> body == Run(old(Now()), data).body && consumed == |data|
      ensures errno != OK && old(errno) == OK ==> FailsAt(old(Now()), data, consumed)
    {
      hide Run, Asserted;
      consumed := 0;
      if errno != OK {
        RunFailed(Now(), data);
      } else {
        consumed := Loop(data);
      }
    }

    /** The loop over the octets, and the last callback. */
    method Loop(data: seq<byte>) returns (consumed: nat)
      requires Valid() && errno == OK && data != []
      modifies this
      ensures Valid() && body <= Run(old(Now()), data).body
      ensures Now() == Run(old(Now()), data).(body := body)
      ensures errno == OK ==> body == Run(old(Now()), data).body && consumed == |data|
      ensures errno != OK ==> FailsAt(old(Now()), data, consumed)
    {
      hide Run, Asserted;
      ghost var start := Now();
      var p, mark: Option<nat> := 0, None;
      assert Ahead(data, mark, p) == Run(start, data[..p]) by {
        RunNothing(start, data);
      }
      while p < |data| && errno == OK
        invariant p <= |data| && (mark.Some? ==> mark.value <= p) && Valid()
        invariant errno == OK && p < |data| && mark.Some? ==> state == CHUNK_DATA_ALMOST_DONE
        invariant errno == OK ==> Ahead(data, mark, p) == Run(start, data[..p])
        invariant errno != OK ==>
          p < |data| && Ahead(data, mark, p) == Run(start, data[..p + 1]) && Run(start, data[..p]).errno == OK
        decreases |data| - p, if errno == OK then 1 else 0
      {
        var last;
        ghost var before := Ahead(data, mark, p);
        AssertedWith(Now(), before.body);
        last, mark := Round(data, p, mark);
        RunOn(start, before, data, p, last + 1);
        AssertedWith(Run(start, data[..last + 1]), body);
        if errno == OK {
          p := last + 1;
        }
      }
      Behind(start, data, p, errno, Ahead(data, mark, p));
      AssertedWith(Now(), Run(start, data).body);
      if errno == OK && mark.Some? {
        OnBody(data[mark.value..p]);
      }
      consumed := p;
    }

    /** `HTTPParser::feed`: nothing more is parsed once a message was complete. */
    method Feed(buffer: seq<byte>) returns (ok: bool)
      requires Valid() && buffer != []
      modifies this
      ensures Valid()
      ensures old(completes) > 0 ==> ok && Now() == old(Now())
      ensures old(completes) == 0 && Run(old(Now()), buffer).errno == OK ==> ok && Now() == Run(old(Now()), buffer)
      ensures old(completes) == 0 && Run(old(Now()), buffer).errno != OK ==> !ok
    {
      if completes > 0 {
        ok := true;
      } else {
        var consumed := Execute(buffer);
        ok := errno == OK && consumed == |buffer|;
      }
    }

    /**
      Any octets at all, cut into buffers in any way: the parser ends as if they had come one at a time,
      with the same error at the same octet, if there is one. `at` is how many octets it has taken.
     */
    method ExecuteAll(pieces: seq<seq<byte>>) returns (at: nat)
      requires Valid() && errno == OK
      requires forall i :: 0 <= i < |pieces| ==> pieces[i] != []
      modifies this
      ensures Valid() && body <= Run(old(Now()), Joined(pieces)).body
      ensures Now() == Run(old(Now()), Joined(pieces)).(body := body)
      ensures errno == OK ==> body == Run(old(Now()), Joined(pieces)).body && at == |Joined(pieces)|
      ensures errno != OK ==> FailsAt(old(Now()), Joined(pieces), at)
    {
      hide Run, Asserted, Joined;
      ghost var start := Now();
      var i := 0;
      at := 0;
      JoinedNothing(start);
      while i < |pieces| && errno == OK
        invariant i <= |pieces| && Valid()
        invariant Now() == Run(start, Joined(pieces[..i])).(body := body)
                  && body <= Run(start, Joined(pieces[..i])).body
        invariant errno == OK ==> body == Run(start, Joined(pieces[..i])).body && at == |Joined(pieces[..i])|
        invariant errno != OK ==> FailsAt(start, Joined(pieces[..i]), at)
        decreases |pieces| - i
      {
        JoinedMore(pieces, i);
        RunBoth(start, Joined(pieces[..i]), pieces[i]);
        var consumed := Execute(pieces[i]);
        if errno != OK {
          FailsBehind(start, Joined(pieces[..i]), pieces[i], consumed);
        }
        at, i := at + consumed, i + 1;
      }
      if errno == OK {
        assert pieces[..i] == pieces;
      } else {
        FailsForGood(start, pieces, i, at);
      }
    }

    /** However a message is cut into buffers, the parser ends as if its octets had come one at a time. */
    method FeedAll(pieces: seq<seq<byte>>) returns (ok: bool)
      requires Valid() && completes == 0
      requires forall piece :: piece in pieces ==> piece != []
      requires Run(Now(), Joined(pieces)).errno == OK && Run(Now(), Joined(pieces)).completes == 1
      modifies this
      ensures ok && Now() == Run(old(Now()), Joined(pieces))
    {
      hide Run;
      ghost var start := Now();
      ok := true;
      JoinedParts(start, pieces, 0);
      for i := 0 to |pieces|
        invariant ok && Valid() && Now() == Run(start, Joined(pieces[..i]))
        invariant i < |pieces| ==> completes == 0
      {
        JoinedParts(start, pieces, i);
        JoinedParts(start, pieces, i + 1);
        assert pieces[i] in pieces;
        ok := Feed(pieces[i]);
      }
      assert pieces[..|pieces|] == pieces;
    }
  }

  function Joined(pieces: seq<seq<byte>>): seq<byte> {
    if pieces == [] then [] else Joined(pieces[..|pieces| - 1]) + pieces[|pieces| - 1]
  }

  /** The octet at `at` is the first that is wrong. */
  predicate FailsAt(start: Machine, data: seq<byte>, at: nat) {
    at < |data| && Run(start, data[..at]).errno == OK != Run(start, data[..at + 1]).errno
  }

  lemma JoinedNothing(start: Machine)
    ensures Joined([]) == [] && Run(start, Joined([])) == start
  {
  }

  lemma JoinedMore(pieces: seq<seq<byte>>, i: nat)
    requires i < |pieces|
    ensures Joined(pieces[..i + 1]) == Joined(pieces[..i]) + pieces[i]
  {
    assert pieces[..i + 1][..i] == pieces[..i];
  }

  lemma FailsBehind(start: Machine, before: seq<byte>, piece: seq<byte>, at: nat)
    requires FailsAt(Run(start, before), piece, at)
    ensures FailsAt(start, before + piece, |before| + at)
  {
    hide Run;
    var data := before + piece;
    assert data[..|before| + at] == before + piece[..at];
    assert data[..|before| + at + 1] == before + piece[..at + 1];
    RunBoth(start, before, piece[..at]);
    RunBoth(start, before, piece[..at + 1]);
  }

  /** What comes behind the wrong octet changes nothing. */
  lemma {:induction false} FailsForGood(start: Machine, pieces: seq<seq<byte>>, i: nat, at: nat)
    requires i <= |pieces| && FailsAt(start, Joined(pieces[..i]), at) && Run(start, Joined(pieces[..i])).errno != OK
    ensures FailsAt(start, Joined(pieces), at) && Run(start, Joined(pieces)) == Run(start, Joined(pieces[..i]))
    decreases |pieces| - i
  {
    hide Run;
    if i == |pieces| {
      assert pieces[..i] == pieces;
    } else {
      var data, more := Joined(pieces[..i]), Joined(pieces[..i + 1]);
      JoinedMore(pieces, i);
      RunBoth(start, data, pieces[i]);
      RunFailed(Run(start, data), pieces[i]);
      assert more[..at] == data[..at] && more[..at + 1] == data[..at + 1];
      FailsForGood(start, pieces, i + 1, at);
    }
  }

  lemma {:induction false} JoinedSplits(pieces: seq<seq<byte>>, i: nat)
    requires i <= |pieces| && forall piece :: piece in pieces ==> piece != []
    ensures exists rest :: Joined(pieces) == Joined(pieces[..i]) + rest && (i < |pieces| ==> rest != [])
    decreases |pieces| - i
  {
    if i == |pieces| {
      assert pieces[..i] == pieces && Joined(pieces) == Joined(pieces[..i]) + [];
    } else {
      JoinedSplits(pieces, i + 1);
      var rest :| Joined(pieces) == Joined(pieces[..i + 1]) + rest;
      assert pieces[..i + 1][..i] == pieces[..i];
      assert pieces[i] in pieces;
      assert Joined(pieces) == Joined(pieces[..i]) + (pieces[i] + rest);
    }
  }

  /** Before the last piece no message is complete and nothing has failed. */
  lemma JoinedParts(start: Machine, pieces: seq<seq<byte>>, i: nat)
    requires i <= |pieces| && start.completes == 0
    requires forall piece :: piece in pieces ==> piece != []
    requires Run(start, Joined(pieces)).errno == OK && Run(start, Joined(pieces)).completes == 1
    ensures Run(start, Joined(pieces[..i])).errno == OK
    ensures i < |pieces| ==> Run(start, Joined(pieces[..i])).completes == 0
    ensures i > 0 ==> Run(start, Joined(pieces[..i])) == Run(Run(start, Joined(pieces[..i - 1])), pieces[i - 1])
    ensures i == 0 ==> Run(start, Joined(pieces[..i])) == start
  {
    JoinedSplits(pieces, i);
    var rest :| Joined(pieces) == Joined(pieces[..i]) + rest && (i < |pieces| ==> rest != []);
    if i < |pieces| {
      NotCompleteBefore(start, Joined(pieces[..i]), rest);
    } else {
      assert pieces[..i] == pieces;
    }
    if i > 0 {
      assert pieces[..i][..i - 1] == pieces[..i - 1];
      RunBoth(start, Joined(pieces[..i - 1]), pieces[i - 1]);
    }
  }

  /**
    Split invariance: every cutting of a well-formed chunked body into non-empty buffers yields the data
    of the chunks, and one complete message.
   */
  method DecodeChunked(chunks: seq<Chunk>, zeros: nat, extension: seq<byte>, pieces: seq<seq<byte>>)
    returns (body: seq<byte>, completes: nat)
    requires forall c :: c in chunks ==> WellFormed(c)
    requires zeros > 0 && Fits(zeros, extension)
    requires Joined(pieces) == BodyOctets(chunks, zeros, extension)
    requires forall piece :: piece in pieces ==> piece != []
    ensures body == Data(chunks) && completes == 1
  {
    ChunkedBodyIsDecoded(chunks, zeros, extension);
    var parser := new HttpParser(ChunkedBody());
    var _ := parser.FeedAll(pieces);
    body, completes := parser.body, parser.completes;
  }

  /** The same of a body whose length was given. */
  method DecodeIdentity(data: seq<byte>, pieces: seq<seq<byte>>) returns (body: seq<byte>, completes: nat)
    requires 0 < |data| < ULLONG_MAX && Joined(pieces) == data
    requires forall piece :: piece in pieces ==> piece != []
    ensures body == data && completes == 1
  {
    IdentityBodyIsDecoded(data);
    var parser := new HttpParser(IdentityBody(|data|));
    var _ := parser.FeedAll(pieces);
    body, completes := parser.body, parser.completes;
  }

  /** The value of a `Content-Length` header, read as the parser reads it. */
  method ContentLength(value: seq<byte>) returns (r: LengthReader)
    ensures r == ReadLength(Reading(START, ULLONG_MAX), value)
  {
    var state, length: uint64 := START, ULLONG_MAX;
    var i, refused := 0, false;
    ghost var first := Reading(START, ULLONG_MAX);
    while i < |value| && !refused
      invariant i <= |value|
      invariant ReadLength(first, value) == ReadLength(if refused then Refused else Reading(state, length), value[i..])
    {
      ghost var rest := value[i..];
      assert rest[0] == value[i] && rest[1..] == value[i + 1..];
      var ch := value[i];
      var digit := ch as int - '0' as int;
      if state == WS {
        refused := ch != SP;
      } else if state == NUM && ch == SP {
        state := WS;
      } else if !(0 <= digit <= 9) {
        refused := true;
      } else if state == START {
        state, length := NUM, digit;
      } else {
        var t := Accumulate(length, 10, digit);
        if TooLarge(length, 10) {
          refused := true;
        } else {
          length := t;
        }
      }
      i := i + 1;
    }
    r := if refused then Refused else Reading(state, length);
    if refused {
      ReadRefused(value[i..]);
    }
  }
}
