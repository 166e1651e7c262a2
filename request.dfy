/**
 * The incremental request parser of internal/request: the request-line
 * reader (section 3 of RFC 9112, restricted to upper-case methods and
 * HTTP/1.1), the four-state machine Initialized -> ParsingHeaders ->
 * ParsingBody -> Done with Content-Length framing (section 6.3 of RFC 9112),
 * and RequestFromReader, which feeds it from a growable buffer.
 *
 * The pure functions Step, Run and Feed say what parseSingle, parse and
 * RequestFromReader compute; the class Request and the method
 * RequestFromReader are the step-by-step code, proved against them.
 */
module Request {
  import opened Wire
  import opened Headers

  datatype RequestLine = RequestLine(httpVersion: Bytes, requestTarget: Bytes, requestMethod: Bytes)

  datatype ParseState = Initialized | ParsingHeaders | ParsingBody | Done

  /** The errors parsing can end with, one per error site of request.go. */
  datatype RequestError =
    | PoorlyFormattedRequestLine   // not exactly three space-separated parts
    | InvalidMethod                // a method byte outside 'A'..'Z'
    | MalformedStartLine           // the version is not exactly two '/'-separated parts
    | UnrecognizedHttpVersion      // not "HTTP", or not "1.1"
    | BadHeader(cause: HeaderError) // passed up from the header parser
    | InvalidContentLength         // Content-Length is not a number
    | BodyTooLarge                 // more body than Content-Length declares
    | ParserReused                 // parseSingle called in state Done
    | UnexpectedEof                // the stream ended before the request did

  /** The fields of a Request as values. */
  datatype Message = Message(line: RequestLine, state: ParseState, headers: Fields, body: Bytes)

  const BufferSize: nat := 8

  const EmptyLine := RequestLine([], [], [])

  /** A request as RequestFromReader creates it. */
  const Initial := Message(EmptyLine, Initialized, map[], [])

  /** The position of a state in the forward order of the machine. */
  function Rank(s: ParseState): nat {
    match s
    case Initialized => 0
    case ParsingHeaders => 1
    case ParsingBody => 2
    case Done => 3
  }

  // ---------------------------------------------------------------------
  // requestLineFromString and parseRequestLine

  predicate IsUpperMethod(m: Bytes) {
    forall i :: 0 <= i < |m| ==> 'A' <= m[i] <= 'Z'
  }

  /** requestLineFromString */
  function RequestLineFromString(str: Bytes): (r: Result<RequestLine, RequestError>)
    ensures r.Success? ==> r.value.httpVersion == "1.1"
  {
    var parts := Split(str, ' ');
    if |parts| != 3 then Failure(PoorlyFormattedRequestLine)
    else if !IsUpperMethod(parts[0]) then Failure(InvalidMethod)
    else
      var versionParts := Split(parts[2], '/');
      if |versionParts| != 2 then Failure(MalformedStartLine)
      else if versionParts[0] != "HTTP" then Failure(UnrecognizedHttpVersion)
      else if versionParts[1] != "1.1" then Failure(UnrecognizedHttpVersion)
      else Success(RequestLine(versionParts[1], parts[1], parts[0]))
  }

  /** The request-line a RequestLine stands for: method SP target SP HTTP/version. */
  function FormatRequestLine(l: RequestLine): Bytes {
    l.requestMethod + " " + l.requestTarget + " HTTP/" + l.httpVersion
  }

  /** The lines requestLineFromString accepts: an upper-case method, a target
      without spaces and version 1.1. */
  predicate AcceptableLine(l: RequestLine) {
    IsUpperMethod(l.requestMethod) && ' ' !in l.requestTarget && l.httpVersion == "1.1"
  }

  /** parseRequestLine: None when no CRLF has arrived yet, otherwise the line
      and the bytes it takes including its CRLF. */
  function ParseRequestLine(data: Bytes): (r: Result<Option<(RequestLine, nat)>, RequestError>)
    ensures FindCrlf(data).None? <==> r == Success(None)
    ensures FindCrlf(data).Some? && RequestLineFromString(data[..FindCrlf(data).value]).Failure? ==>
      r == Failure(RequestLineFromString(data[..FindCrlf(data).value]).error)
    ensures FindCrlf(data).Some? && RequestLineFromString(data[..FindCrlf(data).value]).Success? ==>
      r == Success(Some((RequestLineFromString(data[..FindCrlf(data).value]).value, FindCrlf(data).value + 2)))
    ensures r.Success? && r.value.Some? ==>
      FindCrlf(data).Some? && r.value.value.1 == FindCrlf(data).value + 2 &&
      RequestLineFromString(data[..FindCrlf(data).value]) == Success(r.value.value.0)
  {
    match FindCrlf(data)
    case None => Success(None)
    case Some(idx) =>
      var line := RequestLineFromString(data[..idx]);
      if line.Failure? then Failure(line.error) else Success(Some((line.value, idx + 2)))
  }

  // ---------------------------------------------------------------------
  // parseSingle and parse, on values

  const ContentLengthKey: Bytes := "content-length"

  /** The Content-Length value, or empty when there is none. */
  function ContentLength(h: Fields): Bytes {
    if ContentLengthKey in h then h[ContentLengthKey] else []
  }

  /** ContentLength is the lookup parseSingle makes with Get("Content-Length"). */
  lemma ContentLengthIsGet(h: Fields)
    ensures ContentLength(h) == Get(h, "Content-Length")
  {
    hide ToLower;
    var name: Bytes := "Content-Length";
    assert name[0] == 'C' && name[8] == 'L';
    forall i | 0 <= i < |name| ensures LowerByte(name[i]) == ContentLengthKey[i] {
      if i != 0 && i != 8 {
        assert LowerByte(name[i]) == name[i];
      }
    }
    LowerCaseOf(name, ContentLengthKey);
  }

  /** parseSingle: one move of the state machine over the unconsumed bytes,
      with the number of bytes it consumed. */
  function Step(r: Message, data: Bytes): (res: Result<(Message, nat), RequestError>)
    ensures r.state == Done ==> res == Failure(ParserReused)
    ensures res.Success? ==> res.value.1 <= |data|
    ensures res.Success? ==> Rank(r.state) <= Rank(res.value.0.state) <= Rank(r.state) + 1
  {
    match r.state
    case Initialized =>
      var read := ParseRequestLine(data);
      if read.Failure? then Failure(read.error)
      else if read.value.None? then Success((r, 0))
      else Success((r.(line := read.value.value.0, state := ParsingHeaders), read.value.value.1))
    case ParsingHeaders =>
      var parsed := ParseFields(r.headers, data);
      if parsed.Failure? then Failure(BadHeader(parsed.error))
      else
        var next := if parsed.value.done then ParsingBody else ParsingHeaders;
        Success((r.(headers := parsed.value.fields, state := next), parsed.value.n))
    case ParsingBody =>
      var contentLength := ContentLength(r.headers);
      if contentLength == [] then Success((r.(state := Done), 0))
      else
        var declared := Atoi(contentLength);
        if declared.None? then Failure(InvalidContentLength)
        else
          var body := r.body + data;
          if |body| > declared.value then Failure(BodyTooLarge)
          else
            var next := if declared.value == |body| then Done else ParsingBody;
            Success((r.(body := body, state := next), |data|))
    case Done => Failure(ParserReused)
  }

  /** parse: Step again and again until Done or until a step consumes
      nothing; the result is the final request and the bytes consumed. */
  function Run(r: Message, data: Bytes): (res: Result<(Message, nat), RequestError>)
    ensures res.Success? ==> res.value.1 <= |data|
    ensures res.Success? ==> Rank(r.state) <= Rank(res.value.0.state)
    decreases |data|
  {
    if r.state == Done then Success((r, 0))
    else
      var step := Step(r, data);
      if step.Failure? then Failure(step.error)
      else if step.value.1 == 0 then Success((step.value.0, 0))
      else
        var k := step.value.1;
        var rest := Run(step.value.0, data[k..]);
        if rest.Failure? then Failure(rest.error) else Success((rest.value.0, k + rest.value.1))
  }

  /** `outer` is the result `inner` seen from `m` bytes further back: the
      same error, or the same request with `m` more bytes consumed. */
  predicate Shifted(outer: Result<(Message, nat), RequestError>, inner: Result<(Message, nat), RequestError>, m: nat) {
    if inner.Failure? then outer == inner
    else outer.Success? && outer.value.0 == inner.value.0 && outer.value.1 == inner.value.1 + m
  }

  /** One step of Run, when it consumes something. */
  lemma {:induction false} RunStep(r: Message, data: Bytes, next: Message, k: nat)
    requires r.state != Done && Step(r, data) == Success((next, k)) && k > 0
    ensures Shifted(Run(r, data), Run(next, data[k..]), k)
  {
  }

  /** A failing step fails the whole run. */
  lemma {:induction false} RunFails(r: Message, data: Bytes)
    requires r.state != Done && Step(r, data).Failure?
    ensures Run(r, data) == Failure(Step(r, data).error)
  {
  }

  /** A step that consumes nothing ends the run. */
  lemma {:induction false} RunStalls(r: Message, data: Bytes, next: Message)
    requires r.state != Done && Step(r, data) == Success((next, 0))
    ensures Run(r, data) == Success((next, 0))
  {
  }

  // ---------------------------------------------------------------------
  // RequestFromReader, on values

  /** The reads of RequestFromReader, one piece of input per read: each piece
      is appended to the unconsumed bytes, Run consumes what it can, and the
      rest waits for the next piece. Nothing more is read once Done. */
  function Absorb(r: Message, pending: Bytes, pieces: seq<Bytes>): Result<(Message, Bytes), RequestError>
    decreases |pieces|
  {
    if r.state == Done || pieces == [] then Success((r, pending))
    else
      var data := pending + pieces[0];
      var run := Run(r, data);
      if run.Failure? then Failure(run.error)
      else Absorb(run.value.0, data[run.value.1..], pieces[1..])
  }

  /** What RequestFromReader returns when the reads deliver `pieces` and the
      stream then ends: the request if it reached Done, otherwise an error. */
  function Feed(pieces: seq<Bytes>): (res: Result<Message, RequestError>)
    ensures res.Success? ==> res.value.state == Done
  {
    var absorbed := Absorb(Initial, [], pieces);
    if absorbed.Failure? then Failure(absorbed.error)
    else if absorbed.value.0.state == Done then Success(absorbed.value.0)
    else Failure(UnexpectedEof)
  }

  /** One more piece, taken from the end. */
  lemma {:induction false} AbsorbSnoc(r: Message, pending: Bytes, pieces: seq<Bytes>, x: Bytes)
    decreases |pieces|
    ensures var a := Absorb(r, pending, pieces);
      Absorb(r, pending, pieces + [x]) ==
        if a.Failure? || a.value.0.state == Done then a
        else
          var run := Run(a.value.0, a.value.1 + x);
          if run.Failure? then Failure(run.error)
          else Success((run.value.0, (a.value.1 + x)[run.value.1..]))
  {
    if r.state == Done || pieces == [] {
      if r.state != Done {
        assert (pieces + [x])[1..] == [];
      }
    } else {
      assert (pieces + [x])[0] == pieces[0];
      assert (pieces + [x])[1..] == pieces[1..] + [x];
      var data := pending + pieces[0];
      var run := Run(r, data);
      if run.Success? {
        AbsorbSnoc(run.value.0, data[run.value.1..], pieces[1..], x);
      }
    }
  }

  /** The pieces RequestFromReader has read, with one more. */
  lemma AbsorbNext(pieces: seq<Bytes>, r: Message, pending: Bytes, x: Bytes)
    requires Absorb(Initial, [], pieces) == Success((r, pending)) && r.state != Done
    ensures var run := Run(r, pending + x);
      Absorb(Initial, [], pieces + [x]) ==
        if run.Failure? then Failure(run.error) else Success((run.value.0, (pending + x)[run.value.1..]))
  {
    AbsorbSnoc(Initial, [], pieces, x);
  }

  /** Pieces after a failure or after Done make no difference. */
  lemma {:induction false} AbsorbStops(r: Message, pending: Bytes, pieces: seq<Bytes>, more: seq<Bytes>)
    requires Absorb(r, pending, pieces).Failure? || Absorb(r, pending, pieces).value.0.state == Done
    ensures Absorb(r, pending, pieces + more) == Absorb(r, pending, pieces)
    decreases |pieces|
  {
    if r.state == Done {
    } else if pieces == [] {
      assert false;
    } else {
      assert (pieces + more)[0] == pieces[0];
      assert (pieces + more)[1..] == pieces[1..] + more;
      var data := pending + pieces[0];
      var run := Run(r, data);
      if run.Success? {
        AbsorbStops(run.value.0, data[run.value.1..], pieces[1..], more);
      }
    }
  }

  // ---------------------------------------------------------------------
  // The Request object and its methods

  class Request {
    var requestLine: RequestLine
    var state: ParseState
    var headers: Headers
    var body: Bytes

    /** The fields as one value. */
    function Snapshot(): Message
      reads this, headers
    {
      Message(requestLine, state, headers.fields, body)
    }

    /** The request RequestFromReader starts from. */
    constructor ()
      ensures Snapshot() == Initial && fresh(headers)
    {
      requestLine := EmptyLine;
      state := Initialized;
      headers := new Headers();
      body := [];
    }

    /** parseSingle. On an error nothing changes, except that the body has
        already been extended when the error is BodyTooLarge. */
    method ParseSingle(data: Bytes) returns (n: nat, err: Option<RequestError>)
      modifies this, headers
      ensures headers == old(headers)
      ensures Step(old(Snapshot()), data).Success? ==>
        err.None? && (Snapshot(), n) == Step(old(Snapshot()), data).value
      ensures Step(old(Snapshot()), data).Failure? ==>
        err == Some(Step(old(Snapshot()), data).error) && n == 0 &&
        Snapshot() == if err == Some(BodyTooLarge) then old(Snapshot()).(body := old(body) + data)
                      else old(Snapshot())
    {
      match state {
        case Initialized =>
          var read := ParseRequestLine(data);
          if read.Failure? {
            return 0, Some(read.error);
          }
          if read.value.None? {
            return 0, None;
          }
          requestLine := read.value.value.0;
          state := ParsingHeaders;
          return read.value.value.1, None;
        case ParsingHeaders =>
          var bytesParsed, done, e := headers.Parse(data);
          if e.Some? {
            return 0, Some(BadHeader(e.value));
          }
          if done {
            state := ParsingBody;
          }
          return bytesParsed, None;
        case ParsingBody =>
          var contentLength := ContentLength(headers.fields);
          if contentLength == [] {
            state := Done;
            return 0, None;
          }
          var declared := Atoi(contentLength);
          if declared.None? {
            return 0, Some(InvalidContentLength);
          }
          body := body + data;
          if |body| > declared.value {
            return 0, Some(BodyTooLarge);
          }
          if declared.value == |body| {
            state := Done;
          }
          return |data|, None;
        case Done =>
          return 0, Some(ParserReused);
      }
    }

    /** parse. After an error the fields are those the failing step left. */
    method Parse(data: Bytes) returns (n: nat, err: Option<RequestError>)
      modifies this, headers
      ensures headers == old(headers)
      ensures Run(old(Snapshot()), data).Success? ==>
        err.None? && (Snapshot(), n) == Run(old(Snapshot()), data).value
      ensures Run(old(Snapshot()), data).Failure? ==>
        err == Some(Run(old(Snapshot()), data).error) && n == 0
    {
      hide Step;
      ghost var goal := Run(Snapshot(), data);
      var total := 0;
      assert data[total..] == data;
      while state != Done
        invariant total <= |data|
        invariant headers == old(headers)
        invariant Shifted(goal, Run(Snapshot(), data[total..]), total)
        decreases |data| - total
      {
        ghost var before := Snapshot();
        var rest := data[total..];
        var bytesParsed, e := ParseSingle(rest);
        if e.Some? {
          RunFails(before, rest);
          return 0, e;
        }
        ghost var after := Snapshot();
        if bytesParsed == 0 {
          RunStalls(before, rest, after);
          break;
        }
        RunStep(before, rest, after, bytesParsed);
        assert rest[bytesParsed..] == data[total + bytesParsed..];
        total := total + bytesParsed;
      }
      return total, None;
    }
  }

  // ---------------------------------------------------------------------
  // The byte stream

  /** An io.Reader over a stream that arrives in the given chunks: a read
      returns as much of the next chunk as fits (possibly nothing, for an
      empty chunk) and reports the end of the stream once all are gone. */
  class Reader {
    var chunks: seq<Bytes>
    /** Every piece a Read has returned, in order. */
    ghost var delivered: seq<Bytes>

    function Remaining(): Bytes
      reads this
    {
      Concat(chunks)
    }

    /** What is left to read, as a termination measure. */
    function Size(): nat
      reads this
    {
      |Remaining()| + |chunks|
    }

    constructor (chunks: seq<Bytes>)
      ensures this.chunks == chunks && delivered == []
    {
      this.chunks := chunks;
      delivered := [];
    }

    /** Read(p[off:]). */
    method Read(p: array<Byte>, off: nat) returns (n: nat, eof: bool)
      requires off < p.Length
      modifies this, p
      ensures eof <==> old(chunks) == []
      ensures off + n <= p.Length
      ensures p[..off] == old(p[..off]) && p[off + n..] == old(p[off + n..])
      ensures old(Remaining()) == p[off..off + n] + Remaining()
      ensures !eof ==> Size() < old(Size())
      ensures delivered == if eof then old(delivered) else old(delivered) + [p[off..off + n]]
    {
      if chunks == [] {
        return 0, true;
      }
      var c := chunks[0];
      n := if |c| < p.Length - off then |c| else p.Length - off;
      forall i | off <= i < off + n {
        p[i] := c[i - off];
      }
      assert p[off..off + n] == c[..n];
      if n == |c| {
        chunks := chunks[1..];
      } else {
        chunks := [c[n..]] + chunks[1..];
        assert ([c[n..]] + chunks[1..])[1..] == chunks[1..];
      }
      assert c == c[..n] + c[n..];
      delivered := delivered + [p[off..off + n]];
      return n, false;
    }
  }

  // ---------------------------------------------------------------------
  // RequestFromReader

  /** The buffer growth of RequestFromReader: a new array of twice the
      length holding the first `used` bytes of the old one. */
  method Grow(buf: array<Byte>, used: nat) returns (bigger: array<Byte>)
    requires used <= buf.Length
    ensures fresh(bigger)
    ensures bigger.Length == 2 * buf.Length
    ensures bigger[..used] == buf[..used]
  {
    bigger := new Byte[buf.Length * 2];
    forall i | 0 <= i < buf.Length {
      bigger[i] := buf[i];
    }
  }

  /** reader.Read(buf[readToIndex:]), the buffer first doubled when it is
      full, so that every read has room for at least one byte. */
  method Fill(reader: Reader, buf: array<Byte>, used: nat) returns (b: array<Byte>, n: nat, eof: bool)
    requires used <= buf.Length && 0 < buf.Length
    modifies reader, buf
    ensures used < buf.Length ==> b == buf
    ensures used >= buf.Length ==> fresh(b) && b.Length == 2 * buf.Length
    ensures used + n <= b.Length
    ensures b[..used] == old(buf[..used])
    ensures eof <==> old(reader.chunks) == []
    ensures eof ==> old(reader.Remaining()) == []
    ensures old(reader.Remaining()) == b[used..used + n] + reader.Remaining()
    ensures !eof ==> reader.Size() < old(reader.Size())
    ensures reader.delivered == if eof then old(reader.delivered) else old(reader.delivered) + [b[used..used + n]]
  {
    b := buf;
    if used >= buf.Length {
      b := Grow(buf, used);
    }
    n, eof := reader.Read(b, used);
  }

  /** copy(buf, buf[k:]): moves the bytes after the first k to the front. */
  method Compact(buf: array<Byte>, k: nat, used: nat)
    requires k <= used <= buf.Length
    modifies buf
    ensures buf[..used - k] == old(buf[k..used])
  {
    forall i | 0 <= i < buf.Length - k {
      buf[i] := buf[i + k];
    }
  }

  /** The loop invariant of RequestFromReader: the pieces read so far and
      the unread rest make up the stream, and absorbing the pieces gives
      the request's state and the unconsumed bytes in the buffer. */
  ghost predicate Fed(stream: Bytes, read: seq<Bytes>, rest: Bytes, m: Message, pending: Bytes) {
    Concat(read) + rest == stream && Absorb(Initial, [], read) == Success((m, pending))
  }

  lemma FedStart(stream: Bytes)
    ensures Fed(stream, [], stream, Initial, [])
  {
  }

  /** A successful round: `piece` is read and parsed with what was pending. */
  lemma FedNext(stream: Bytes, read: seq<Bytes>, piece: Bytes, rest: Bytes, m: Message, pending: Bytes,
                next: Message, k: nat)
    requires Fed(stream, read, piece + rest, m, pending) && m.state != Done
    requires Run(m, pending + piece) == Success((next, k))
    ensures k <= |pending + piece|
    ensures Fed(stream, read + [piece], rest, next, (pending + piece)[k..])
  {
    hide Step, Run;
    AbsorbNext(read, m, pending, piece);
    ConcatSnoc(read, piece);
  }

  /** A round whose parse fails: Feed of the pieces read fails the same way. */
  lemma FedFails(stream: Bytes, read: seq<Bytes>, piece: Bytes, rest: Bytes, m: Message, pending: Bytes,
                 e: RequestError)
    requires Fed(stream, read, piece + rest, m, pending) && m.state != Done
    requires Run(m, pending + piece) == Failure(e)
    ensures Concat(read + [piece]) + rest == stream
    ensures Feed(read + [piece]) == Failure(e)
  {
    hide Step, Run, Absorb, Concat, Feed;
    AbsorbNext(read, m, pending, piece);
    FeedOfFailure(read + [piece], e);
    ConcatSnoc(read, piece);
    assert Concat(read + [piece]) + rest == Concat(read) + (piece + rest);
  }

  lemma FeedOfFailure(pieces: seq<Bytes>, e: RequestError)
    requires Absorb(Initial, [], pieces) == Failure(e)
    ensures Feed(pieces) == Failure(e)
  {
  }

  /** The stream ends before the request is complete. */
  lemma FedEof(stream: Bytes, read: seq<Bytes>, m: Message, pending: Bytes)
    requires Fed(stream, read, [], m, pending) && m.state != Done
    ensures Concat(read) == stream
    ensures Feed(read) == Failure(UnexpectedEof)
  {
  }

  /** The request is complete: Feed of the pieces read returns it. */
  lemma FedDone(stream: Bytes, read: seq<Bytes>, rest: Bytes, m: Message, pending: Bytes)
    requires Fed(stream, read, rest, m, pending) && m.state == Done
    ensures Concat(read) + rest == stream
    ensures Feed(read) == Success(m)
  {
  }

  /** Fed, read off the objects RequestFromReader works on. */
  ghost predicate Holds(stream: Bytes, read: seq<Bytes>, reader: Reader, request: Request, buf: array<Byte>, used: nat)
    reads reader, request, request.headers, buf
  {
    used <= buf.Length && BufferSize <= buf.Length &&
    Fed(stream, read, reader.Remaining(), request.Snapshot(), buf[..used])
  }

  /** One pass of RequestFromReader's loop: read into the buffer, parse
      what is buffered and move the unparsed bytes to the front. The pieces
      read since the start are the reader's deliveries from `d0` on. Either
      the loop goes on, with one piece more read, or RequestFromReader ends
      with the error `ended`, which is what Feed gives for those pieces. */
  method Round(reader: Reader, request: Request, buf: array<Byte>, readToIndex: nat,
               ghost stream: Bytes, ghost d0: nat)
    returns (b: array<Byte>, used: nat, ended: Option<RequestError>)
    requires d0 <= |reader.delivered|
    requires Holds(stream, reader.delivered[d0..], reader, request, buf, readToIndex) && request.state != Done
    modifies reader, request, request.headers, buf
    ensures request.headers == old(request.headers)
    ensures b == buf || fresh(b)
    ensures |old(reader.delivered)| <= |reader.delivered| &&
            reader.delivered[..|old(reader.delivered)|] == old(reader.delivered)
    ensures ended.Some? ==> Concat(reader.delivered[d0..]) + reader.Remaining() == stream &&
                            Feed(reader.delivered[d0..]) == Failure(ended.value)
    ensures ended.None? ==> Holds(stream, reader.delivered[d0..], reader, request, b, used) &&
                            reader.Size() < old(reader.Size())
  {
    hide Step, Run, Absorb, Concat, Feed, Fed;
    ghost var read := reader.delivered[d0..];
    ghost var pending := buf[..readToIndex];
    ghost var snapshot := request.Snapshot();
    var n, eof;
    b, n, eof := Fill(reader, buf, readToIndex);
    if eof {
      FedEof(stream, read, snapshot, pending);
      return b, readToIndex, Some(UnexpectedEof);
    }
    ghost var piece := b[readToIndex..readToIndex + n];
    assert reader.delivered[d0..] == read + [piece];
    ghost var rest := reader.Remaining();
    used := readToIndex + n;
    assert b[..used] == pending + piece;
    var bytesParsed, err := request.Parse(b[..used]);
    if err.Some? {
      FedFails(stream, read, piece, rest, snapshot, pending, err.value);
      return b, used, err;
    }
    FedNext(stream, read, piece, rest, snapshot, pending, request.Snapshot(), bytesParsed);
    Compact(b, bytesParsed, used);
    used := used - bytesParsed;
    return b, used, None;
  }

  /** RequestFromReader. The pieces the reads of this call delivered, with
      what is left unread, make up the stream, and the outcome is Feed of
      those pieces. When the stream ends, the request cannot be Done (the
      loop would have stopped), so the "no request-line found" branch after
      it is unreachable and the error is always "unexpected EOF". */
  method RequestFromReader(reader: Reader) returns (result: Result<Request, RequestError>)
    modifies reader
    ensures |old(reader.delivered)| <= |reader.delivered| &&
            reader.delivered[..|old(reader.delivered)|] == old(reader.delivered)
    ensures var pieces := reader.delivered[|old(reader.delivered)|..];
      Concat(pieces) + reader.Remaining() == old(reader.Remaining()) &&
      (result.Success? <==> Feed(pieces).Success?) &&
      (result.Failure? ==> result.error == Feed(pieces).error) &&
      (result.Success? ==> fresh(result.value) && fresh(result.value.headers) &&
                           result.value.Snapshot() == Feed(pieces).value)
  {
    var buf := new Byte[BufferSize];
    var readToIndex: nat := 0;
    var request := new Request();
    ghost var d0 := |reader.delivered|;
    ghost var before := reader.delivered;
    ghost var stream := reader.Remaining();
    assert reader.delivered[d0..] == [];
    FedStart(stream);
    hide Step, Run, Absorb, Concat, Feed, Fed;
    while request.state != Done
      invariant fresh(buf) && fresh(request) && fresh(request.headers)
      invariant d0 <= |reader.delivered| && reader.delivered[..d0] == before
      invariant Holds(stream, reader.delivered[d0..], reader, request, buf, readToIndex)
      decreases reader.Size()
    {
      ghost var last := reader.delivered;
      var ended;
      buf, readToIndex, ended := Round(reader, request, buf, readToIndex, stream, d0);
      assert reader.delivered[..d0] == last[..d0];
      if ended.Some? {
        return Failure(ended.value);
      }
    }
    FedDone(stream, reader.delivered[d0..], reader.Remaining(), request.Snapshot(), buf[..readToIndex]);
    return Success(request);
  }
}
