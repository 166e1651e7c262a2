/**
 * The response writer of internal/response: the status line (section 4 of
 * RFC 9112), header and trailer lines, the default headers, the chunked
 * transfer coding (section 7.1 of RFC 9112) and the Writer, whose three
 * flags make the status line come first and the header section second.
 *
 * The io.Writer the Go code writes to is the sequence `out` of the bytes
 * written so far; writes to it never fail.
 */
module Response {
  import opened Wire
  import opened Headers

  // ---------------------------------------------------------------------
  // The status line

  const Ok := 200
  const BadRequest := 400
  const InternalServerError := 500

  /** The reason phrase written after each status code: only the three codes
      the package names have one. */
  function ReasonPhrase(code: int): Bytes {
    if code == Ok then "OK"
    else if code == BadRequest then "Bad Request"
    else if code == InternalServerError then "Internal Server Error"
    else []
  }

  /** The free WriteStatusLine: the text it writes. */
  function StatusLine(code: int): Bytes {
    if code == Ok then OkLine
    else if code == BadRequest then BadRequestLine
    else if code == InternalServerError then InternalServerErrorLine
    else "HTTP/1.1 " + Decimal(code) + " \r\n"
  }

  const OkLine: Bytes := "HTTP/1.1 200 OK\r\n"
  const BadRequestLine: Bytes := "HTTP/1.1 400 Bad Request\r\n"
  const InternalServerErrorLine: Bytes := "HTTP/1.1 500 Internal Server Error\r\n"

  /** Every status line has the form of section 4 of RFC 9112:
      HTTP-version SP status-code SP reason-phrase CRLF, with the code in
      decimal and the reason phrase possibly empty. */
  lemma StatusLineForm(code: int)
    ensures StatusLine(code) == "HTTP/1.1 " + Decimal(code) + " " + ReasonPhrase(code) + CRLF
  {
    if code == Ok {
      ThreeDigits(2, 0, 0);
      assert Decimal(code) == "200";
      hide Decimal;
      LiteralOk();
    } else if code == BadRequest {
      ThreeDigits(4, 0, 0);
      assert Decimal(code) == "400";
      hide Decimal;
      LiteralBadRequest();
    } else if code == InternalServerError {
      ThreeDigits(5, 0, 0);
      assert Decimal(code) == "500";
      hide Decimal;
      LiteralInternalServerError();
    } else {
      assert ReasonPhrase(code) == [];
      hide Decimal;
      assert "HTTP/1.1 " + Decimal(code) + " \r\n" == "HTTP/1.1 " + Decimal(code) + " " + [] + CRLF;
    }
  }

  /** The literal status lines, cut at their spaces. */
  lemma LiteralOk()
    ensures OkLine == "HTTP/1.1 " + "200" + " " + "OK" + CRLF
  {
  }

  lemma LiteralBadRequest()
    ensures BadRequestLine == "HTTP/1.1 " + "400" + " " + "Bad Request" + CRLF
  {
  }

  lemma LiteralInternalServerError()
    ensures InternalServerErrorLine == "HTTP/1.1 " + "500" + " " + "Internal Server Error" + CRLF
  {
  }

  /** The decimal form of a three-digit number. */
  lemma ThreeDigits(a: nat, b: nat, c: nat)
    requires 1 <= a < 10 && b < 10 && c < 10
    ensures Decimal(100 * a + 10 * b + c) == [DigitChar(a), DigitChar(b), DigitChar(c)]
  {
    var n := 100 * a + 10 * b + c;
    assert n / 10 == 10 * a + b && n % 10 == c;
    assert (10 * a + b) / 10 == a && (10 * a + b) % 10 == b;
    assert NatToDecimal(a) == [DigitChar(a)];
    assert NatToDecimal(10 * a + b) == [DigitChar(a)] + [DigitChar(b)];
    assert NatToDecimal(n) == [DigitChar(a), DigitChar(b)] + [DigitChar(c)];
  }

  /** A three-digit code is read back from the three bytes after the
      version, as a receiver of the status line reads it. */
  lemma StatusCodeReadBack(code: int)
    requires 100 <= code <= 999
    ensures |StatusLine(code)| >= 13
    ensures StatusLine(code)[..9] == "HTTP/1.1 " && StatusLine(code)[12] == ' '
    ensures IsDigits(StatusLine(code)[9..12]) && Atoi(StatusLine(code)[9..12]) == Some(code)
  {
    StatusLineForm(code);
    DecimalThreeDigits(code);
    DecimalRoundTrip(code);
    hide StatusLine, Decimal, Atoi, IsDigits;
    CodeAt(Decimal(code), ReasonPhrase(code));
  }

  /** The pieces of a status line with a three-digit code. */
  lemma CodeAt(digits: Bytes, reason: Bytes)
    requires |digits| == 3
    ensures var line := "HTTP/1.1 " + digits + " " + reason + CRLF;
      |line| >= 13 && line[..9] == "HTTP/1.1 " && line[9..12] == digits && line[12] == ' '
  {
    var line := "HTTP/1.1 " + digits + " " + reason + CRLF;
    assert line == "HTTP/1.1 " + digits + (" " + reason + CRLF);
  }

  // ---------------------------------------------------------------------
  // Header and trailer lines

  /** `order` lists every key of `h` once: the order in which a range over
      the map visited them. */
  ghost predicate Enumerates(order: seq<Bytes>, h: Fields) {
    (forall i, j :: 0 <= i < j < |order| ==> order[i] != order[j]) &&
    (forall k :: k in order <==> k in h)
  }

  /** Part way through a range over `h`: `order` the keys visited, once
      each, and `remaining` the keys still to visit. */
  ghost predicate Visiting(h: Fields, order: seq<Bytes>, remaining: set<Bytes>) {
    remaining <= h.Keys &&
    (forall i, j :: 0 <= i < j < |order| ==> order[i] != order[j]) &&
    (forall k :: k in order ==> k in h && k !in remaining) &&
    (forall k :: k in h ==> k in order || k in remaining)
  }

  lemma VisitNext(h: Fields, order: seq<Bytes>, remaining: set<Bytes>, key: Bytes)
    requires Visiting(h, order, remaining) && key in remaining
    ensures key in h && Visiting(h, order + [key], remaining - {key})
    ensures |remaining - {key}| < |remaining|
  {
  }

  lemma VisitDone(h: Fields, order: seq<Bytes>)
    requires Visiting(h, order, {})
    ensures Enumerates(order, h)
  {
  }

  /** The lines of the entries of `h`, in the order `order`; a key not in
      `h` has no line. */
  function FieldLines(h: Fields, order: seq<Bytes>): Bytes {
    if order == [] then []
    else
      var k := order[|order| - 1];
      FieldLines(h, order[..|order| - 1]) + if k in h then FieldLine(k, h[k]) else []
  }

  /** One more key in the order adds its line. */
  lemma FieldLinesSnoc(h: Fields, order: seq<Bytes>, k: Bytes)
    requires k in h
    ensures FieldLines(h, order + [k]) == FieldLines(h, order) + FieldLine(k, h[k])
  {
    assert (order + [k])[..|order|] == order;
  }

  /** The range over `h` of the free WriteHeaders: the lines of all the
      entries, one each, in the order the range took. */
  method RangeLines(h: Fields) returns (lines: Bytes, order: seq<Bytes>)
    ensures Enumerates(order, h)
    ensures lines == FieldLines(h, order)
  {
    var remaining := h.Keys;
    lines, order := [], [];
    assert Visiting(h, order, remaining);
    hide FieldLines, FieldLine, Visiting;
    while remaining != {}
      invariant Visiting(h, order, remaining)
      invariant lines == FieldLines(h, order)
      decreases |remaining|
    {
      var key :| key in remaining;
      VisitNext(h, order, remaining, key);
      FieldLinesSnoc(h, order, key);
      lines := lines + FieldLine(key, h[key]);
      order := order + [key];
      remaining := remaining - {key};
    }
    VisitDone(h, order);
  }

  /** The free WriteHeaders (and the loop of WriteTrailers): the lines, then
      an empty line. */
  function FieldSection(h: Fields, order: seq<Bytes>): Bytes {
    FieldLines(h, order) + CRLF
  }

  const ContentTypeName: Bytes := "Content-Type"
  const ContentLengthName: Bytes := "Content-Length"
  const ConnectionName: Bytes := "Connection"
  const TextPlain: Bytes := "text/plain"
  const Close: Bytes := "close"

  /** GetDefaultHeaders: three entries, the length written in decimal so
      that it reads back as the number given. */
  function DefaultHeaders(contentLength: int): (h: Fields)
    ensures h.Keys == {ContentTypeName, ContentLengthName, ConnectionName}
    ensures h[ContentTypeName] == TextPlain && h[ConnectionName] == Close
    ensures h[ContentLengthName] == Decimal(contentLength)
    ensures Atoi(h[ContentLengthName]) == Some(contentLength)
  {
    DecimalRoundTrip(contentLength);
    map[ContentTypeName := TextPlain, ContentLengthName := Decimal(contentLength), ConnectionName := Close]
  }

  /** Each default header line is read back by the header parser, under its
      lower-cased name and with its value unchanged. */
  lemma DefaultHeaderReadBack(contentLength: int, key: Bytes, h: Fields, rest: Bytes)
    requires key in DefaultHeaders(contentLength)
    ensures var v := DefaultHeaders(contentLength)[key];
      ParseFields(h, FieldLine(key, v) + rest) == Success(Parsed(SetField(h, ToLower(key), v), |FieldLine(key, v)| , false))
  {
    var v := DefaultHeaders(contentLength)[key];
    DefaultEntry(contentLength, key);
    CrlfNeedsCr(v);
    hide DefaultHeaders, IsToken, CheckHeaderKey, ParseFields, FindCrlf, IsCrlfAt;
    LowerKeyIsToken(key);
    FieldLineReadBack(h, key, v, rest);
  }

  /** The default names are tokens and the default values are trimmed and
      hold no CR. */
  lemma DefaultEntry(contentLength: int, key: Bytes)
    requires key in DefaultHeaders(contentLength)
    ensures IsToken(key)
    ensures var v := DefaultHeaders(contentLength)[key];
      |v| > 0 && !IsSpace(v[0]) && !IsSpace(v[|v| - 1]) && forall i :: 0 <= i < |v| ==> v[i] != CR
  {
    if key == ContentLengthName {
      DecimalBytes(contentLength);
    }
  }

  /** A decimal number holds no white space and no CR. */
  lemma DecimalBytes(n: int)
    ensures var s := Decimal(n); |s| > 0 && (forall i :: 0 <= i < |s| ==> s[i] != CR && !IsSpace(s[i]))
  {
    var s := Decimal(n);
    if n < 0 {
      assert s == "-" + NatToDecimal(-n);
      assert forall i :: 1 <= i < |s| ==> IsDigit(s[i]);
    } else {
      assert forall i :: 0 <= i < |s| ==> IsDigit(s[i]);
    }
  }

  // ---------------------------------------------------------------------
  // The chunked transfer coding

  /** What WriteChunkedBody writes: the size in lower-case hex, CRLF, the
      data, CRLF. */
  function ChunkFrame(p: Bytes): Bytes {
    LowerHex(|p|) + CRLF + p + CRLF
  }

  /** The three writes of a chunk make one frame. */
  lemma FrameWrites(out: Bytes, p: Bytes)
    ensures out + LowerHex(|p|) + CRLF + p + CRLF == out + ChunkFrame(p)
  {
    hide LowerHex;
    Regroup(out, LowerHex(|p|), CRLF, p, CRLF);
  }

  lemma Regroup(a: Bytes, b: Bytes, c: Bytes, d: Bytes, e: Bytes)
    ensures a + b + c + d + e == a + (b + c + d + e)
  {
  }

  /** What WriteChunkedBodyEnd writes: the last-chunk, a zero size and CRLF. */
  const LastChunk: Bytes := "0\r\n"

  /** A reader of the chunked coding (section 7.1 of RFC 9112, without
      chunk extensions): the data of the chunks before the last-chunk, and
      the bytes after the last-chunk's CRLF (the trailer section). */
  function DecodeChunks(s: Bytes): Option<(Bytes, Bytes)>
    decreases |s|
  {
    match FindCrlf(s)
    case None => None
    case Some(i) =>
      match ParseHex(s[..i])
      case None => None
      case Some(size) =>
        if size == 0 then Some(([], s[i + 2..]))
        else if |s| < i + size + 4 || s[i + 2 + size..i + size + 4] != CRLF then None
        else
          match DecodeChunks(s[i + size + 4..])
          case None => None
          case Some(rest) => Some((s[i + 2..i + 2 + size] + rest.0, rest.1))
  }

  /** The frames of the chunks, in order. */
  function Frames(chunks: seq<Bytes>): Bytes {
    if chunks == [] then [] else ChunkFrame(chunks[0]) + Frames(chunks[1..])
  }

  /** One frame is read back. */
  lemma FrameReadBack(p: Bytes, rest: Bytes)
    requires p != []
    ensures DecodeChunks(ChunkFrame(p) + rest) ==
      match DecodeChunks(rest)
      case None => None
      case Some(r) => Some((p + r.0, r.1))
  {
    var s := ChunkFrame(p) + rest;
    var i := |LowerHex(|p|)|;
    FrameBytes(p, rest);
    LowerHexRoundTrip(|p|);
    hide LowerHex, ChunkFrame, ParseHex;
    DecodeOne(s, i, p, rest);
  }

  /** Where the size line, the data and the CRLFs of a frame lie. */
  lemma FrameBytes(p: Bytes, rest: Bytes)
    ensures var s := ChunkFrame(p) + rest; var i := |LowerHex(|p|)|;
      FindCrlf(s) == Some(i) && s[..i] == LowerHex(|p|) &&
      |s| >= i + |p| + 4 && s[i + 2..i + 2 + |p|] == p &&
      s[i + 2 + |p|..i + |p| + 4] == CRLF && s[i + |p| + 4..] == rest
  {
    var hex := LowerHex(|p|);
    var i := |hex|;
    assert forall j :: 0 <= j < i ==> hex[j] != CR;
    var s := hex + CRLF + p + CRLF + rest;
    assert ChunkFrame(p) + rest == s;
    hide LowerHex, ChunkFrame, IsCrlfAt;
    FrameSlices(hex, p, rest);
    assert forall j :: 0 <= j < i ==> s[j] != CR by {
      assert s[..i] == hex;
    }
    FirstCrlf(s, i);
  }

  /** A CRLF with no CR before it is the first one. */
  lemma FirstCrlf(s: Bytes, i: nat)
    requires IsCrlfAt(s, i) && forall j :: 0 <= j < i ==> s[j] != CR
    ensures FindCrlf(s) == Some(i)
  {
  }

  /** The pieces of hex + CRLF + p + CRLF + rest. */
  lemma FrameSlices(hex: Bytes, p: Bytes, rest: Bytes)
    ensures var s := hex + CRLF + p + CRLF + rest; var i := |hex|;
      |s| >= i + |p| + 4 && s[..i] == hex && IsCrlfAt(s, i) &&
      s[i + 2..i + 2 + |p|] == p && s[i + 2 + |p|..i + |p| + 4] == CRLF && s[i + |p| + 4..] == rest
  {
    var s := hex + CRLF + p + CRLF + rest;
    var i := |hex|;
    assert s == hex + (CRLF + (p + (CRLF + rest)));
    assert s[i..] == CRLF + (p + (CRLF + rest));
    assert s[i + 2..] == p + (CRLF + rest);
    assert s[i + 2 + |p|..] == CRLF + rest;
  }

  /** DecodeChunks over a chunk whose size line ends at `i`. */
  lemma DecodeOne(s: Bytes, i: nat, p: Bytes, rest: Bytes)
    requires FindCrlf(s) == Some(i) && ParseHex(s[..i]) == Some(|p|) && p != []
    requires |s| >= i + |p| + 4 && s[i + 2..i + 2 + |p|] == p
    requires s[i + 2 + |p|..i + |p| + 4] == CRLF && s[i + |p| + 4..] == rest
    ensures DecodeChunks(s) ==
      match DecodeChunks(rest)
      case None => None
      case Some(r) => Some((p + r.0, r.1))
  {
    hide FindCrlf, ParseHex;
  }

  /** Chunks written one after the other and ended by the last-chunk are
      read back as their concatenation, the trailer section after them left
      as it was. An empty chunk would be read as the last-chunk, and the
      server writes a chunk only when it has data. */
  lemma {:induction false} ChunkedReadBack(chunks: seq<Bytes>, trailer: Bytes)
    requires forall i :: 0 <= i < |chunks| ==> chunks[i] != []
    ensures DecodeChunks(Frames(chunks) + LastChunk + trailer) == Some((Concat(chunks), trailer))
  {
    if chunks == [] {
      LastChunkReadBack(trailer);
      assert Frames(chunks) + LastChunk + trailer == LastChunk + trailer;
    } else {
      ChunkedReadBack(chunks[1..], trailer);
      ChunkedStep(chunks, trailer);
    }
  }

  /** The inductive step of ChunkedReadBack: one more frame in front. */
  lemma ChunkedStep(chunks: seq<Bytes>, trailer: Bytes)
    requires chunks != [] && chunks[0] != []
    requires DecodeChunks(Frames(chunks[1..]) + LastChunk + trailer) == Some((Concat(chunks[1..]), trailer))
    ensures DecodeChunks(Frames(chunks) + LastChunk + trailer) == Some((Concat(chunks), trailer))
  {
    hide DecodeChunks, ChunkFrame;
    assert Concat(chunks) == chunks[0] + Concat(chunks[1..]);
    assert Frames(chunks) == ChunkFrame(chunks[0]) + Frames(chunks[1..]);
    hide Concat, Frames;
    var tail := Frames(chunks[1..]) + LastChunk + trailer;
    FrameReadBack(chunks[0], tail);
    assert Frames(chunks) + LastChunk + trailer == ChunkFrame(chunks[0]) + tail;
  }

  /** The last-chunk ends the body. */
  lemma LastChunkReadBack(trailer: Bytes)
    ensures DecodeChunks(LastChunk + trailer) == Some(([], trailer))
  {
    var s := LastChunk + trailer;
    assert IsCrlfAt(s, 1) && !IsCrlfAt(s, 0);
    assert FindCrlf(s) == Some(1);
    assert s[..1] == "0";
    assert ParseHex("0") == Some(0) by {
      assert HexDigitsValue("0") == HexDigitsValue([]) * 16 + HexValue('0');
    }
    assert s[3..] == trailer;
  }

  // ---------------------------------------------------------------------
  // The order of writes, on values

  /** The three flags of WriterState. */
  datatype WriterState = WriterState(statusLineWritten: bool, headersWritten: bool, bodyWritten: bool)

  /** The state of a Writer NewResponse returns. */
  const Fresh := WriterState(false, false, false)

  /** The errors the Writer methods return, one per message. */
  datatype WriteError =
    | StatusLineAlreadyWritten
    | StatusLineNotWritten
    | HeadersAlreadyWritten
    | HeadersNotWritten
    | BodyAlreadyWritten

  /** A call of one of the Writer methods. A header or trailer section
      carries the order in which the range over its map visited the keys. */
  datatype Call =
    | WriteStatusLineCall(code: int)
    | WriteHeadersCall(headers: Fields, order: seq<Bytes>)
    | WriteBodyCall(body: Bytes)
    | WriteChunkedBodyCall(p: Bytes)
    | WriteChunkedBodyEndCall
    | WriteTrailersCall(trailers: Fields, order: seq<Bytes>)

  /** The error a call returns in a state, the checks taken in the order the
      methods make them, or None when the call writes. */
  function Refusal(s: WriterState, c: Call): Option<WriteError> {
    match c
    case WriteStatusLineCall(_) =>
      if s.statusLineWritten then Some(StatusLineAlreadyWritten) else None
    case WriteHeadersCall(_, _) =>
      if !s.statusLineWritten then Some(StatusLineNotWritten)
      else if s.headersWritten then Some(HeadersAlreadyWritten)
      else None
    case WriteBodyCall(_) =>
      if !s.statusLineWritten then Some(StatusLineNotWritten)
      else if !s.headersWritten then Some(HeadersNotWritten)
      else if s.bodyWritten then Some(BodyAlreadyWritten)
      else None
    case _ =>
      if !s.statusLineWritten then Some(StatusLineNotWritten)
      else if !s.headersWritten then Some(HeadersNotWritten)
      else None
  }

  /** The state after a call that writes. */
  function Advance(s: WriterState, c: Call): WriterState {
    match c
    case WriteStatusLineCall(_) => s.(statusLineWritten := true)
    case WriteHeadersCall(_, _) => s.(headersWritten := true)
    case WriteBodyCall(_) => s.(bodyWritten := true)
    case _ => s
  }

  /** The bytes a call that writes appends. */
  function Emitted(c: Call): Bytes {
    match c
    case WriteStatusLineCall(code) => StatusLine(code)
    case WriteHeadersCall(h, order) => FieldSection(h, order)
    case WriteBodyCall(body) => body
    case WriteChunkedBodyCall(p) => ChunkFrame(p)
    case WriteChunkedBodyEndCall => LastChunk
    case WriteTrailersCall(t, order) => FieldSection(t, order)
  }

  /** The state after a sequence of calls on a new Writer. */
  function StateAfter(calls: seq<Call>): WriterState {
    if calls == [] then Fresh
    else
      var s := StateAfter(calls[..|calls| - 1]);
      var c := calls[|calls| - 1];
      if Refusal(s, c).None? then Advance(s, c) else s
  }

  /** The calls of a sequence that wrote something, in order. */
  function Accepted(calls: seq<Call>): seq<Call> {
    if calls == [] then []
    else
      var c := calls[|calls| - 1];
      Accepted(calls[..|calls| - 1]) + if Refusal(StateAfter(calls[..|calls| - 1]), c).None? then [c] else []
  }

  /** The bytes written by a sequence of calls that all write. */
  function Written(calls: seq<Call>): Bytes {
    if calls == [] then []
    else Written(calls[..|calls| - 1]) + Emitted(calls[|calls| - 1])
  }

  /** One more call. */
  lemma Recorded(calls: seq<Call>, c: Call)
    ensures StateAfter(calls + [c]) ==
      if Refusal(StateAfter(calls), c).None? then Advance(StateAfter(calls), c) else StateAfter(calls)
    ensures Written(Accepted(calls + [c])) ==
      Written(Accepted(calls)) + if Refusal(StateAfter(calls), c).None? then Emitted(c) else []
  {
    hide Emitted, Refusal, Advance;
    assert (calls + [c])[..|calls|] == calls;
    var a := Accepted(calls);
    if Refusal(StateAfter(calls), c).None? {
      assert Accepted(calls + [c]) == a + [c];
      assert (a + [c])[..|a|] == a;
    } else {
      assert Accepted(calls + [c]) == a;
    }
  }

  /** The shape of a response: the status line first, the header section
      second, then body, chunks, the last-chunk and trailers in any order,
      and at most one body written with WriteBody. */
  ghost predicate Framed(accepted: seq<Call>) {
    (|accepted| > 0 ==> accepted[0].WriteStatusLineCall?) &&
    (|accepted| > 1 ==> accepted[1].WriteHeadersCall?) &&
    (forall i :: 2 <= i < |accepted| ==>
       !accepted[i].WriteStatusLineCall? && !accepted[i].WriteHeadersCall?) &&
    (forall i, j :: 0 <= i < j < |accepted| && accepted[i].WriteBodyCall? ==> !accepted[j].WriteBodyCall?)
  }

  /** Whatever the calls made, the ones that write make a framed response,
      and each flag says exactly how far it got. */
  lemma {:induction false} CallsAreFramed(calls: seq<Call>)
    ensures Framed(Accepted(calls))
    ensures StateAfter(calls).statusLineWritten <==> |Accepted(calls)| > 0
    ensures StateAfter(calls).headersWritten <==> |Accepted(calls)| > 1
    ensures StateAfter(calls).bodyWritten <==>
      exists i :: 0 <= i < |Accepted(calls)| && Accepted(calls)[i].WriteBodyCall?
  {
    hide Emitted, Written;
    if calls != [] {
      var init := calls[..|calls| - 1];
      CallsAreFramed(init);
      var acc := Accepted(init);
      var c := calls[|calls| - 1];
      if Refusal(StateAfter(init), c).None? {
        assert Accepted(calls) == acc + [c];
        assert forall i :: 0 <= i < |acc| ==> Accepted(calls)[i] == acc[i];
        if c.WriteBodyCall? {
          assert Accepted(calls)[|acc|].WriteBodyCall?;
        }
      } else {
        assert Accepted(calls) == acc;
      }
    }
  }

  /** Written over a prefix is a prefix. */
  lemma {:induction false} WrittenPrefix(calls: seq<Call>, n: nat)
    requires n <= |calls|
    ensures Written(calls[..n]) <= Written(calls)
    decreases |calls|
  {
    if n < |calls| {
      var init := calls[..|calls| - 1];
      WrittenPrefix(init, n);
      assert init[..n] == calls[..n];
    } else {
      assert calls[..n] == calls;
    }
  }

  /** Once the header section is written, the bytes on the wire begin with
      the status line and then that header section. */
  lemma ResponseBegins(calls: seq<Call>)
    requires StateAfter(calls).headersWritten
    ensures |Accepted(calls)| > 1
    ensures Accepted(calls)[0].WriteStatusLineCall? && Accepted(calls)[1].WriteHeadersCall?
    ensures var a := Accepted(calls);
      StatusLine(a[0].code) + FieldSection(a[1].headers, a[1].order) <= Written(a)
  {
    CallsAreFramed(calls);
    hide StatusLine, FieldSection, Accepted, StateAfter;
    var a := Accepted(calls);
    WrittenPrefix(a, 2);
    var p := a[..2];
    assert p[..1] == [a[0]] && p[1] == a[1];
    assert Written(p) == Written([a[0]]) + Emitted(a[1]);
    assert Written([a[0]]) == Written([]) + Emitted(a[0]);
  }

  // ---------------------------------------------------------------------
  // The Writer

  /** Writer: the bytes written to its io.Writer and its WriterState. */
  class Writer {
    /** Everything written to the underlying io.Writer. */
    var out: Bytes
    var statusLineWritten: bool
    var headersWritten: bool
    var bodyWritten: bool
    /** Every call made on this Writer, refused or not. */
    ghost var calls: seq<Call>

    function State(): WriterState
      reads this
    {
      WriterState(statusLineWritten, headersWritten, bodyWritten)
    }

    /** The flags and the output are those of the calls made. */
    ghost predicate Valid()
      reads this
    {
      State() == StateAfter(calls) && out == Written(Accepted(calls))
    }

    /** NewResponse, over an empty io.Writer. */
    constructor ()
      ensures Valid() && calls == [] && out == [] && State() == Fresh
    {
      out := [];
      statusLineWritten := false;
      headersWritten := false;
      bodyWritten := false;
      calls := [];
    }

    /** A range over `h` writing one line per entry, then the empty line;
        `order` is the order the range took. */
    method WriteFields(h: Fields) returns (ghost order: seq<Bytes>)
      modifies this`out
      ensures Enumerates(order, h)
      ensures out == old(out) + FieldSection(h, order)
    {
      var lines;
      lines, order := RangeLines(h);
      out := out + lines + CRLF;
    }

    method WriteStatusLine(code: int) returns (err: Option<WriteError>)
      requires Valid()
      modifies this
      ensures Valid() && calls == old(calls) + [WriteStatusLineCall(code)]
      ensures err == Refusal(old(State()), WriteStatusLineCall(code))
      ensures err.Some? ==> out == old(out) && State() == old(State())
      ensures err.None? ==> out == old(out) + StatusLine(code) &&
                            State() == old(State()).(statusLineWritten := true)
    {
      Recorded(calls, WriteStatusLineCall(code));
      hide Written, Accepted, StateAfter, FieldSection, FieldLines, StatusLine, ChunkFrame, LowerHex, Enumerates;
      if statusLineWritten {
        err := Some(StatusLineAlreadyWritten);
      } else {
        out := out + StatusLine(code);
        statusLineWritten := true;
        err := None;
      }
      calls := calls + [WriteStatusLineCall(code)];
    }

    /** `order` is the order in which the range over the map visited the
        keys. */
    method WriteHeaders(h: Fields) returns (err: Option<WriteError>, ghost order: seq<Bytes>)
      requires Valid()
      modifies this
      ensures err.None? ==> Enumerates(order, h)
      ensures Valid() && calls == old(calls) + [WriteHeadersCall(h, order)]
      ensures err == Refusal(old(State()), WriteHeadersCall(h, order))
      ensures err.Some? ==> out == old(out) && State() == old(State())
      ensures err.None? ==> out == old(out) + FieldSection(h, order) &&
                            State() == old(State()).(headersWritten := true)
    {
      hide Written, Accepted, StateAfter, FieldSection, FieldLines, StatusLine, ChunkFrame, LowerHex, Enumerates;
      order := [];
      if !statusLineWritten {
        err := Some(StatusLineNotWritten);
      } else if headersWritten {
        err := Some(HeadersAlreadyWritten);
      } else {
        order := WriteFields(h);
        headersWritten := true;
        err := None;
      }
      Recorded(calls, WriteHeadersCall(h, order));
      calls := calls + [WriteHeadersCall(h, order)];
    }

    /** Returns the length of the body once it is written. */
    method WriteBody(body: Bytes) returns (n: int, err: Option<WriteError>)
      requires Valid()
      modifies this
      ensures Valid() && calls == old(calls) + [WriteBodyCall(body)]
      ensures err == Refusal(old(State()), WriteBodyCall(body))
      ensures err.Some? ==> n == 0 && out == old(out) && State() == old(State())
      ensures err.None? ==> n == |body| && out == old(out) + body &&
                            State() == old(State()).(bodyWritten := true)
    {
      Recorded(calls, WriteBodyCall(body));
      hide Written, Accepted, StateAfter, FieldSection, FieldLines, StatusLine, ChunkFrame, LowerHex, Enumerates;
      if !statusLineWritten {
        n, err := 0, Some(StatusLineNotWritten);
      } else if !headersWritten {
        n, err := 0, Some(HeadersNotWritten);
      } else if bodyWritten {
        n, err := 0, Some(BodyAlreadyWritten);
      } else {
        out := out + body;
        bodyWritten := true;
        n, err := |body|, None;
      }
      calls := calls + [WriteBodyCall(body)];
    }

    /** Writes one chunk; what it returns is the count of the last write,
        the two bytes of the CRLF after the data, not the length of `p`. */
    method WriteChunkedBody(p: Bytes) returns (n: int, err: Option<WriteError>)
      requires Valid()
      modifies this
      ensures Valid() && calls == old(calls) + [WriteChunkedBodyCall(p)]
      ensures err == Refusal(old(State()), WriteChunkedBodyCall(p))
      ensures err.Some? ==> n == 0 && out == old(out)
      ensures err.None? ==> n == 2 && out == old(out) + ChunkFrame(p)
      ensures State() == old(State())
    {
      Recorded(calls, WriteChunkedBodyCall(p));
      hide Written, Accepted, StateAfter, FieldSection, FieldLines, StatusLine, Enumerates;
      if !statusLineWritten {
        n, err := 0, Some(StatusLineNotWritten);
      } else if !headersWritten {
        n, err := 0, Some(HeadersNotWritten);
      } else {
        ghost var before := out;
        out := out + LowerHex(|p|) + CRLF;
        out := out + p;
        out := out + CRLF;
        FrameWrites(before, p);
        n, err := |CRLF|, None;
      }
      calls := calls + [WriteChunkedBodyCall(p)];
    }

    method WriteChunkedBodyEnd() returns (err: Option<WriteError>)
      requires Valid()
      modifies this
      ensures Valid() && calls == old(calls) + [WriteChunkedBodyEndCall]
      ensures err == Refusal(old(State()), WriteChunkedBodyEndCall)
      ensures err.Some? ==> out == old(out)
      ensures err.None? ==> out == old(out) + LastChunk
      ensures State() == old(State())
    {
      Recorded(calls, WriteChunkedBodyEndCall);
      hide Written, Accepted, StateAfter, FieldSection, FieldLines, StatusLine, ChunkFrame, LowerHex, Enumerates;
      if !statusLineWritten {
        err := Some(StatusLineNotWritten);
      } else if !headersWritten {
        err := Some(HeadersNotWritten);
      } else {
        out := out + LastChunk;
        err := None;
      }
      calls := calls + [WriteChunkedBodyEndCall];
    }

    /** `order` is the order in which the range over the map visited the
        keys. */
    method WriteTrailers(t: Fields) returns (err: Option<WriteError>, ghost order: seq<Bytes>)
      requires Valid()
      modifies this
      ensures err.None? ==> Enumerates(order, t)
      ensures Valid() && calls == old(calls) + [WriteTrailersCall(t, order)]
      ensures err == Refusal(old(State()), WriteTrailersCall(t, order))
      ensures err.Some? ==> out == old(out)
      ensures err.None? ==> out == old(out) + FieldSection(t, order)
      ensures State() == old(State())
    {
      hide Written, Accepted, StateAfter, FieldSection, FieldLines, StatusLine, ChunkFrame, LowerHex, Enumerates;
      order := [];
      if !statusLineWritten {
        err := Some(StatusLineNotWritten);
      } else if !headersWritten {
        err := Some(HeadersNotWritten);
      } else {
        order := WriteFields(t);
        err := None;
      }
      Recorded(calls, WriteTrailersCall(t, order));
      calls := calls + [WriteTrailersCall(t, order)];
    }
  }
}
