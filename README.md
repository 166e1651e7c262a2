# httpfromtcp: a Dafny model of the HTTP/1.1 wire code

This project models the three packages of httpfromtcp that work directly on
bytes. It proves what they compute.

- **`internal/headers`** is modelled in `headers.dfy` (module `Headers`).
  - The header collection is a map from lower-cased field names to values.
  - `Set` merges a repeated name into one value joined by `", "`.
  - `Parse` consumes at most one CRLF-terminated `name: value` line from the front of a buffer.
  - `checkHeaderKey` tests a name against the token characters of section 5.6.2 of RFC 9110.
  - `SetField` and `ParseFields` are the functions of these operations on map values.
  - The class `Headers` updates its map in place and is proved equal to them.
  - The module also holds the `key: value` line the response writer prints, and proves that the parser reads such a line back.
- **`internal/request`** is modelled in `request.dfy` (module `Request`), with its larger proofs in `request_proofs.dfy` (module `RequestProofs`).
  - `requestLineFromString` and `parseRequestLine` read the request-line (section 3 of RFC 9112, upper-case methods and HTTP/1.1 only).
  - The state machine is Initialized → ParsingHeaders → ParsingBody → Done. The body is framed by Content-Length (section 6.3 of RFC 9112): a request that comes out of the reads has exactly the declared number of body bytes, and none without the field.
  - `parseSingle`, `parse` and `RequestFromReader` are modelled twice:
    - as pure functions: `Step`, `Run`, and `Feed` over the pieces the reads deliver;
    - as the step-by-step code: the class `Request`, the `Reader` over a sequence of chunks (with a ghost log of the pieces it delivered), and the method `RequestFromReader` with its buffer of 8 bytes that doubles when full and is shifted left after each parse.
  - `request_scenarios.dfy` (module `RequestScenarios`) runs whole requests from the package's tests through the parser. It shows that any field section of plain lines is read to Done, and that the standard request of the tests gives its three fields however the reads cut it.
- **`internal/response`** is modelled in `response.dfy` (module `Response`).
  - The free `WriteStatusLine` and `WriteHeaders` and `GetDefaultHeaders` are modelled, along with the chunked transfer coding (section 7.1 of RFC 9112).
  - The `Writer` is a class holding the bytes written so far and the three `WriterState` flags. Each method states its exact output and new state.
  - A ghost record of the calls made ties the Writer to its specification. It shows that the status line always comes first and the header section second.
- **`wire.dfy`** (module `Wire`) holds the byte-level library functions the Go code calls. These are `bytes.Index` for CRLF, `strings.Split`, `bytes.TrimSpace`, `bytes.ToLower`, `strconv.Atoi`, and the `%d`/`%x` formatting. Each has the properties the other modules need, for example that `%x` and `%d` are read back.

Go strings and byte slices are both `Bytes`, a sequence of characters below 256.

Go's map iteration order is unspecified. The model gives each range over a map an `order` that lists every key once (ghost in the Writer methods). The bytes written are stated exactly for that order.

## Model

| member | source | states |
|---|---|---|
| Headers.SetField | internal/headers/headers.go:18-24 | a new key is inserted with its value; an existing key gets `old + ", " + value`; the key set grows by exactly the key; every other entry is unchanged |
| Headers.MergeLaw | internal/headers/headers_test.go:77-86 | setting a fresh name to values v1..vn stores them joined by ", " in order of arrival, and leaves every other entry unchanged |
| Headers.Headers.constructor | internal/headers/headers.go:15-17 | NewHeaders gives the empty map |
| Headers.Headers.Set | internal/headers/headers.go:18-24 | the map after Set is SetField of the map before |
| Headers.CheckHeaderKey | internal/headers/headers.go:57-88 | accepts exactly the non-empty tokens (tchar of RFC 9110) that contain no upper-case letter |
| Headers.LowerKeyIsToken | internal/headers/headers.go:46-48 | a name passes the check after lower-casing exactly when the name is a token |
| Headers.LineAsWrittenPanics | internal/headers/headers.go:40-51 | as written, Parse indexes past the split result exactly on a line with no colon, no trailing space and an acceptable name |
| Headers.BareNamePanics | internal/headers/headers.go:51 | as written, the line `Host` reaches the out-of-range index |
| Headers.LineAsWritten | internal/headers/headers.go:37-51 | definition of what the code as written makes of one line (a field, an error, or the index panic); see LineAsWrittenPanics and BareNamePanics |
| Headers.ParseFieldLine | internal/headers/headers.go:37-51 | the corrected line reading: it agrees with LineAsWritten except that the panic becomes the error MissingColon; see ParseFieldLineWithColon and ParseFieldLineWithoutColon |
| Headers.ParseFieldLineWithColon | internal/headers/headers.go:40-51 | with `c` the first colon: InvalidSpacing exactly when a space stands right before it; accepted exactly when there is no such space and the trimmed, lower-cased text before `c` is a valid key, the field then being that key and the trimmed text after `c` |
| Headers.ParseFieldLineWithoutColon | internal/headers/headers.go:40-51 | a line with no colon is always refused: InvalidSpacing exactly when it ends in a space, MissingColon exactly when its name would otherwise be a valid key |
| Headers.ParseFields | internal/headers/headers.go:26-55 | without a CRLF nothing is consumed and the map is unchanged; a leading CRLF consumes 2 and ends the section with the map unchanged; a success that consumes bytes consumed exactly the first line and its CRLF |
| Headers.ParseFieldsFirstLineOnly | internal/headers/headers.go:27-54 | once a CRLF is present, bytes after it (or arriving later) do not change the outcome |
| Headers.ParseFieldsOneLine | internal/headers/headers.go:27-54 | a non-empty line holding no CRLF, then CRLF, either stores its field and consumes the line plus 2, or fails with the line's error |
| Headers.SpaceBeforeColonRejected | internal/headers/headers.go:42-44 | a name ending in a space right before the first colon fails with InvalidSpacing |
| Headers.ParseFieldsStores | internal/headers/headers.go:40-54 | a well-formed line stores the trimmed, lower-cased name and the trimmed text after the first colon (later colons and lone CRs stay in the value), and consumes the line plus 2 without ending the section |
| Headers.LoneCrKept | internal/headers/headers.go:27-54 | a lone CR ends no line: `x: b<CR>c` then CRLF stores `b<CR>c` under `x` and consumes 8 bytes |
| Headers.ParseRejectsLineWithoutColon | internal/headers/headers.go:51 | in the corrected reading, a CRLF-terminated line with no colon is refused |
| Headers.GetAfterStore | internal/headers/headers.go:40-54 | after Parse stores a line, Get by any name that lower-cases to the stored key gives the stored trimmed value (joined after the old value with ", " when the key was present) |
| Headers.Headers.Parse | internal/headers/headers.go:26-55 | the counts, the done flag, the error and the new map are those of ParseFields; on an error the map is unchanged and 0 is returned |
| Request.RequestLineFromString | internal/request/request.go:94-128 | an accepted line always has version "1.1" |
| RequestProofs.RequestLineParsed | internal/request/request.go:94-128 | an accepted line gives an upper-case method, a target without spaces and version 1.1, and formatting them back gives the original text |
| RequestProofs.RequestLineFormatted | internal/request/request.go:94-128 | every such method, target and version, formatted as `METHOD SP target SP HTTP/1.1`, is accepted and read back unchanged |
| RequestProofs.RequestLineAccepted | internal/request/request.go:94-128 | a line is accepted if and only if it is the formatted text of an acceptable request-line |
| RequestProofs.GoodRequestLine | internal/request/request_test.go:28-35 | `GET / HTTP/1.1` gives method GET, target / and version 1.1 |
| Request.ParseRequestLine | internal/request/request.go:81-92 | "need more input" exactly when there is no CRLF; a line up to the first CRLF that is refused gives its error; one that is accepted gives the request-line and its length plus 2 |
| Request.ContentLengthIsGet | internal/request/request.go:168 | the Content-Length lookup the step uses is Get(h, "Content-Length") |
| Request.Step | internal/request/request.go:145-193 | a step in Done fails; a step consumes at most the bytes given; the state never moves back and moves forward by at most one |
| RequestProofs.StepZero | internal/request/request.go:147-166 | a step that consumes nothing and does not finish leaves the request unchanged |
| RequestProofs.StepExtend | internal/request/request.go:147-166 | before the body, a step that fails or consumes bytes does the same whatever bytes follow |
| Request.Run | internal/request/request.go:130-143 | parse consumes at most the bytes given and the state never moves back |
| RequestProofs.RunRestStalls | internal/request/request.go:130-143 | after a parse that does not finish, parsing what it left consumes nothing more |
| RequestProofs.RunAppendBody | internal/request/request.go:167-186 | in the body state, a parse over more bytes continues the parse over fewer |
| RequestProofs.BodyFromNothing | internal/request/request.go:167-186 | in the body state, a parse over no bytes is continued by any bytes that follow |
| RequestProofs.RunBody | internal/request/request.go:167-186 | a parse in the body state: without Content-Length, Done with nothing consumed; an unreadable length, InvalidContentLength; otherwise BodyTooLarge exactly when the body would pass the declared length, else all bytes consumed into the body, headers kept, and Done exactly when the body reaches the length |
| RequestProofs.BodyCompleted | internal/request/request.go:179-184 | bytes that complete the body give exactly the request with that body, Done, all bytes consumed; any byte more gives BodyTooLarge |
| RequestProofs.BodyIncomplete | internal/request/request.go:178-186 | bytes that leave the body short are carried on by the next bytes |
| RequestProofs.RunAppend | internal/request/request.go:130-193 | a parse over `a + b` gives the parse over `a`'s error or finished request (or BodyTooLarge when `b` overruns the body), or else continues from where the parse over `a` stopped |
| Request.Request.constructor | internal/request/request.go:43-46 | a new request is Initialized with no line, no headers and no body |
| Request.Request.ParseSingle | internal/request/request.go:145-193 | the new fields and the count are those of Step; on an error the count is 0 and nothing changes, except that BodyTooLarge has already appended the data |
| Request.Request.Parse | internal/request/request.go:130-143 | on success the new fields and the total are those of Run; on an error it returns 0 and Run's error |
| Request.Reader.Read | internal/request/request_test.go:156-179 | an io.Reader delivering the stream in the given chunks: a read copies the next bytes of the stream into the buffer after the offset and nothing else, logs them as one delivered piece, and reports EOF exactly when no chunk remains |
| Request.Grow | internal/request/request.go:48-52 | the new buffer is twice as long and begins with the bytes in use |
| Request.Fill | internal/request/request.go:48-53 | the buffer is doubled exactly when full; the bytes in use are kept, and the bytes read are exactly the next bytes of the stream and the piece the reader delivered |
| Request.Compact | internal/request/request.go:73-74 | the unconsumed bytes are moved to the front of the buffer |
| Request.Feed | internal/request/request.go:39-79 | a request returned from the reads is always Done |
| Request.AbsorbNext | internal/request/request.go:68-74 | one more read appends its bytes to the unconsumed ones, parses them and keeps what is left |
| Request.AbsorbStops | internal/request/request.go:47 | reads after an error or after Done change nothing |
| Request.FedNext | internal/request/request.go:47-76 | a loop pass that parses keeps the loop invariant: the bytes read plus the unread rest are the stream, and the reads so far give the request and the buffered bytes |
| Request.FedFails | internal/request/request.go:69-72 | a parse error in a pass is what Feed gives for the pieces read so far |
| Request.FedEof | internal/request/request.go:54-58 | the stream ending before Done gives the unexpected-EOF error |
| Request.FedDone | internal/request/request.go:47-77 | reaching Done is what Feed gives for the pieces read so far |
| Request.Round | internal/request/request.go:48-74 | one loop pass either keeps the loop invariant with less left to read, or ends with the error that Feed gives for the pieces the reader delivered |
| Request.RequestFromReader | internal/request/request.go:39-79 | the outcome is Feed of exactly the pieces the reader delivered during the call, which with the unread rest make up the stream; the "no request-line" branch cannot be reached |
| Request.Absorb | internal/request/request.go:47-76 | definition of the loop over the pieces read: append, parse, keep the rest, stop at Done; see AbsorbNext, AbsorbStops and RequestProofs.AbsorbAgrees |
| RequestProofs.AbsorbAgrees | internal/request/request.go:47-76 | reading in pieces gives the error, the unfinished request or the finished request that one parse of all the bytes gives (or BodyTooLarge where the one parse sees bytes past the body) |
| RequestProofs.StepFramed | internal/request/request.go:145-193 | every step keeps the body framed: empty before the body state and without Content-Length, never past the declared length, and equal to it once Done |
| RequestProofs.RunFramed | internal/request/request.go:130-143 | every parse keeps the body framed |
| RequestProofs.AbsorbFramed | internal/request/request.go:47-76 | every sequence of reads keeps the body framed |
| RequestProofs.FeedFramed | internal/request/request.go:39-79 | a request returned from the reads has an empty body when it has no Content-Length, and otherwise a body of exactly the declared length |
| RequestProofs.ReadSplitInvariance | internal/request/request_test.go:94-145 | however the reads cut the stream, the result is the result of one read of all of it, except that a request whose reads stop exactly at the end of its body succeeds where one read of more bytes finds the body too large |
| RequestScenarios.RunGetLine | internal/request/request.go:145-157 | `GET / HTTP/1.1` then CRLF is read as the request-line, its 16 bytes are consumed, and parsing goes on in the header state |
| RequestScenarios.RunFieldLine | internal/request/request.go:158-166 | in the header state a plain field line is stored under its lower-cased name and consumed, and parsing goes on over the rest |
| RequestScenarios.RunEnd | internal/request/request.go:158-171 | the empty line moves the request to the body state, and with no Content-Length it is then Done with an empty body and 2 bytes consumed |
| RequestScenarios.SectionRuns | internal/request/request.go:130-171 | any section of plain field lines and its empty line, with no Content-Length among them, is read to Done with every field stored in order and the whole section consumed |
| RequestScenarios.GetRequestRuns | internal/request/request.go:130-171 | a GET of / followed by such a section is read to Done with that request-line, those fields, no body, and every byte consumed |
| RequestScenarios.StandardRequestText | internal/request/request_test.go:96-98 | the modelled standard request is exactly the text the test sends |
| RequestScenarios.StandardRequestRuns | internal/request/request_test.go:94-106 | Run reads the standard request to Done with GET / 1.1 and the fields host, user-agent and accept with the test's values |
| RequestScenarios.StandardRequestAnySplit | internal/request/request_test.go:94-106 | for every split of the standard request into reads (three bytes at a time among them), Feed gives that same request |
| RequestScenarios.RepeatedHostJoined | internal/request/request_test.go:118-136 | `Host` then `host` is stored once under `host` with the two values joined by ", " |
| Response.StatusLine | internal/response/response.go:40-66 | definition of the bytes the free WriteStatusLine writes; see StatusLineForm and StatusCodeReadBack |
| Response.StatusLineForm | internal/response/response.go:40-66 | every status line is `HTTP/1.1 <decimal code> <reason>\r\n`; the reason is OK, Bad Request or Internal Server Error for 200, 400 and 500, and empty otherwise |
| Response.StatusCodeReadBack | internal/response/response.go:40-66 | for a three-digit code, bytes 9 to 11 of the line are digits that read back as the code, with a space on each side |
| Response.RangeLines | internal/response/response.go:79-84 | the range visits every key once and writes `key: value\r\n` for each, in the order visited |
| Response.FieldSection | internal/response/response.go:78-90 | definition of what the free WriteHeaders writes for a visiting order: the entry lines, then CRLF; see RangeLines and FieldLineReadBack |
| Response.DefaultHeaders | internal/response/response.go:69-76 | exactly the keys Content-Type, Content-Length and Connection, with text/plain, close, and as Content-Length the decimal form of the length, which reads back as the length |
| Response.DefaultHeaderReadBack | internal/response/response.go:69-80 | each default header line, fed to the header parser, stores its value under its lower-cased name and consumes exactly the line |
| Headers.FieldLineReadBack | internal/response/response.go:80 | a `key: value\r\n` line with a token key and a trimmed value without CRLF is read back by the header parser as that key, lower-cased, and value |
| Response.ChunkFrame | internal/response/response.go:145-150 | definition of one chunk: lower-case hex size, CRLF, data, CRLF; see FrameReadBack and ChunkedReadBack |
| Response.FrameReadBack | internal/response/response.go:145-150 | a chunked decoder reads a frame back as its data and goes on after it |
| Response.LastChunkReadBack | internal/response/response.go:165 | `0\r\n` ends the chunked body |
| Response.ChunkedReadBack | internal/response/response.go:137-170 | non-empty chunks written one after another and ended by the last-chunk decode to their concatenation, with the rest left as the trailer section |
| Response.CallsAreFramed | internal/response/response.go:92-135 | whatever calls are made, the ones that write put the status line first and the header section second, each only once, with at most one body; each flag is set exactly when its part was written |
| Response.ResponseBegins | internal/response/response.go:104-117 | once the headers are written, the output begins with the status line followed by the header section |
| Response.Writer.constructor | internal/response/response.go:21-30 | a new writer has written nothing and has all three flags clear |
| Response.Writer.WriteFields | internal/response/response.go:78-90 | appends one line per entry in the order of the range, then `\r\n` |
| Response.Writer.WriteStatusLine | internal/response/response.go:92-102 | refused with no output once the status line is written; otherwise appends the status line and sets only statusLineWritten |
| Response.Writer.WriteHeaders | internal/response/response.go:104-117 | refused with no output unless the status line is written and the headers are not; otherwise appends the header section and sets only headersWritten |
| Response.Writer.WriteBody | internal/response/response.go:119-135 | refused with 0 and no output unless the status line and headers are written and the body is not; otherwise appends the body verbatim, returns its length and sets only bodyWritten |
| Response.Writer.WriteChunkedBody | internal/response/response.go:137-155 | refused with no output unless the status line and headers are written; otherwise appends one chunk frame and returns 2; no flag changes |
| Response.Writer.WriteChunkedBodyEnd | internal/response/response.go:157-170 | refused with no output unless the status line and headers are written; otherwise appends `0\r\n`; no flag changes |
| Response.Writer.WriteTrailers | internal/response/response.go:172-190 | refused with no output unless the status line and headers are written; otherwise appends the trailer lines and `\r\n`; no flag changes |
| Wire.FindCrlf | internal/headers/headers.go:27 | the position of the first CRLF, or none when the bytes hold no CRLF |
| Wire.FindCrlfExtend | internal/request/request.go:82 | once the bytes hold a CRLF, bytes appended after them do not move the first one |
| Wire.IndexOf | internal/headers/headers.go:40 | the position of the first colon, with none before it, or none when there is no colon |
| Wire.Split | internal/request/request.go:95-109 | the parts, joined again with the separator, give back the text, and no part holds the separator |
| Wire.SplitJoin | internal/request/request.go:95-109 | splitting parts joined by a separator they do not hold gives back the parts |
| Wire.TrimSpace | internal/headers/headers.go:46-51 | trimming never lengthens the text; see TrimSpaceSlice |
| Wire.TrimSpaceSlice | internal/headers/headers.go:46-51 | trimming removes exactly the leading and trailing white space, and the result starts and ends with a byte that is not white space |
| Wire.TrimSpaceTrimmed | internal/headers/headers.go:46-51 | text that starts and ends with a byte that is not white space is unchanged by trimming |
| Wire.ToLower | internal/headers/headers.go:46 | lower-casing keeps the length and maps each byte on its own |
| Wire.Atoi | internal/request/request.go:173 | a number is read only from non-empty text, and text starting with a digit is read exactly when it is all digits; see DecimalRoundTrip |
| Wire.Decimal | internal/response/response.go:61-73 | definition of `%d`; see DecimalRoundTrip |
| Wire.DecimalRoundTrip | internal/response/response.go:61-73 | a number written in decimal reads back through Atoi as itself |
| Wire.LowerHex | internal/response/response.go:145 | `%x` of a length: non-empty, digits and a-f only; see LowerHexRoundTrip |
| Wire.LowerHexRoundTrip | internal/response/response.go:145 | a length written in lower-case hex reads back as itself and has no leading zero |

## Left out

- internal/server/server.go and cmd/ are not part of this model. They hold the TCP accept loop, goroutines, the demo handlers, the proxy and the hashing of trailers.
- I/O errors are left out: reads and writes never fail. This drops the error returns of every `Fprintf`/`Write`, including the error of the first write at internal/response/response.go:145, which the code ignores.
- A read that returns bytes together with EOF is not modelled. Each read returns either bytes or EOF, as the test reader does.
- Request.Reader.Read: a read returns as much of the current chunk as fits and keeps the remainder for the next read; the test reader's exact window arithmetic is not modelled.
- Debug printing at internal/request/request.go:177,185 and internal/headers/headers.go:82 is left out.
- `strconv.Atoi` is modelled as an optional sign followed by decimal digits, with no overflow limit.
- `bytes.TrimSpace` and `bytes.ToLower` are modelled on ASCII only (space, tab, LF, VT, FF and CR; A-Z), not on Unicode.
- Headers.Get: `Headers.Get` is called by the request parser but is not defined in internal/headers/headers.go. The model takes it to be a lookup of the lower-cased name that returns "" when the name is absent. That is what the Content-Length test needs.
- Request.Request.Parse: after an error, the fields are not stated. RequestFromReader discards the request on any error.
- Response.Writer.WriteHeaders and Response.Writer.WriteTrailers: the enumeration `order` is stated only when the call writes. A refused call visits no key.
- Response.ChunkedReadBack: it covers non-empty chunks only. An empty `p` makes WriteChunkedBody write `0\r\n\r\n`, which a reader takes as the last-chunk.
- Response.DecodeChunks reads chunk sizes without extensions. It exists only to state the read-back property.
- Go's map iteration order is represented by a ghost enumeration of the keys, not by a fixed order.
- The body bound applies only to bytes that are actually read. A request declaring Content-Length 5 and followed by 6 body bytes succeeds when a read ends exactly after the fifth body byte: the loop stops at Done and never reads the sixth. RequestProofs.ReadSplitInvariance states the exact relationship between split and unsplit reads.

## Findings

| source | as written | input that shows it | evidently intended | confidence | as-written member | corrected member |
|---|---|---|---|---|---|---|
| internal/headers/headers.go:51 | `parts[1]` is read even when SplitN found no colon and returned a single part, so the line panics with an index out of range | the header line `Host\r\n` | a line without a colon is refused with an error, and nothing is stored | not executed | Headers.BareNamePanics | Headers.ParseRejectsLineWithoutColon |
