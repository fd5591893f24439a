# simpleS request and protocol parsers in Dafny

This project models the byte-level and character-level parsers of the simpleS
HTTP/WebSocket server and proves properties of them:

- the streaming `multipart/form-data` parser (`utils/parsers/multipart.js`),
  a state machine over the chunks of a request body that emits one field per
  part;
- the WebSocket frame decoder (`utils/ws.js`: `wsParse`, `wsUnmasking`,
  `wsMessageParse`) and the header checks of the upgrade listener;
- the streaming query-string parser (`lib/parsers/qs.js`);
- the character scanners of `lib/request.js`: the multipart path of
  `parsePOST`, the `Cookie` header scan of `parseCookies` and `parseLangs`
  for `Accept-Language`.

Each stateful JavaScript object is a Dafny `class` whose fields are the
object's members. Its methods follow the JavaScript bodies, loop by loop, and
each one ensures that the object's state afterwards (`Snapshot()`) is what a
pure function of the state before gives. The functions live in the `*Spec`
modules. The lemmas in the `*Properties` modules prove what the parsers
guarantee about those functions: round trips from an encoder written for the
purpose, invariants kept by every step, and the exact error and stall cases.

Modules:

| module | file | models |
|---|---|---|
| `Js` | js.dfy | JavaScript built-ins used by the parsers: `slice`, `substr`, `substring`, `indexOf`, `trim`, `String.fromCharCode`, UTF-8 `Buffer`s, `^` on bytes |
| `MultipartSpec`, `Multipart`, `MultipartProperties` | multipart_spec.dfy, multipart.dfy, multipart_props.dfy | `utils/parsers/multipart.js` |
| `WebSocketSpec`, `WebSocket`, `WebSocketProperties` | ws_spec.dfy, ws.dfy, ws_props.dfy | `utils/ws.js` |
| `QueryStringSpec`, `QueryString`, `QueryStringProperties` | qs_spec.dfy, qs.dfy, qs_props.dfy | `lib/parsers/qs.js` |
| `RequestSpec`, `Request`, `RequestProperties` | request_spec.dfy, request.dfy, request_props.dfy | `lib/request.js` |

Calls into code outside the model are parameters:

- `decodeURIComponent` is a function returning `None` where it throws;
- `Number` is a function from the quality text to thousandths;
- the host's session store is a map;
- the host lookup and `utils.accepts` are booleans.

A JavaScript exception inside a parser loop is a `threw` result, and the
state is left as it was at the throw. `emit`, `console.error`, socket writes
and `setImmediate` become logs of events and actions, and a queue of
scheduled calls.

## Model

| member | source | states |
|---|---|---|
| MultipartSpec.BoundaryParam | utils/parsers/multipart.js:9 | the `boundary=` regular-expression search: a match is non-empty and is the capture at the leftmost position, at or after the start, where the expression matches; no match exactly when it matches at no such position |
| MultipartProperties.BoundaryParamUnquoted | utils/parsers/multipart.js:9-20 | a Content-Type with `boundary=v`, v unquoted and free of `;`, gives the boundary v |
| MultipartProperties.BoundaryParamQuoted | utils/parsers/multipart.js:9-20 | `boundary="v"` gives the text between the quotes, whatever follows |
| MultipartSpec.BoundaryBytes | utils/parsers/multipart.js:29 | the boundary buffer is CR LF `--` followed by the UTF-8 bytes of the boundary text |
| MultipartSpec.Initial | utils/parsers/multipart.js:6-36 | a new parser starts in state 0 with cursor 2 and no field; without a boundary it is in state -1 with exactly one error event |
| Multipart.MultipartParser.constructor | utils/parsers/multipart.js:6-36 | the object's members are those of `Initial` and its boundary is `BoundaryBytes` of the Content-Type |
| MultipartProperties.NoBoundaryFails | utils/parsers/multipart.js:15-25 | a Content-Type where the boundary expression matches nowhere gives a parser failed with the no-boundary error, and every later `write` leaves it unchanged |
| MultipartSpec.ParseDisposition | utils/parsers/multipart.js:152 | a disposition that matches begins with `form-data; name="` (ignoring ASCII case) and has a non-empty, quote-free name |
| MultipartProperties.DispositionRoundTrip | utils/parsers/multipart.js:152 | `form-data; name="n"` is read back as the name n with no file name |
| MultipartProperties.DispositionWithFilenameRoundTrip | utils/parsers/multipart.js:152 | `form-data; name="n"; filename="f"` is read back as name n and file name f |
| MultipartSpec.NewField | utils/parsers/multipart.js:39-53 | a new field has the title's name, no headers and no chunks; it is a file field exactly when the file name is non-empty |
| MultipartProperties.EmptyFilenameIsNoFile | utils/parsers/multipart.js:48-52 | a disposition with `filename=""` matches, but gives a field that is not a file |
| MultipartSpec.EndPartData | utils/parsers/multipart.js:70-77 | with an open field, the chunk is its last one, the field is ended and closed, and the parser moves to the given state with cleared cursors; without one the call throws and changes nothing |
| Multipart.MultipartParser.EndPartData | utils/parsers/multipart.js:70-77 | the members after the call are those `MultipartSpec.EndPartData` gives, and `threw` is its throw flag |
| MultipartSpec.GetData | utils/parsers/multipart.js:80-120 | one payload byte: the next delimiter byte moves the cursor on; after a whole delimiter CR or `-` is remembered, and CR LF or `--` ends the open field with the payload window as its last chunk and moves to headers or to done; the parser fails exactly when a byte other than CR or `-` follows the delimiter or the pair after it is neither CR LF nor `--`; inside a partial match a byte that breaks it restarts the match only when it is a CR and otherwise leaves the cursor as it was; the last byte of a chunk, outside a match, appends the pending payload to the open field (throwing when there is none) and changes nothing else |
| Multipart.MultipartParser.GetData | utils/parsers/multipart.js:80-120 | the members after the call are those `MultipartSpec.GetData` gives |
| MultipartSpec.GetHeader | utils/parsers/multipart.js:123-137 | CR is remembered; a CRLF after an empty line emits the field and enters the payload state; a CRLF after a header line parses it; any other byte is buffered |
| Multipart.MultipartParser.GetHeader | utils/parsers/multipart.js:123-137 | the members after the call are those `MultipartSpec.GetHeader` gives |
| MultipartSpec.GetRequestEnd | utils/parsers/multipart.js:140-147 | the parser stays in state 3, or fails with the invalid-ending error |
| Multipart.MultipartParser.GetRequestEnd | utils/parsers/multipart.js:140-147 | the members after the call are those `MultipartSpec.GetRequestEnd` gives |
| MultipartSpec.NewPart | utils/parsers/multipart.js:150-161 | a matching disposition appends a new field and makes it current; any other fails the parser with the invalid-disposition error |
| Multipart.MultipartParser.NewPart | utils/parsers/multipart.js:150-161 | the members after the call are those `MultipartSpec.NewPart` gives |
| MultipartSpec.ApplyHeader | utils/parsers/multipart.js:182-185 | `Content-Type` of a file field sets its type; any other header of a field is recorded under its name; name, chunks and file name never change |
| MultipartSpec.ApplyHeaderLine | utils/parsers/multipart.js:180-188 | a header line leaves the buffer alone and either keeps the state or fails the parser |
| Multipart.MultipartParser.ApplyHeaderLine | utils/parsers/multipart.js:180-188 | the members after the call are those `MultipartSpec.ApplyHeaderLine` gives |
| MultipartSpec.ParseHeader | utils/parsers/multipart.js:164-193 | the buffer is always emptied; no colon at position 1 or later fails the parser with the no-delimiter error; without a field only `Content-Disposition` opens a part (anything else fails the parser silently); with a field the header is applied to it |
| Multipart.MultipartParser.ParseHeader | utils/parsers/multipart.js:164-193 | the members after the call are those `MultipartSpec.ParseHeader` gives |
| MultipartSpec.SkipFirstBoundary | utils/parsers/multipart.js:196-210 | one byte of the opening delimiter: a match advances the cursor; the final LF after CR enters the header state; any other byte fails the parser with the unexpected-boundary error |
| Multipart.MultipartParser.SkipFirstBoundary | utils/parsers/multipart.js:196-210 | the members after the call are those `MultipartSpec.SkipFirstBoundary` gives |
| MultipartSpec.Step | utils/parsers/multipart.js:219-233 | one iteration of the `write` loop; a failed or finished parser is left unchanged |
| Multipart.MultipartParser.Dispatch | utils/parsers/multipart.js:219-233 | the members after one iteration are those `MultipartSpec.Step` gives |
| MultipartSpec.WriteFrom | utils/parsers/multipart.js:213-241 | the `write` loop from a position keeps the parser well formed; a failed parser is left unchanged |
| Multipart.MultipartParser.Write | utils/parsers/multipart.js:213-241 | the members after `write(data)` are those `WriteFrom` gives from index 0, and `threw` says whether a step threw |
| Multipart.MultipartParser.End | utils/parsers/multipart.js:244-246 | `end()` only emits the end event |
| MultipartProperties.WriteReachable | utils/parsers/multipart.js:213-241 | the `write` loop keeps the parser in a reachable state: never state 3, no field while the opening delimiter is read, and a reset boundary cursor in the header and done states |
| MultipartProperties.StateThreeUnreachable | utils/parsers/multipart.js:140-147 | after any series of chunks a new parser is never in state 3, so `getRequestEnd` never runs |
| MultipartProperties.DoneIgnoresBytes | utils/parsers/multipart.js:213-241 | once the closing delimiter has been seen (state 4), every further byte is ignored |
| MultipartProperties.FirstBoundaryAccepts | utils/parsers/multipart.js:196-210 | the rest of the opening delimiter, read from any cursor, enters the header state with cleared cursors |
| MultipartProperties.FirstBoundaryRejects | utils/parsers/multipart.js:196-210 | any byte that differs from the opening delimiter fails the parser with one unexpected-boundary error |
| MultipartProperties.FirstBoundaryComplete | utils/parsers/multipart.js:196-210 | a body that starts with `--boundary` CRLF is parsed from its first header byte, in the header state |
| MultipartProperties.FirstBoundaryPartial | utils/parsers/multipart.js:196-210 | a proper prefix of the opening delimiter leaves a new parser waiting in state 0, with no event |
| MultipartProperties.FirstBoundaryMismatch | utils/parsers/multipart.js:196-210 | a body whose first bytes stray from the opening delimiter fails a new parser with exactly one unexpected-boundary error |
| MultipartProperties.DataRoundTrip | utils/parsers/multipart.js:80-120 | in the payload state with an open field, a chunk starting with a CR-free payload, the delimiter and CR LF (or `--`) ends the field with exactly that payload as its last chunk and goes on in the header (or done) state after it |
| MultipartProperties.DataChunkEnds | utils/parsers/multipart.js:213-241 | a chunk holding only such a payload and delimiter leaves the parser with the field ended, nothing thrown |
| MultipartProperties.SplitDelimiterLosesPayload | utils/parsers/multipart.js:80-120 | `x`, CR LF `--B` CR LF ends the field with `x` when written in one chunk, but with a lone LF when split after the CR |
| MultipartProperties.StuckMatchEndsField | utils/parsers/multipart.js:80-120 | `x` CR LF `y--B` CR LF, which holds no delimiter, ends the open field with `x` in one chunk: the match broken by `y` is not reset, and the bytes after it complete it |
| WebSocketSpec.Initial | utils/ws.js:207-213 | the frame object starts in state 0 with no data, no message and nothing scheduled |
| WebSocketSpec.Masked | utils/ws.js:28-30 | byte j of the payload is XORed with byte j mod 4 of the masking key |
| WebSocketProperties.MaskedInvolutive | utils/ws.js:28-30 | masking twice with the same key gives the payload back |
| WebSocketProperties.MaskedAppend | utils/ws.js:17-30 | unmasking in steps whose lengths are multiples of 4 is unmasking the whole payload at once |
| WebSocket.Frame.MaskInPlace | utils/ws.js:28-30 | the first `size` bytes of the array are replaced by their unmasked bytes and the rest is unchanged |
| WebSocketSpec.UnmaskSize | utils/ws.js:17-22 | a step takes the rest of the payload once it is all buffered, else 16384 bytes when more than that is buffered, else nothing |
| WebSocketSpec.Unmasking | utils/ws.js:10-48 | a step appends the unmasked bytes to the message, drops them from the buffer and lowers the remaining length, then delivers the message or schedules another step; a step of size 0 changes nothing |
| WebSocket.Frame.Unmasking | utils/ws.js:10-48 | the members after the call are those `WebSocketSpec.Unmasking` gives |
| WebSocketProperties.UnmaskingKeepsAlignment | utils/ws.js:10-48 | across steps the message is always the unmasked wire bytes seen so far, and the message delivered is the unmasked payload |
| WebSocketSpec.MessageParse | utils/ws.js:51-82 | a binary message, or any message in raw mode, is delivered as it is (flagged as text for opcode 1); any other is dispatched; the decoder resets and schedules a parse when two bytes remain |
| WebSocket.Frame.MessageParse | utils/ws.js:51-82 | the members after the call are those `WebSocketSpec.MessageParse` gives |
| WebSocketSpec.ReadHeader | utils/ws.js:102-145 | FIN is bit 7 of byte 0, the opcode its low 4 bits, the length the low 7 bits of byte 1; the next state is 1, 2 or 3 for lengths 126, 127 and any other |
| WebSocket.Frame.ReadHeader | utils/ws.js:102-145 | the members after the call are those `WebSocketSpec.ReadHeader` gives |
| WebSocket.Frame.CheckHeader | utils/ws.js:108-135 | the closes raised by the four header checks, in order |
| WebSocketProperties.HeaderChecks | utils/ws.js:108-135 | each check closes exactly when its rule is broken (reserved bits, unknown opcode, oversized or fragmented control frame, unmasked frame), and a header passes exactly when no rule is broken |
| WebSocketSpec.ControlOpcode | utils/ws.js:147-160 | close and ping frames close the connection and fail the decoder; a pong frame is skipped; a data frame keeps the state with the cursor at 2 |
| WebSocket.Frame.ControlOpcode | utils/ws.js:147-160 | the members after the call are those `WebSocketSpec.ControlOpcode` gives |
| WebSocketProperties.ControlFrames | utils/ws.js:102-160 | the header step: opcodes 8 and 9 end in state -1 with their close, opcode 10 drops the frame, data opcodes go on to the length states |
| WebSocketSpec.ParseLength | utils/ws.js:163-180 | 16-bit lengths come from bytes 2-3, 64-bit ones from bytes 6-9, and a non-zero high word closes the connection; with too few bytes nothing changes |
| WebSocket.Frame.ParseLength | utils/ws.js:163-180 | the members after the call are those `WebSocketSpec.ParseLength` gives |
| WebSocketProperties.ShortLengthField | utils/ws.js:163-166 | a 16-bit length written big-endian reads back as itself |
| WebSocketProperties.LongLengthField | utils/ws.js:167-180 | a 32-bit length written as a 64-bit big-endian field reads back with a zero high word |
| WebSocketSpec.ParseMask | utils/ws.js:183-196 | the mask is taken exactly in state 3 with four bytes after the cursor and the message within the limit, and the buffer then starts at the payload; a message over the limit closes the connection; short of four bytes, or in another state, nothing changes |
| WebSocket.Frame.ParseMask | utils/ws.js:183-196 | the members after the call are those `WebSocketSpec.ParseMask` gives |
| WebSocketSpec.Parse | utils/ws.js:85-202 | `wsParse` keeps the decoder valid and never grows the buffer and queue by more than the chunk |
| WebSocket.Frame.Parse | utils/ws.js:85-202 | the members after the call are those `WebSocketSpec.Parse` gives |
| WebSocket.Frame.ParseHeader | utils/ws.js:102-160 | the members after the call are those `WebSocketSpec.ParseHeader` gives |
| WebSocketProperties.ParseInPayload | utils/ws.js:199-201 | in the payload state a parse call only appends the chunk and takes one unmasking step |
| WebSocketProperties.FailedOnlyBuffers | utils/ws.js:85-202 | a failed decoder only buffers what it receives |
| WebSocketProperties.ZeroLengthStalls | utils/ws.js:17-25 | a frame whose remaining payload length is 0 never completes: unmasking does nothing and each parse call only buffers |
| WebSocketProperties.NonFinalFrameStalls | utils/ws.js:41-46 | once a non-final frame's payload is unmasked the decoder stays in the payload state with length 0 and delivers nothing |
| WebSocketProperties.HeaderOfFrame | utils/ws.js:102-180 | the header of a final, masked frame is read as final, with its opcode and its payload length in every length form |
| WebSocketProperties.MaskOfFrame | utils/ws.js:102-196 | the header steps of a final, masked frame within the limit reach the payload state with its key and its masked payload at the head of the buffer |
| WebSocketProperties.ParseOneFrame | utils/ws.js:85-202 | a complete final frame at the head of the buffer is delivered whole in one parse call, and the decoder is left at the next frame |
| WebSocketSpec.Receive | utils/ws.js:269-272 | a readable event parses the chunk and runs every queued call until none is left |
| WebSocket.Frame.Receive | utils/ws.js:269-272 | the members after the event are those `WebSocketSpec.Receive` gives |
| WebSocket.Frame.RunNext | utils/ws.js:45 | the first queued call runs on the decoder |
| WebSocketProperties.ReceiveFrames | utils/ws.js:269-272 | any run of complete client frames arriving in one chunk is delivered frame by frame, in order, and the buffer is left empty |
| WebSocketProperties.EmptyFrameNeverDelivered | utils/ws.js:17-25 | a data frame with an empty payload is never delivered: the decoder stays in the payload state with length 0 |
| WebSocketProperties.HandshakeDecision | utils/ws.js:315-341 | the upgrade goes ahead exactly when a host serves the path, the upgrade header is `websocket`, a key is given, the version is `13` and any origin is accepted; the later checks override the earlier errors |
| QueryStringSpec.FromCharCodes | lib/parsers/qs.js:85 | the buffered elements become one character each, bytes by their value and string characters by their `ToNumber` code |
| QueryStringSpec.AddPair | lib/parsers/qs.js:47-75 | storing a pair adds only its property; a list key appends to an array; a repeated plain key turns the value into an array; otherwise the value is set |
| QueryStringSpec.Initial | lib/parsers/qs.js:6-17 | a new parser reads a key with an empty buffer and an empty result |
| QueryString.QSParser.constructor | lib/parsers/qs.js:6-17 | the object's members are those of `Initial` |
| QueryStringSpec.AddData | lib/parsers/qs.js:41-76 | it throws exactly when a decode throws; a key that decodes to "" changes nothing; any other pair is stored and both key and value are reset |
| QueryString.QSParser.AddData | lib/parsers/qs.js:41-76 | the members after the call are those `QueryStringSpec.AddData` gives |
| QueryStringSpec.GetKey | lib/parsers/qs.js:79-97 | `&` ends the key and stores the pair; `=` ends the key and moves to the value; every other element is buffered |
| QueryString.QSParser.GetKey | lib/parsers/qs.js:79-97 | the members after the call are those `QueryStringSpec.GetKey` gives |
| QueryStringSpec.GetValue | lib/parsers/qs.js:100-111 | only `&` ends the value: the buffer becomes the value, the pair is added by `AddData`, the call throws exactly when adding it does, and otherwise a key is read next; `=` and every other element are buffered |
| QueryString.QSParser.GetValue | lib/parsers/qs.js:100-111 | the members after the call are those `QueryStringSpec.GetValue` gives |
| QueryString.QSParser.Write | lib/parsers/qs.js:114-133 | the members after `write(data)` are those of feeding every element in turn, up to the first throw |
| QueryStringSpec.End | lib/parsers/qs.js:136-147 | `end()` turns the buffer into the key (state 0) or the value; it throws exactly when either decodes to nothing; a key decoding to "" only keeps the flushed key and value; otherwise the pair is stored by `AddPair` and key and value are reset; the buffer and state are kept |
| QueryString.QSParser.End | lib/parsers/qs.js:136-147 | the members after the call are those `QueryStringSpec.End` gives |
| QueryStringSpec.Parse | lib/parsers/qs.js:20-31 | an absent or empty string gives an empty result; otherwise the string is written and ended |
| QueryString.QSParser.Parse | lib/parsers/qs.js:20-31 | the result is that of `QueryStringSpec.Parse` |
| QueryStringProperties.FeedAppend | lib/parsers/qs.js:114-133 | writing two chunks one after the other is writing their concatenation |
| QueryStringProperties.BufferKey | lib/parsers/qs.js:79-97 | in the key state every element other than `&` and `=` is only buffered |
| QueryStringProperties.BufferValue | lib/parsers/qs.js:100-111 | in the value state every element other than `&`, `=` included, is only buffered |
| QueryStringProperties.ParseQuery | lib/parsers/qs.js:41-147 | a buffer of `&`-joined `key=value` pairs, written and ended, stores every pair in order |
| QueryStringProperties.StringInputIsOneKey | lib/parsers/qs.js:20-31 | the characters of a string never equal the numbers 38 and 61, so `parse` of a non-empty string yields at most one property, a key of char codes below 10 |
| QueryStringProperties.EmptyKeyKeepsValue | lib/parsers/qs.js:47-75 | a key that decodes to "" keeps its value for the next pair: `=2&b` stores "2" under `b` |
| Request.SkipChars | lib/request.js:9-11 | the scan index passes every character of the skip set and stops on the first other one or at the end |
| Request.TakeChars | lib/request.js:16-19 | the token is the text up to the first stop character or the end |
| RequestSpec.PostKindOf | lib/request.js:6-48 | a multipart result has a non-empty boundary, the text at the end of the Content-Type |
| Request.RequestInterface.ContentKind | lib/request.js:6-48 | the scan of the Content-Type gives the kind `PostKindOf` gives |
| RequestProperties.PostKindOfMultipart | lib/request.js:6-48 | spaces, `multipart/form-data`, spaces and `;`, `boundary`, spaces and `=`, then a boundary: the multipart branch with that boundary |
| RequestProperties.MultipartOnlyFrom | lib/request.js:6-48 | the multipart branch is taken only for a Content-Type of that shape, so the two lemmas give an if-and-only-if |
| Request.RequestInterface.constructor | lib/request.js:111-132 | a new request has its body, no files and its URL query |
| RequestSpec.FileHeader | lib/request.js:67-73 | a part whose header holds `filename="` is a file part with its name |
| RequestProperties.FileHeaderAt | lib/request.js:58-74 | the header of a file part, `Content-Disposition` with name and file name, then `Content-Type` and an empty line, reads back the name, file name and type as written, and the content starts after the empty line |
| Request.RequestInterface.ReadHeader | lib/request.js:58-74 | the header of a part read from its opening |
| Request.RequestInterface.ReadName | lib/request.js:58-63 | a negative index exactly when `name="` is missing; otherwise the name and where it ends |
| Request.RequestInterface.ReadRest | lib/request.js:65-74 | the rest of the part header after its name |
| RequestSpec.Store | lib/request.js:80-88 | a part with a non-empty file name becomes a file entry; any other becomes a query entry |
| Request.RequestInterface.StorePart | lib/request.js:80-88 | the files and query after the call are those `Store` gives |
| Request.RequestInterface.ReadContent | lib/request.js:75-79 | the content is the text up to the closing delimiter |
| Request.RequestInterface.ReadPartContent | lib/request.js:75-89 | the rest of one loop pass, after the header, agrees with the part loop |
| Request.RequestInterface.ReadPart | lib/request.js:57-90 | one pass of the part loop agrees with the part loop |
| Request.RequestInterface.ParseParts | lib/request.js:57-90 | the files and query after the loop are those of the part loop from index 0, and `hangs` flags the case where the source loops forever |
| Request.RequestInterface.ParsePost | lib/request.js:5-90 | `parsePOST` leaves the files and query the part loop gives on the multipart branch, and changes nothing otherwise |
| RequestProperties.ParsePostParts | lib/request.js:49-57 | on the multipart branch the body is parsed by the part loop from index 0 |
| RequestProperties.FieldRoundTrip | lib/request.js:57-90 | a body of one field part, closed by the closing delimiter, stores the field's value under its name |
| RequestProperties.ParsePostField | lib/request.js:5-90 | a multipart Content-Type and a one-field body give that field in the query and nothing else |
| RequestProperties.ClosingEndsParts | lib/request.js:57-89 | after content ending at j, a `-` where an opening delimiter has its CR (as in `--b--`) ends the loop at j + 2 with the state kept |
| RequestProperties.FileRoundTrip | lib/request.js:57-90 | a body of one file part, closed by the closing delimiter, stores the content, file name and type in `files` under its name (in `query` when the file name is empty) |
| RequestProperties.ParsePostFile | lib/request.js:5-90 | a multipart Content-Type and a one-file body give that file in `files` and nothing else |
| RequestProperties.TwoPartsRoundTrip | lib/request.js:57-90 | a file part followed by a field part: after the first part the cursor moves past its CR LF (:89) onto the second opening, and both parts are stored |
| RequestProperties.RepeatedPartHangs | lib/request.js:57-90 | a pass whose content search ends two characters before its own opening brings the cursor back there: the loop never ends, whatever the fuel, and stores that part each time |
| RequestProperties.FilenameAnywhere | lib/request.js:65-66 | `filename="` anywhere after the name, even in a later part or the content, makes the part a file part |
| RequestProperties.MissingNameEndsParts | lib/request.js:59-62 | an opened part with no `name="` after it ends the loop with nothing stored |
| RequestProperties.MissingClosingHangs | lib/request.js:76-79 | an opened part with no closing delimiter after its header makes the content loop run forever |
| RequestSpec.Apply | lib/request.js:219-223 | `_session` sets the session to the one stored under the value, or to none when there is none, and is never a cookie; any other name sets that cookie |
| RequestSpec.CookieAt | lib/request.js:192-225 | one pass of the cookie loop: the name, `=` run and value positions in order inside the header |
| Request.ReadCookie | lib/request.js:193-218 | a cookie is found exactly when `CookieAt` finds one, with its name and raw value |
| Request.SetCookie | lib/request.js:219-223 | the cookies and session after one decoded pair are the jar `Apply` gives |
| RequestSpec.ParseCookies | lib/request.js:184-226 | no, or an empty, Cookie header gives no cookies and no session |
| Request.ParseCookies | lib/request.js:184-226 | the result is the one `RequestSpec.ParseCookies` gives |
| RequestProperties.ParseCookiesRoundTrip | lib/request.js:184-226 | a header of `name=value` pairs joined by `; ` gives the jar built by applying every decoded pair in order |
| RequestProperties.ParseCookiesDropsDangling | lib/request.js:196-211 | a trailing name without a value (or with only `=`) is dropped |
| RequestProperties.SessionNotACookie | lib/request.js:219-223 | the scan never stores `_session` as a cookie |
| RequestProperties.ParseCookiesNoSessionCookie | lib/request.js:184-226 | no header yields a `_session` cookie |
| RequestProperties.LastCookieWins | lib/request.js:219-223 | of repeated names the last value wins; a last `_session` sets the session found for it, or none |
| RequestSpec.LangAt | lib/request.js:273-314 | one pass of the language loop: the tag and quality positions in order inside the header |
| Request.ReadLang | lib/request.js:273-314 | an entry is found exactly when `LangAt` finds one, with its tag and quality text |
| Request.ScanLangEntries | lib/request.js:272-315 | the entries are those of the language scan from index 0 |
| RequestSpec.InsertLast | lib/request.js:317-319 | one step of the sort, adding one entry |
| RequestSpec.SortByQuality | lib/request.js:317-319 | the sort keeps the length |
| Request.SortByQualityInPlace | lib/request.js:317-319 | the array after the in-place sort is `SortByQuality` of the array before |
| Request.Insert | lib/request.js:317-319 | one insertion step of the in-place sort |
| RequestProperties.SortPermutes | lib/request.js:317-319 | the sort is a permutation |
| RequestProperties.SortOrders | lib/request.js:317-319 | the sorted entries have non-increasing quality |
| RequestProperties.SortKeepsOrdered | lib/request.js:317-319 | entries already ordered are left as they are |
| RequestProperties.SortStable | lib/request.js:317-319 | entries of equal quality keep their order |
| RequestSpec.Tags | lib/request.js:321-325 | tag k is the tag of entry k |
| Request.TagsOf | lib/request.js:321-325 | the array of tags is `Tags` of the entries |
| RequestSpec.ParseLangs | lib/request.js:259-328 | no, or an empty, header gives no languages; otherwise one tag per entry of the scan |
| Request.ParseLangs | lib/request.js:259-328 | the result is the one `RequestSpec.ParseLangs` gives |
| RequestProperties.ParseLangsRoundTrip | lib/request.js:259-328 | a header of ranges, each with or without `;q=`, gives the tags of its entries sorted by quality |
| RequestProperties.ParseLangsInOrder | lib/request.js:259-328 | ranges already in non-increasing quality come back as their tags, in header order |
| RequestProperties.PlainEntriesOrdered | lib/request.js:286-291 | ranges without a quality all get quality 1, so they are already ordered |
| RequestProperties.StopsAtOtherParameter | lib/request.js:293-298 | a `;` parameter other than `q` ends the scan there |
| RequestProperties.ParseLangsStopsAtOtherParameter | lib/request.js:259-328 | a range with a parameter other than `q`, and everything after it, is ignored |

## Left out

- `wsHandshake` (utils/ws.js:205-295): the SHA-1 and base64 key hash, the response writes, keep-alive and session timers are I/O, crypto and clocks; the model starts from the frame object it creates.
- The upgrade listener (utils/ws.js:297-357) beyond its error checks: the host lookup with `url.parse` is the boolean `hostFound` and `utils.accepts` is `originAccepted`; logging and `socket.destroy` are not modelled.
- `wsMessageParse` in structured mode: `JSON.parse`, the error domain and the dispatch to the application are one `Dispatch(message)` action; decoding a text message as UTF-8 is the text flag of `Deliver`.
- `setImmediate`: queued calls run in order after the current one, and `WebSocketSpec.Receive` runs them all before the next chunk. In Node an immediate queued from inside an immediate runs in a later turn of the event loop, so their interleaving with other connections, with timers and with later readable events of the same connection (a `wsParse` between two `wsUnmasking` steps) is not modelled.
- Socket writes of the close frame and `console.error` are the `Close` actions that say why the connection closes.
- Multipart field streams (`stream.PassThrough`): a field's payload is its list of chunks; back-pressure and the stream `end` are the `ended` flag.
- Multipart `emit`: the events are a log, so listeners running inside `emit` and throwing are not modelled.
- Multipart `emit('error')` with no `error` listener: Node's EventEmitter then throws. In the constructor (utils/parsers/multipart.js:23) no listener can be attached yet, so `new multipartParser(type)` without a boundary throws, where `MultipartSpec.Initial` gives a parser failed in state -1. In `getData`, `newPart`, `parseHeader` and `skipFirstBoundary` (:101, :110, :158, :190, :207) the throw comes before `state = -1`, where the model logs the error and fails the parser. The model assumes a listener is attached.
- `parsePOST` on a request with no Content-Type header: `content.charAt` on `undefined` throws a TypeError at lib/request.js:9. `ContentKind`, `PostKindOf` and `ParsePost` take the header as a string, so this throw is not modelled.
- `MultipartSpec.Step`: states only well-formedness and the no-op states; each state's step is specified by its own function (`SkipFirstBoundary`, `GetHeader`, `GetData`, `GetRequestEnd`).
- `WebSocketSpec.Parse`: states validity and a size bound only; the decoding it performs is given by the per-state functions and proved by `ParseOneFrame` and `ReceiveFrames`.
- `parsePOST` on a non-multipart body (lib/request.js:91-96): it calls `parse` of Node's built-in `querystring` module (required at lib/request.js:1), not lib/parsers/qs.js, and copies the properties into the query. Node's parser is not modelled (it splits strings on `&` and `=`, decodes `+`, and gives arrays for repeated keys), so the model leaves this branch as no change.
- `RequestSpec.FileHeader`: its own contract states only the name and that a file name is present. What the file name, the type and the content start are, for a header written as browsers write it, is stated by `FileHeaderAt`, and for whole bodies by `FileRoundTrip` and `TwoPartsRoundTrip`; for other headers (no closing quote, no `Content-Type: `) only its definition says.
- `parsePOST`'s endless loops (lib/request.js:76-79 with no closing delimiter, and the part loop returning to a part it already read, `RepeatedPartHangs`): they are the `hangs` outcome, not non-terminating computations.
- The body arriving in `data` events (lib/request.js:171-178): the body is the whole concatenated text.
- The session getter, the session prolongation and its timers (lib/request.js:135-165, 228-250): clocks, response headers and timers.
- `RequestSpec.ParseCookies`: returns the session object found in the store as `Jar.session`. In the code, when a session is found and a response is passed (always, from lib/request.js:106), `var session` at lib/request.js:242 rebinds that same variable to the Set-Cookie text, so `parseCookies` returns that text as the session. `clearTimeout(session._timeout)` at :246 then clears nothing, and the new timer deletes `host.sessions['undefined']`. The model gives the session as found before the prolongation.
- `Number(quality)`: a parameter giving thousandths; NaN, the comparator's behaviour on NaN and fractional qualities are not modelled.
- `Array.prototype.sort`: modelled as a stable insertion sort; engines whose sort is not stable may order equal qualities differently.
- JavaScript object keys such as `__proto__` or `hasOwnProperty` are ordinary map keys in the model, for cookies, the session store, the query result and field headers.
- Strings are sequences of Unicode scalar values, not UTF-16 code units, and `/i` matching folds ASCII letters only.
- `decodeURIComponent` is a parameter: which percent-escapes it accepts is not modelled.

## Where the documented behaviour differs from the code

The model follows the code in each case:

- The documented multipart parser has a request-end state that accepts a trailing CRLF. In the code the closing delimiter moves straight to state 4 and state 3 is never entered (`StateThreeUnreachable`). Bytes after the end are ignored, not an error (`DoneIgnoresBytes`).
- Fragmented WebSocket messages are documented as accumulated until FIN. In the code a non-final frame leaves the decoder stuck in the payload state (`NonFinalFrameStalls`), and so does a frame with an empty payload (`EmptyFrameNeverDelivered`).
- `QSParser.parse` is documented to split a string on `&` and `=`. The code compares string characters with numbers, so a string is never split (`StringInputIsOneKey`).
- A multipart delimiter split across two `write` chunks corrupts the payload. When the chunk's last byte continues a match, the match branch runs (utils/parsers/multipart.js:88-92) and the flush at :113-115 is skipped. The next chunk then ends the field with its own bytes sliced up to the old chunk's `sindex` (:106). `SplitDelimiterLosesPayload` shows `x` CR LF `--B` CR LF ending the field with `x` in one chunk, but with a lone LF when split after the CR.
- A partial multipart delimiter match broken by a byte other than CR is not reset (utils/parsers/multipart.js:116-119 restart it only on CR), so later bytes can complete it. `StuckMatchEndsField` shows `x` CR LF `y--B` CR LF, which holds no delimiter, ending the field with `x` and dropping `y--B`.
- Cookie names are documented to end at the first `=` with whitespace trimmed. The code ends a name at a space or `=`, skips any run of spaces and `=`, and ends a value at a space or `;`.
