# Basic TCP/UDP server — a Dafny model of the serving core

This project models the two network services of the repository:

- **The HTTP/1.1 wire codec** (`tcp_http/http_utils.py`).
  - `parse_http_request` reads a bounded request line and a bounded header section from a byte stream. It splits the request line into method, path and version, and builds the header dictionary.
  - `build_response` serialises a status line, header lines, a blank line and the body. It first adds `Content-Length` and `Connection: close` when they are missing.
- **The request router** (`tcp_http/handlers.py`).
  - `route_request` strips the query string, maps `/` to the index page and answers `/health` with a JSON status document.
  - For `/static/…` it removes every `..` from the remainder, joins it to the static directory, and serves the file with the content type of its extension.
  - `headify` drops the body for HEAD.
- **The per-connection decision of the threaded HTTP server** (`tcp_http/server.py`).
  - `_handle_client` answers 405, a routed GET or HEAD response, or 400, and it always closes the connection.
  - `_accept_loop` ends at the closing flag or the first accept failure.
- **The UDP health responder** (`udp_health/server.py`).
  - `serve_forever` decodes each datagram, trims and upper-cases it, and answers `PING` with `PONG <UTC time>`.
  - It ignores everything else. It goes round again after a timeout or a failed send, and stops on `should_stop()` or a receive error.

The files are:

- `text.dfy` (module `Text`): bytes, Latin-1 text, and the Python `str` operations the servers use (`strip`, `lower`, `upper`, `split`, `replace`, `str(int)`).
- `app_config.dfy` (module `AppConfig`): the immutable configuration.
- `http_utils.dfy` (module `HttpUtils`): the codec.
- `handlers.dfy` (module `Handlers`): the router.
- `tcp_server.dfy` (module `TcpServer`): the connection handler and the accept loop.
- `udp_server.dfy` (module `UdpHealth`): the UDP loop.

The model replaces the outside world with parameters:

- **Streams:** a request stream is the sequence of bytes the client sends before closing its side. A read that raises (for example a timeout) is `TcpServer.ReadFault`.
- **Files:** the file system is a map from joined path strings to `Contents(bytes)` or `Unreadable`. `Unreadable` stands for an `open` that raises something other than "file not found". A path missing from the map is "file not found".
- **Clock:** each clock reading is a `Timestamp` parameter, a string of ISO-8601 characters.
- **UDP turns:** a UDP run is a finite sequence of turns. Each turn gives:
  - what `should_stop()` answers;
  - what `recvfrom` yields;
  - the clock reading;
  - whether `sendto` succeeds.
- **Accept loop:** an accept-loop run is a sequence of `(closing flag, accept result)` turns.

## Model

| member | source | states |
|---|---|---|
| Text.Strip | tcp_http/http_utils.py:40 | `str.strip()`: the result is the slice of the input between a leading and a trailing run of whitespace, and it neither starts nor ends with whitespace; so it is the input itself when that has no surrounding whitespace, and empty exactly when the input is all whitespace |
| Text.SplitOnce | tcp_http/http_utils.py:39 | `split(sep, 1)`: no result exactly when the separator is absent; otherwise the input is head, separator, tail with no separator in the head |
| Text.UpperMatchesWord | udp_health/server.py:28-32 | upper-casing gives a capital word (without `S`) exactly when the text is that word in any mix of cases, with `ı` for `I`; no other character upper-cases to an ASCII capital |
| Text.ReplaceRemovesDoubleDots | tcp_http/handlers.py:46 | one left-to-right `replace("..", "")` leaves no `..` anywhere in the result |
| Text.ReplaceKeepsNonDots | tcp_http/handlers.py:46 | removing `..` never removes or reorders a character that is not a dot |
| Text.IntToStringRoundTrip | tcp_http/http_utils.py:47 | the decimal text of the status code parses back to the code |
| HttpUtils.ReadLine | tcp_http/http_utils.py:11 | `readline(limit)`: a prefix of the stream of at most `limit` bytes, with no `\n` before its last byte, empty only at end of stream, and ending in `\n` unless cut by the limit or the end of stream |
| HttpUtils.ReadLineIsBoundedNextLine | tcp_http/http_utils.py:11 | a bounded read is the unbounded first line, cut at the limit when longer |
| HttpUtils.ReadLineLocal | tcp_http/http_utils.py:11 | a bounded read depends only on the first `limit` bytes of the stream |
| HttpUtils.FirstLineChecks | tcp_http/http_utils.py:9-15 | an empty stream is `Empty request`; a first line longer than the limit (terminator included) is `Request line too long`; a line of exactly the limit goes on to parsing |
| HttpUtils.LineTooLongReadsNoFurther | tcp_http/http_utils.py:11-15 | a too-long request line is rejected on its first `limit + 1` bytes alone, whatever follows |
| HttpUtils.SplitRequestLine | tcp_http/http_utils.py:17-21 | the split fails exactly when the line has fewer than two spaces; otherwise the line is method, space, path, space, version, with no space in method or path (the version keeps the rest) |
| HttpUtils.ReadHeaderBlockSpec | tcp_http/http_utils.py:23-32 | the header loop fails exactly when the field lines, blank line excluded, exceed the limit, and otherwise returns the stream up to and including the first blank line (or all of it) |
| HttpUtils.HeaderSectionOutcome | tcp_http/http_utils.py:23-32 | for every limit, from an empty accumulator: `Headers too large` exactly when the field bytes exceed the limit or, at a limit of 0, the section is a bare `\r\n`; otherwise exactly the header section |
| HttpUtils.ZeroLimitHeaderBlock | tcp_http/http_utils.py:23-32 | at a header limit of 0 every read is one byte: only an empty section or a bare `\n` is accepted |
| HttpUtils.SplitLines | tcp_http/http_utils.py:35 | `splitlines()`: no piece contains a `\r` or `\n` |
| HttpUtils.SplitLinesSpec | tcp_http/http_utils.py:35 | `splitlines()` breaks at `\n`, at `\r\n` as one break and at a lone `\r`, drops the terminator, and leaves no trailing empty piece: a break-free text is one piece (none when empty) |
| HttpUtils.FieldSpec | tcp_http/http_utils.py:35-42 | an empty or colon-less line is skipped; otherwise the key is the text before the first colon, trimmed and lower-cased, and the value is the trimmed rest |
| HttpUtils.DictLastWins | tcp_http/http_utils.py:34-42 | a key is in the dictionary exactly when some entry sets it, and its value is that of the last such entry |
| HttpUtils.HeaderMapLastWins | tcp_http/http_utils.py:34-42 | the same for raw header lines: a key is present exactly when some line yields it, and the last such line wins |
| HttpUtils.AfterLineOutcome | tcp_http/http_utils.py:17-44 | after the size checks: bad request line exactly on fewer than two spaces, headers too large exactly when the header section is rejected as in `HeaderSectionOutcome` (every limit, 0 included), and on success the upper-cased first field, path and version unchanged and the headers of the header section |
| HttpUtils.ParseOutcome | tcp_http/http_utils.py:9-44 | for every pair of limits, every outcome of the parser, each error given by an if-and-only-if condition on the stream, and the success fields described as in `AfterLineOutcome` |
| HttpUtils.WithDefaults | tcp_http/http_utils.py:48-51 | the caller's entries are kept in order as a prefix; `Content-Length` equal to the body length is appended exactly when no key matches it ignoring case; `Connection: close` is appended exactly when the exact key `Connection` is absent |
| HttpUtils.BuildResponse | tcp_http/http_utils.py:46-54 | serialising succeeds exactly when the reason and every header are ASCII; the output starts with the status line and ends with the body verbatim |
| HttpUtils.BuiltBytes | tcp_http/http_utils.py:46-54 | the output is the status line, one `K: V` line per header in order, a blank line and the body |
| HttpUtils.StatusLineReadsBack | tcp_http/http_utils.py:47 | the status line is one line of code-plus-reason-plus-12 bytes, and decoding and stripping it gives back the status text |
| HttpUtils.StatusTextSplits | tcp_http/http_utils.py:47 | the status text splits into `HTTP/1.1`, the decimal code and the reason |
| HttpUtils.DefaultsArePlain | tcp_http/http_utils.py:48-51 | the default entries keep plain headers plain |
| HttpUtils.ResponseHeaderSection | tcp_http/http_utils.py:53 | serialised header lines are read whole by the header loop, blank line included, and map back to their entries with lower-cased keys |
| HttpUtils.AddedLengthKept | tcp_http/http_utils.py:48-49 | the `Content-Length` added by default survives into the parsed dictionary as the body length |
| HttpUtils.ResponseHeadRoundTrip | tcp_http/http_utils.py:46-54 | parsing the head of any built response with plain headers, a caller-supplied `Content-Length` included, gives `HTTP/1.1`, the decimal code, the reason and every header with its key lower-cased |
| Handlers.ContentTypesAreClean | tcp_http/handlers.py:9-19 | every content type of the extension table, and the default, is a clean ASCII header value |
| Handlers.Join | tcp_http/handlers.py:47 | `os.path.join`: an absolute second part replaces the first; otherwise the result is the first part, a `/` exactly when the first part is non-empty and does not end in one, and the second part |
| Handlers.ExtShape | tcp_http/handlers.py:51 | `splitext` yields a suffix of the path that is empty or a dot followed by neither slash nor dot |
| Handlers.ExtOfFileName | tcp_http/handlers.py:51 | a file name whose stem is not all dots gets the text after its last dot as its extension |
| Handlers.ExtOfDotFile | tcp_http/handlers.py:51 | a dot file has no extension |
| Handlers.SafeRelSpec | tcp_http/handlers.py:44-46 | the sanitised path contains no `..`, and every non-dot character survives in order |
| Handlers.Route | tcp_http/handlers.py:28-55 | the router serves only 200 or 404, every 404 is the fixed Not Found tuple, and it raises exactly when the joined static path is unreadable |
| Handlers.RouteIgnoresQuery | tcp_http/handlers.py:30-31 | everything from the first `?` on is ignored |
| Handlers.RootServesIndex | tcp_http/handlers.py:32-33 | `/` is routed as `/static/index.html` |
| Handlers.HealthRoute | tcp_http/handlers.py:35-41 | `/health` is 200 `OK`, `application/json; charset=utf-8`, body `{"status": "ok", "time": "<now>"}` |
| Handlers.StaticRoute | tcp_http/handlers.py:43-53 | under `/static/`: a missing file is the Not Found tuple, an unreadable file raises, a present file is 200 with its bytes and the type of its lower-cased extension |
| Handlers.OtherRoute | tcp_http/handlers.py:55 | any other path is the Not Found tuple |
| Handlers.RouteValuesAreClean | tcp_http/handlers.py:28-55 | every reason and content type the router serves is a clean ASCII header value |
| Handlers.FourDotsThen | tcp_http/handlers.py:46 | four dots in front of dot-free text are removed entirely |
| Handlers.TraversalEscapesRoot | tcp_http/handlers.py:43-53 | `/static/....//etc/passwd` is read from `//etc/passwd`, outside the static directory, and served |
| Handlers.Headify | tcp_http/handlers.py:57-60 | status, reason and content type are kept and the body is empty |
| Handlers.HeadifyIdempotent | tcp_http/handlers.py:57-60 | applying `headify` twice is applying it once |
| TcpServer.HandleClient | tcp_http/server.py:36-84 | the connection is always closed; a reply that was produced is sent alone when the send succeeds and is followed by the 400 response alone when it fails; when no reply was produced only the 400 response is sent |
| TcpServer.FailuresAnswer400 | tcp_http/server.py:39-78 | a read fault, any parse error, or a GET or HEAD whose routing raises (either routing of a HEAD) is answered with the 400 response alone, whatever the send outcome |
| TcpServer.ServedRequestAnswered | tcp_http/server.py:47-78 | any other parsed request gets its reply (405, or the routed response): sent once when the send succeeds, followed by the 400 response alone when it fails |
| TcpServer.BuildsNeverFail | tcp_http/server.py:47-56 | the fixed 405 and 400 responses always serialise |
| TcpServer.NotAllowedSkipsRouter | tcp_http/server.py:47-56 | a method other than GET and HEAD gets the 405 response whatever the files, directory and clock, so the router is not consulted |
| TcpServer.AcceptedMethods | tcp_http/server.py:40-47 | after the parser's upper-casing, a request is served exactly when its method is `get` or `head` in any mix of cases |
| TcpServer.GetReply | tcp_http/server.py:58-67 | a GET reply is the routed tuple built with its content type as the only header |
| TcpServer.HeadReply | tcp_http/server.py:58-66 | a HEAD reply has the routed status, reason and content type, an empty body, and the body length of a second routing as `Content-Length` |
| TcpServer.HeadIsGetWithoutBody | tcp_http/server.py:58-67 | with one clock reading, the HEAD reply is byte for byte the GET reply without its body |
| TcpServer.SameDefaults | tcp_http/server.py:63-65 | HEAD's explicit `Content-Length` is the one GET gets by default, so both send the same header lines |
| TcpServer.RoutedRepliesSerialise | tcp_http/server.py:58-67 | a GET or HEAD reply fails exactly when a routing raises |
| TcpServer.CompletedTurns | tcp_http/server.py:26-34 | the loop completes a prefix of turns that all see no closing flag and a successful accept, and stops at the first turn that does not |
| TcpServer.AcceptLoop | tcp_http/server.py:26-34 | the loop completes exactly `CompletedTurns` turns and starts one worker per accepted client, in order |
| TcpServer.AcceptLoopStops | tcp_http/server.py:27-34 | no turn at or after one that sees the closing flag or an accept failure is completed |
| UdpHealth.Truncate | udp_health/server.py:22 | `recvfrom(4096)` hands over the whole datagram when it fits and exactly its first 4096 bytes otherwise |
| UdpHealth.SequenceLength | udp_health/server.py:28 | a well-formed UTF-8 sequence is at most four bytes, and it is one byte exactly when the first byte is ASCII |
| UdpHealth.DecodeUtf8 | udp_health/server.py:28 | `decode("utf-8", errors="ignore")` yields no more characters than bytes |
| UdpHealth.EncodedCharDecodes | udp_health/server.py:28 | every character's UTF-8 encoding is one well-formed sequence that decodes back to it |
| UdpHealth.Utf8RoundTrip | udp_health/server.py:28 | the decoder reads back every text encoded as UTF-8 |
| UdpHealth.DecodeAfterEncoded | udp_health/server.py:28 | decoding reads an encoded text off the front of any bytes and carries on with what follows |
| UdpHealth.IllFormedByteDropped | udp_health/server.py:28 | `errors="ignore"`: a non-ASCII byte standing alone between two encoded texts is dropped and decoding resumes after it |
| UdpHealth.DecodeAscii | udp_health/server.py:28 | an ASCII datagram decodes byte for byte |
| UdpHealth.KindOf | udp_health/server.py:28-31 | a datagram's text is blank exactly when it is all whitespace |
| UdpHealth.KindOfIsUpperKind | udp_health/server.py:28-41 | the case-insensitive classification equals the strip-then-upper comparison with `PING`, on every text |
| UdpHealth.EchoedPingText | udp_health/server.py:28 | the bytes of `ping` and a newline decode to that text |
| UdpHealth.EchoedPingIsPing | udp_health/server.py:28-32 | `ping` with a trailing newline counts as PING |
| UdpHealth.UtcText | udp_health/server.py:33 | the timestamp text stays ASCII |
| UdpHealth.PongMessage | udp_health/server.py:34 | the message decodes to `PONG `, the timestamp text and a newline |
| UdpHealth.UtcSuffixBecomesZ | udp_health/server.py:33 | a reading ending in `+00:00` ends in `Z` instead |
| UdpHealth.PongForUtcReading | udp_health/server.py:33-34 | a UTC reading `d+00:00` is answered with `PONG dZ` and a newline |
| UdpHealth.RepliesFor | udp_health/server.py:28-41 | one turn sends at most one reply |
| UdpHealth.ServeForever | udp_health/server.py:18-41 | the loop's replies and processed-turn count are those of the reference run |
| UdpHealth.ServeStopsAtFirstHalt | udp_health/server.py:19-26 | every processed turn neither stops nor fails its receive, and the run ends at the first turn that does |
| UdpHealth.NothingAfterHalt | udp_health/server.py:19-26 | once `should_stop()` is true or a receive fails, later turns change nothing |
| UdpHealth.RepliesOfProcessed | udp_health/server.py:18-41 | the run sends exactly the answers to the turns it processes |
| UdpHealth.AnswersArePings | udp_health/server.py:29-41 | the number of answers is the number of pings, which is at most the number of datagrams |
| UdpHealth.OneReplyPerPing | udp_health/server.py:18-41 | the run sends one reply per processed ping, so no more replies than processed datagrams |
| UdpHealth.RepliesAnswerTurns | udp_health/server.py:18-41 | every reply of the run answers a turn the run processed |
| UdpHealth.RepliesAnswerPings | udp_health/server.py:32-36 | every reply is a PONG to the sender of a processed ping, stamped with that turn's clock reading |
| UdpHealth.SendFailuresAreHarmlessWith | udp_health/server.py:35-38 | for any responder that sends the same whatever the send outcome, failed sends change neither how far the run goes nor what it sends |
| UdpHealth.SendFailuresAreHarmless | udp_health/server.py:35-38 | a failed `sendto` neither ends the loop nor changes what is sent later |

## Left out

- Sockets, threads and events are left out because they are I/O and concurrency. This covers bind, listen, `makefile`, `settimeout`, `sendall`, `sendto`, `shutdown`, `close`, thread start and `join`, `stop()` and the one-second UDP receive timeout. The model replaces them with the delivered bytes, success flags and turn sequences. Closing the connection is the `closed` flag of `TcpServer.Handling`.
- `stream.peek(1)` and the unused `read_timeout` argument of `parse_http_request` are left out. A read that times out or fails while parsing is `TcpServer.ReadFault`.
- Logging (`LOGGER.warning`, `LOGGER.debug`, `LOGGER.info`) is left out because it has no effect on the replies.
- `common/config.py`, `main.py`, `common/logging_setup.py` and `common/signals.py` are not part of this model. They cover environment parsing, start-up, the orchestration loop and signal wiring. `AppConfig.Config` only carries the values.
- AppConfig.Config types the timeout and the limits as naturals, but `int(os.getenv(...))` in `common/config.py` also accepts negative values, and the model does not cover them. TcpServer.HandleClient assumes a valid timeout. With a negative `READ_TIMEOUT`, `client.settimeout` raises before the `try` of `_handle_client`: no 400 is sent, and the connection is neither shut down nor closed by the handler. With `MAX_REQUEST_LINE_BYTES` of -1, the first `readline(0)` returns nothing, so every request is `Empty request`. With a smaller value, the read is unbounded and every non-empty request line is `Request line too long`. With `MAX_HEADER_BYTES` of -1, the header loop reads nothing and the headers are empty. With a smaller value, any field line is `Headers too large`. A timeout of 0 makes the socket non-blocking. A read that then fails is TcpServer.ReadFault.
- `_read_file_bytes` is replaced by the file map. The model does not separate the kinds of failing `open`.
- Handlers.Join and Handlers.Ext model `os.path.join` of two parts and `os.path.splitext` of one POSIX path. Other forms are not modelled.
- Handlers.Route: the `method` argument of `route_request` is not consulted by the source, so it is not a parameter.
- Handlers.HealthJson: `json.dumps` is modelled only for the two-entry document with a timestamp. It uses the default `", "` and `": "` separators, and a timestamp needs no escaping. The `/health` body is that text with spaces after the colons and commas, as the code writes it.
- Text.Upper and Text.Lower follow Python's case mapping exactly on Latin-1 only. Text.Lower is applied to Latin-1 decoded header keys, to the header names a caller passes to `build_response` (HttpUtils.HasNameIgnoringCase inside HttpUtils.WithDefaults), and to the extension of a request path in Handlers.Route. The last two can hold characters above U+00FF. Neither outcome depends on how those characters are lowered: the lowered name is compared only with `content-length`, and the lowered extension is looked up only among the table's keys. Both are ASCII. Above U+00FF, Text.Lower keeps every character, so the result holds a non-ASCII character and matches nothing. Python lowers only two such characters to text with ASCII letters: `İ` (U+0130) to `i` plus a combining dot, and the Kelvin sign (U+212A) to `k`. Neither `i` nor `k` occurs in `content-length` or in any key of the table, so the outcome is Python's. Text.IsSpace is Python's `str.isspace` on every character.
- Text.Upper above U+00FF maps only the dotless `ı` to `I` and keeps every other character. Python maps many of those characters differently, for example `ſ` to `S` and `ﬁ` to `FI`. Among them, only `ı` upper-cases to text made of the letters P, I, N and G. So the UDP comparison with `PING`, the only use of Text.Upper on such characters, comes out as in Python.
- UdpHealth.DecodeUtf8: its own contract only bounds the length of the text. What it decodes is stated by UdpHealth.Utf8RoundTrip, UdpHealth.DecodeAfterEncoded and UdpHealth.IllFormedByteDropped. A truncated multi-byte sequence is not covered by a lemma of its own.
- UdpHealth.RepliesFor: its own contract only bounds the replies per turn. What a reply contains is stated by UdpHealth.RepliesAnswerPings and UdpHealth.OneReplyPerPing.
- HttpUtils.ReadHeaderBlockSpec requires a header limit of at least 1, and so do the helper lemmas of its induction. With a limit of 0, `readline(1)` splits a bare `\r\n` into `\r` and `\n`, and the `\r` is already too large. The default limit is 16384, but nothing rejects 0. HttpUtils.ZeroLimitHeaderBlock states the 0 case, and HttpUtils.HeaderSectionOutcome, HttpUtils.AfterLineOutcome and HttpUtils.ParseOutcome hold for every limit.
- TcpServer.Reply: both routings of a HEAD read the same file map. A file that changes or becomes unreadable between the two reads is not modelled. In the source, that gives a 400 or a `Content-Length` that does not match the first routing.
- HttpUtils.ResponseHeadRoundTrip: its contract gives the parsed dictionary as the entries with defaults added, for every reply including HEAD replies with their own `Content-Length`. HttpUtils.AddedLengthKept states separately that, when the caller gives none, `content-length` there is the body length.
- The removal of `..` in the static route does not keep reads under the static root for crafted paths such as `....//`. Removing `..` turns `/static/....//etc/passwd` into the absolute `//etc/passwd`, and the join then discards the static directory. The model follows the code, and Handlers.TraversalEscapesRoot states the escape.
