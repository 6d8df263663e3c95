# rust-minimal-http-server, modelled in Dafny

This project models the request path of a small HTTP/1.1 server written in
Rust (`src/main.rs`). For one connection the server does the following:

- it reads once into a 512-byte buffer and decodes the whole buffer;
- it splits the text on CRLF into a request line, header lines and a body;
- it splits the request line on spaces;
- it picks the first entry of the `ROUTES` table whose regular expression
  matches the target and whose method equals the request's;
- `get_route_method` maps that route's name to a handler, and the handler's
  answer is written back.

A request no route selects gets the bare `404 NOT FOUND`.

The modules follow that path:

- `Text`: the Rust string operations the server uses, over byte sequences.
  These are `split`, `replace`, ASCII lower-casing with `contains`, `&s[k..]`
  with its panics, `Iterator::position`, and decimal formatting.
- `Messages`: the CRLF line format of requests and responses. It has a
  writer (`Emit`) and a client-side reader (`ReadMessage`, `ContentLength`).
  They are the reference against which responses are judged.
- `Requests`: the 512-byte buffer (`Frame`) and the parse (`Parse`).
- `Routing`: the route table and the first-match search.
- `Handlers`: the six handlers, `get_route_method` (`HandlerFor`) and the
  call to the chosen handler (`Dispatch`).
- `Server`: `stream_handler` from the decoded buffer to the bytes written
  back (`Serve`, `HandleConnection`), with end-to-end lemmas per route.

Panics are values. Every operation that can panic returns
`Result<_, Panic>`, and the error names the cause:

- `SliceOutOfRange`: a slice past the end;
- `NotCharBoundary`: a slice inside a UTF-8 character;
- `IndexOutOfRange`: an index past the end of a `Vec`;
- `ExpectFailed`: the failed `expect` on the directory argument.

A panic ends the connection's thread before anything is written.

The model follows the code as written; these behaviours are easy to miss:

- **Echo.** The echo handler removes every `/echo/` in the target, not only
  the leading one (`str::replace`).
- **User agent.**
  - The handler takes the first header whose lower-case form contains
    `user-agent` anywhere, not only a header named `User-Agent`.
  - It cuts that header at byte 12 whatever the length of the header's name.
- **Headers.** The header list is `lines[1..len-2]`, the lines between the
  request line and the last two lines, not the lines before the first empty
  one. So a body with a CRLF in it turns the empty line into a header, and
  only the body's last line is kept.
- **Padding.** The whole buffer is decoded, so the body a handler sees ends
  with the buffer's unused zero bytes.
- **Malformed requests.** A request with fewer than three lines panics at
  the header slice. A request line without a space panics at
  `first_line_splits[1]`. Neither is answered with a 404.
  - With a single line, `len - 2` underflows. A debug build panics on the
    overflow. A release build wraps, then panics on the slice. Both are
    modelled as `SliceOutOfRange`.
- **POST.** The POST file handler writes no file and answers with no bytes
  at all. It still cuts the target and reads the directory argument first,
  so it panics in the same cases as the GET handler.

## Model

A row that says well-formed speaks of a request text in which the method
and the target hold no space and no CR, the version and the header lines
hold no CR, and the body holds no CRLF. The `Server.Connection*` rows further assume that the whole text fits
the 512-byte buffer. A text cut by the buffer, or with too few lines, can
panic instead (see the `Requests.Parse*` rows).

| member | source | states |
|---|---|---|
| Text.Split | src/main.rs:134 | `str::split` with a non-empty pattern. Its behaviour is stated by the split lemmas below. `SplitFirstPiece` and `SplitRest` fix where the cuts are, the leftmost non-overlapping scan. `SplitFirstPrefix` and `SplitJoin` fix the bytes of the pieces. |
| Text.SplitFirstPiece | src/main.rs:134 | No occurrence of the separator starts inside the first piece. |
| Text.SplitFirstPrefix | src/main.rs:134 | The first piece is a prefix of the input. |
| Text.SplitRest | src/main.rs:134 | With several pieces, an occurrence of the separator starts right after the first piece, and the remaining pieces are the split of what follows it. A single piece is the whole input. |
| Text.Replace | src/main.rs:18 | `str::replace`. It is split-then-join, and its behaviour on the echo target is stated by `Handlers.RemoveLeadingMarker`, `Handlers.SplitTwoMarkers` and `Handlers.EchoOverlappingMarkers`. |
| Text.Lower | src/main.rs:23 | `to_lowercase` as seen by a search for the ASCII needle `user-agent`. Its use is stated by `Handlers.LowerUserAgentField` and `Handlers.UserAgentLooseMatch`. |
| Text.SliceFrom | src/main.rs:27 | `&s[k..]` succeeds exactly when `k` is within the text and on a character boundary. The result is the suffix after the first `k` bytes. A `k` past the end panics with `SliceOutOfRange`. |
| Text.FirstIndex | src/main.rs:23 | `Iterator::position`: the result satisfies the predicate and no earlier element does; `None` only when no element does. |
| Text.SplitJoin | src/main.rs:134 | Joining the pieces of `split` with the separator gives back the input. |
| Text.SplitPiecesFree | src/main.rs:134 | No piece of a split contains the separator. |
| Text.SplitSingle | src/main.rs:134 | A text splits into one piece exactly when the separator does not occur in it. |
| Text.SplitAfter | src/main.rs:134 | A leading piece without the separator's first byte is split off at the separator that follows it. |
| Text.Decimal | src/main.rs:19 | `{}` of a length: at least one byte and only digits. A leading zero appears only in `0` itself, which is written as the one byte `0`. |
| Text.DecimalRoundTrip | src/main.rs:19 | A client parsing the formatted `Content-Length` value reads back the number. |
| Messages.ReadEmit | src/main.rs:14 | A message is written as start line, CRLF-ended field lines, an empty line and a body. A client reads it back unchanged when the start line and the fields hold no CR and no field is empty. |
| Messages.ContentLengthAfterType | src/main.rs:19 | The `Content-Length` a client reads from the handlers' two fields is the formatted number. |
| Requests.Frame | src/main.rs:129-132 | The buffer is always 512 bytes. A short read is a prefix of it and the rest is zero bytes; a long read is cut to it. |
| Requests.Parse | src/main.rs:134-138 | A parse fails only with `SliceOutOfRange` or `IndexOutOfRange`. The method and target hold no space, and no header line or body holds a CRLF. |
| Requests.ParseRequestText | src/main.rs:134-138 | Round trip: parsing the text of a well-formed request gives back its method, target, header lines and body. |
| Requests.ParseFramed | src/main.rs:129-138 | A well-formed request that fits the buffer parses to itself, with its body followed by the buffer's zero padding. |
| Requests.ParseWithoutLineBreak | src/main.rs:135 | Text without CRLF panics at the header slice. |
| Requests.SplitAtFirstLineBreak | src/main.rs:134 | A first line without CRLF, possibly holding a lone CR, is split off at the CRLF that follows it. |
| Requests.ParseSingleLineBreak | src/main.rs:135 | Text with exactly one CRLF also panics at the header slice, whatever else the two lines hold, a lone CR included. |
| Requests.ParseWithoutTarget | src/main.rs:138-139 | A request line without a space, followed by at least two more lines, panics at `first_line_splits[1]`. The request line may hold a lone CR. |
| Requests.ParseBodyWithLineBreak | src/main.rs:134-136 | The headers are the lines between the request line and the last two lines. A body with a CRLF in it turns the empty line into a header, and only the body's last line is kept. |
| Routing.Matches | src/main.rs:100-126 | The `ROUTES` table's five anchored patterns, as tested by `captures(...).is_some()` at line 139. Which targets each entry matches is stated by the `Route*` lemmas below. |
| Routing.RoutePosition | src/main.rs:139 | The chosen route selects the request and no earlier route does; `None` exactly when no route selects it. |
| Routing.EarlierRouteWins | src/main.rs:139 | Of two routes that both select a request, the one earlier in the table (or one before it) is chosen. |
| Routing.RouteIndex | src/main.rs:100-105 | `GET /` selects the index route. |
| Routing.RouteEcho | src/main.rs:106-110 | `GET /echo/<text>` selects the echo route when the text has no line feed. |
| Routing.RouteUserAgent | src/main.rs:111-115 | `GET /user-agent` selects the user agent route. |
| Routing.RouteFiles | src/main.rs:116-125 | `/files/<name>` selects the GET file route for GET and the POST file route for POST, when `<name>` has no line feed. |
| Routing.RouteOtherMethod | src/main.rs:100-126 | A method other than GET and POST selects no route. |
| Routing.RoutePostOutsideFiles | src/main.rs:121-125 | A POST outside `/files/` selects no route. |
| Routing.RouteUnknownPath | src/main.rs:100-126 | `GET /nope` selects no route. |
| Handlers.IndexHandler | src/main.rs:13-15 | The index handler answers the status line and an empty line. |
| Handlers.BadResponseHandler | src/main.rs:36-38 | The 404 handler answers the 404 status line and an empty line. |
| Handlers.OkWithContent | src/main.rs:19 | The handlers' 200 `format!` with a content type and a body. What a client reads from it is stated by `Handlers.OkWithContentReads`. |
| Handlers.StatusOnlyReads | src/main.rs:14 | A status-only answer whose status line has no CR reads as a message with no fields and no body. |
| Handlers.OkWithContentReads | src/main.rs:19 | A client reads a 200 answer's content type and content back, for a content type without CR. Its `Content-Length` equals the content's byte length. |
| Handlers.OkWithContentEmits | src/main.rs:19 | The handlers' 200 format, for a content type without CR, is the message format with two fields. |
| Handlers.EchoHandler | src/main.rs:17-20 | Every echo answer reads as a 200 message whose body is the target with `/echo/` replaced, and whose `Content-Length` is that body's byte length. |
| Handlers.RemoveLeadingMarker | src/main.rs:18 | Replacing `/echo/` in `/echo/<text>` gives `<text>` when the text holds no `/echo/`. |
| Handlers.EchoOverlappingMarkers | src/main.rs:18 | Markers are removed left to right without overlap: `/echo/echo/` is answered with `echo/`. |
| Handlers.EchoReturnsSuffix | src/main.rs:17-20 | Echo answers the text after `/echo/` when that text holds no `/echo/`. |
| Handlers.EchoRemovesEveryMarker | src/main.rs:18 | Echo removes every `/echo/`: `/echo/<x>/echo/<y>` is answered with `<x><y>`, when `<x>` holds no `/` and `<y>` holds no `/echo/`. |
| Handlers.SplitTwoMarkers | src/main.rs:18 | Splitting `/echo/<x>/echo/<y>` on `/echo/` gives the empty piece, `<x>` and `<y>`, when `<x>` holds no `/` and `<y>` holds no `/echo/`. |
| Handlers.UserAgentHandler | src/main.rs:22-34 | The user agent handler panics only when some header mentions the user agent. The full behaviour is stated by `Handlers.UserAgentFirstMention` and `Handlers.UserAgentMissing`. |
| Handlers.MentionsUserAgent | src/main.rs:23 | The `position` test: the lower-case header contains `user-agent` anywhere. Its reach is stated by `Handlers.LowerUserAgentField` and `Handlers.UserAgentLooseMatch`. |
| Handlers.UserAgentFirstMention | src/main.rs:22-29 | For any first header `h` that mentions the user agent, the answer is 200 with `h` from byte 12 on and its byte length. Otherwise it is exactly the panic of that slice: `h` shorter than 12 bytes, or byte 12 inside a character. |
| Handlers.LowerUserAgentField | src/main.rs:23 | A `User-Agent:` header mentions the user agent whatever its value. |
| Handlers.UserAgentFound | src/main.rs:22-29 | The first header mentioning the user agent, `User-Agent: <value>`, is answered with `<value>` when `<value>` does not start inside a character. |
| Handlers.UserAgentMissing | src/main.rs:30-32 | With no header mentioning the user agent the answer is the 404. |
| Handlers.UserAgentShortHeader | src/main.rs:27 | A first mentioning header shorter than 12 bytes makes the handler panic. |
| Handlers.UserAgentLooseMatch | src/main.rs:23-27 | A header `X-User-Agent-Id: 7` is taken and cut at byte 12, giving `-Id: 7`. |
| Handlers.GetFileHandler | src/main.rs:40-54 | The GET file handler panics exactly when the name slice fails or the directory argument is missing. |
| Handlers.GetFileServes | src/main.rs:40-54 | With a directory argument, and a name that does not start inside a character: a readable file under the directory is served byte for byte with its length, and an unreadable one gets the 404. |
| Handlers.PostFileHandler | src/main.rs:56-76 | The POST file handler panics in the same cases as the GET one, and otherwise answers no bytes. |
| Handlers.HandlerFor | src/main.rs:84-98 | `get_route_method` falls back to the 404 handler exactly for names other than the five it knows. |
| Handlers.Dispatch | src/main.rs:143 | Calling the boxed handler. What every handler answers is stated by `Handlers.DispatchFramed`. |
| Handlers.DispatchFramed | src/main.rs:13-76 | Every handler but the POST file handler answers a response a client can read, with a correct `Content-Length`; the POST handler answers nothing. |
| Server.Serve | src/main.rs:134-150 | `stream_handler` from the decoded buffer to the bytes written back. Its behaviour is stated by `Server.ServeRouted`, `Server.ServeNoRoute`, `Server.ServeFramed` and `Server.ServePanics`. |
| Server.HandleConnection | src/main.rs:128-150 | One connection: the received bytes framed in the buffer, then served. Its behaviour is stated by the `Server.Connection*` lemmas. |
| Server.RouteNamesKnown | src/main.rs:84-126 | Every name in the table has its own handler, so a matched route never falls back to the 404 handler. |
| Server.ServeRouted | src/main.rs:139-145 | A request the route at index `i` selects first is answered by that route's handler. |
| Server.ServeNoRoute | src/main.rs:146-148 | A request no route selects is answered with the 404. |
| Server.ServeFramed | src/main.rs:139-150 | Whatever the server writes is a readable response with a correct `Content-Length`, except the empty answer to a POST. |
| Server.ServePanics | src/main.rs:139-150 | Once a request is parsed, only the user agent and file routes can panic. |
| Server.ConnectionRouted | src/main.rs:128-145 | A well-formed request that fits the buffer and that route `i` selects first is answered by that route's handler. The handler sees the body padded with zeros. |
| Server.ConnectionUnrouted | src/main.rs:128-148 | A well-formed request that fits the buffer and that no route selects is answered with the 404. |
| Server.ConnectionDeleteRoot | src/main.rs:128-148 | A well-formed `DELETE /` that fits the buffer is answered with the 404. |
| Server.ConnectionUnknownPath | src/main.rs:128-148 | A well-formed `GET /nope` that fits the buffer is answered with the 404. |
| Server.ConnectionIndex | src/main.rs:128-145 | A well-formed `GET /` that fits the buffer is answered with the bare 200. |
| Server.ConnectionEcho | src/main.rs:128-145 | A well-formed `GET /echo/<text>` that fits the buffer is answered with `<text>` and its byte length, when `<text>` holds neither a line feed nor `/echo/`. |
| Server.ConnectionUserAgent | src/main.rs:128-145 | A well-formed `GET /user-agent` that fits the buffer, whose first mentioning header is `User-Agent: <value>`, is answered with `<value>`, when `<value>` does not start inside a character. |
| Server.ConnectionGetFile | src/main.rs:128-145 | A well-formed `GET /files/<name>` that fits the buffer, with a directory argument, serves the named file under the directory or answers the 404. This holds when `<name>` has no line feed and does not start inside a character. |
| Server.ConnectionPostFile | src/main.rs:128-145 | A well-formed `POST /files/<name>` that fits the buffer, with a directory argument, is answered with no bytes. This holds when `<name>` has no line feed and does not start inside a character. |

## Left out

- `main`, the TCP listener and the thread per connection are not modelled, so neither is any property about concurrent connections. `HandleConnection` is one connection on its own.
- `stream.read`, `stream.write` and `flush`, and their `unwrap` panics, are not modelled. The bytes one read returns are a parameter, and the model's result is the bytes that would be written.
- `String::from_utf8_lossy` is not modelled. The received bytes are taken to be the decoded text. Invalid UTF-8, which the decoder replaces with U+FFFD, is not covered. Neither is a character cut at byte 512.
- The `regex` crate is not modelled. The table's five patterns are stated directly by `Routing.Matches`, and `Regex::new(...).unwrap()` cannot fail for them.
- The environment is a parameter, `Env`:
  - `env::args()` becomes `Env.directory`, the third argument, or none;
  - `read_to_string` becomes the map `Env.files`;
  - a file that cannot be read, including one that is not valid UTF-8, is a path missing from the map.
- The `println!` calls of the POST file handler are left out, because they only log.
- `Text.Lower` folds ASCII letters only, whereas `to_lowercase` folds all of Unicode. This is exact for the handler's test: the only non-ASCII characters that lower-case to ASCII give `k` or `i`, and neither letter occurs in `user-agent`.
- `Text.Split` is stated for the non-empty patterns the server uses. `split` with an empty pattern is not modelled.
