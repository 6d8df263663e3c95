/** The path from request text to response text in `stream_handler`:
    parse, find the first route that selects the request, call the handler
    its name maps to, or the 404 handler when no route does. */
module Server {
  import opened Wrappers
  import opened Text
  import opened Messages
  import opened Requests
  import opened Routing
  import opened Handlers

  /** What `stream_handler` writes back for the decoded buffer `data`, or
      the panic that ends its thread before anything is written. */
  function Serve(data: bytes, env: Env): Result<bytes, Panic> {
    var req :- Parse(data);
    match RoutePosition(ROUTES, req.httpMethod, req.target)
    case Some(i) => Dispatch(HandlerFor(ROUTES[i].name), req.target, req.headers, req.body, env)
    case None => Ok(BadResponseHandler(req.target, req.headers, req.body))
  }

  /** One connection: the bytes one read returned, framed in the buffer. */
  function HandleConnection(received: bytes, env: Env): Result<bytes, Panic> {
    Serve(Frame(received), env)
  }

  /** Every name in the table is one `get_route_method` knows, so a matched
      route never falls back to the 404 handler; each names its own handler. */
  lemma RouteNamesKnown()
    ensures forall i | 0 <= i < |ROUTES| :: HandlerFor(ROUTES[i].name) != BadResponse
    ensures HandlerFor(ROUTES[0].name) == Index
    ensures HandlerFor(ROUTES[1].name) == Echo
    ensures HandlerFor(ROUTES[2].name) == UserAgent
    ensures HandlerFor(ROUTES[3].name) == GetFile
    ensures HandlerFor(ROUTES[4].name) == PostFile
  {
  }

  /** A request the route at index `i` selects first is answered by the
      handler that route names. */
  lemma ServeRouted(data: bytes, env: Env, req: Request, i: nat)
    requires Parse(data) == Ok(req)
    requires RoutePosition(ROUTES, req.httpMethod, req.target) == Some(i)
    ensures i < |ROUTES|
    ensures Serve(data, env) == Dispatch(HandlerFor(ROUTES[i].name), req.target, req.headers, req.body, env)
  {
  }

  /** A request no route selects is answered with the bare 404. */
  lemma ServeNoRoute(data: bytes, env: Env)
    requires Parse(data).Ok?
    requires RoutePosition(ROUTES, Parse(data).value.httpMethod, Parse(data).value.target).None?
    ensures Serve(data, env) == Ok("HTTP/1.1 404 NOT FOUND\r\n\r\n")
  {
  }

  /** Whatever the server writes is a framed response, except the empty
      answer to a POST. */
  lemma ServeFramed(data: bytes, env: Env)
    requires Serve(data, env).Ok?
    ensures var r := Serve(data, env).value;
      Framed(r) || (r == [] && Parse(data).value.httpMethod == "POST")
  {
    var req := Parse(data).value;
    match RoutePosition(ROUTES, req.httpMethod, req.target)
    case Some(i) =>
      RouteNamesKnown();
      DispatchFramed(HandlerFor(ROUTES[i].name), req.target, req.headers, req.body, env);
    case None =>
      assert '\r' !in BAD_RESPONSE;
      StatusOnlyReads(BAD_RESPONSE);
  }

  /** Once a request is parsed, only the user agent and file routes can
      panic: the index, echo and 404 paths always answer. */
  lemma ServePanics(data: bytes, env: Env)
    requires Parse(data).Ok? && Serve(data, env).Err?
    ensures var req := Parse(data).value;
      var i := RoutePosition(ROUTES, req.httpMethod, req.target);
      i.Some? && 2 <= i.value <= 4
  {
    RouteNamesKnown();
  }

  /** A request text that fits the buffer and that route `i` selects first
      is answered by the handler that route names, which sees the body
      followed by the buffer's zero padding. */
  lemma ConnectionRouted(httpMethod: bytes, target: bytes, version: bytes, headers: seq<bytes>, body: bytes, env: Env, i: nat)
    requires WellFormed(httpMethod, target, version, headers, body)
    requires |RequestText(httpMethod, target, version, headers, body)| <= BUFFER_SIZE
    requires RoutePosition(ROUTES, httpMethod, target) == Some(i)
    ensures i < |ROUTES|
    ensures var pad := Zeros(BUFFER_SIZE - |RequestText(httpMethod, target, version, headers, body)|);
      HandleConnection(RequestText(httpMethod, target, version, headers, body), env)
        == Dispatch(HandlerFor(ROUTES[i].name), target, headers, body + pad, env)
  {
    var text := RequestText(httpMethod, target, version, headers, body);
    var pad := Zeros(BUFFER_SIZE - |text|);
    ParseFramed(httpMethod, target, version, headers, body);
    ServeRouted(Frame(text), env, Request(httpMethod, target, headers, body + pad), i);
  }

  /** A request text that fits the buffer and that no route selects is
      answered with the bare 404. */
  lemma ConnectionUnrouted(httpMethod: bytes, target: bytes, version: bytes, headers: seq<bytes>, body: bytes, env: Env)
    requires WellFormed(httpMethod, target, version, headers, body)
    requires |RequestText(httpMethod, target, version, headers, body)| <= BUFFER_SIZE
    requires RoutePosition(ROUTES, httpMethod, target) == None
    ensures HandleConnection(RequestText(httpMethod, target, version, headers, body), env)
      == Ok("HTTP/1.1 404 NOT FOUND\r\n\r\n")
  {
    ParseFramed(httpMethod, target, version, headers, body);
    ServeNoRoute(Frame(RequestText(httpMethod, target, version, headers, body)), env);
  }

  /** `DELETE /`: no route, so the bare 404, whatever the headers and body. */
  lemma ConnectionDeleteRoot(version: bytes, headers: seq<bytes>, body: bytes, env: Env)
    requires WellFormed("DELETE", "/", version, headers, body)
    requires |RequestText("DELETE", "/", version, headers, body)| <= BUFFER_SIZE
    ensures HandleConnection(RequestText("DELETE", "/", version, headers, body), env)
      == Ok("HTTP/1.1 404 NOT FOUND\r\n\r\n")
  {
    RouteOtherMethod("DELETE", "/");
    ConnectionUnrouted("DELETE", "/", version, headers, body, env);
  }

  /** `GET /nope`: no route, so the bare 404. */
  lemma ConnectionUnknownPath(version: bytes, headers: seq<bytes>, body: bytes, env: Env)
    requires WellFormed("GET", "/nope", version, headers, body)
    requires |RequestText("GET", "/nope", version, headers, body)| <= BUFFER_SIZE
    ensures HandleConnection(RequestText("GET", "/nope", version, headers, body), env)
      == Ok("HTTP/1.1 404 NOT FOUND\r\n\r\n")
  {
    RouteUnknownPath();
    ConnectionUnrouted("GET", "/nope", version, headers, body, env);
  }

  /** `GET /` answers the bare 200 whatever the headers and body. */
  lemma ConnectionIndex(version: bytes, headers: seq<bytes>, body: bytes, env: Env)
    requires WellFormed("GET", "/", version, headers, body)
    requires |RequestText("GET", "/", version, headers, body)| <= BUFFER_SIZE
    ensures HandleConnection(RequestText("GET", "/", version, headers, body), env)
      == Ok("HTTP/1.1 200 OK\r\n\r\n")
  {
    RouteIndex();
    RouteNamesKnown();
    ConnectionRouted("GET", "/", version, headers, body, env, 0);
  }

  /** `GET /echo/<text>` answers `<text>` with its byte length, when the
      text contains neither a line feed nor `/echo/`. */
  lemma ConnectionEcho(text: bytes, version: bytes, headers: seq<bytes>, body: bytes, env: Env)
    requires '\n' !in text && !Contains(text, ECHO_PREFIX)
    requires WellFormed("GET", ECHO_PREFIX + text, version, headers, body)
    requires |RequestText("GET", ECHO_PREFIX + text, version, headers, body)| <= BUFFER_SIZE
    ensures HandleConnection(RequestText("GET", ECHO_PREFIX + text, version, headers, body), env)
      == Ok(OkWithContent(TEXT_PLAIN, text))
  {
    var pad := Zeros(BUFFER_SIZE - |RequestText("GET", ECHO_PREFIX + text, version, headers, body)|);
    RouteEcho(text);
    RouteNamesKnown();
    ConnectionRouted("GET", ECHO_PREFIX + text, version, headers, body, env, 1);
    EchoReturnsSuffix(text, headers, body + pad);
  }

  /** `GET /user-agent` with a `User-Agent: <value>` header, the first to
      mention the user agent, answers `<value>`. */
  lemma ConnectionUserAgent(value: bytes, before: seq<bytes>, after: seq<bytes>, version: bytes, body: bytes, env: Env)
    requires forall k | 0 <= k < |before| :: !MentionsUserAgent(before[k])
    requires value == [] || !IsContinuation(value[0])
    requires WellFormed("GET", "/user-agent", version, before + ["User-Agent: " + value] + after, body)
    requires |RequestText("GET", "/user-agent", version, before + ["User-Agent: " + value] + after, body)| <= BUFFER_SIZE
    ensures HandleConnection(RequestText("GET", "/user-agent", version, before + ["User-Agent: " + value] + after, body), env)
      == Ok(OkWithContent(TEXT_PLAIN, value))
  {
    var headers := before + ["User-Agent: " + value] + after;
    var pad := Zeros(BUFFER_SIZE - |RequestText("GET", "/user-agent", version, headers, body)|);
    RouteUserAgent();
    RouteNamesKnown();
    ConnectionRouted("GET", "/user-agent", version, headers, body, env, 2);
    UserAgentFound(before, value, after, "/user-agent", body + pad);
  }

  /** `GET /files/<name>` serves the file at the directory argument
      followed by `<name>`, or the 404 when it cannot be read. */
  lemma ConnectionGetFile(name: bytes, version: bytes, headers: seq<bytes>, body: bytes, env: Env)
    requires '\n' !in name && (name == [] || !IsContinuation(name[0]))
    requires env.directory.Some?
    requires WellFormed("GET", "/files/" + name, version, headers, body)
    requires |RequestText("GET", "/files/" + name, version, headers, body)| <= BUFFER_SIZE
    ensures var path := env.directory.value + name;
      HandleConnection(RequestText("GET", "/files/" + name, version, headers, body), env)
        == if path in env.files then Ok(OkWithContent(OCTET_STREAM, env.files[path]))
           else Ok("HTTP/1.1 404 NOT FOUND\r\n\r\n")
  {
    var pad := Zeros(BUFFER_SIZE - |RequestText("GET", "/files/" + name, version, headers, body)|);
    RouteFiles(name);
    RouteNamesKnown();
    ConnectionRouted("GET", "/files/" + name, version, headers, body, env, 3);
    GetFileServes(name, headers, body + pad, env);
  }

  /** `POST /files/<name>` answers no bytes at all and writes nothing. */
  lemma ConnectionPostFile(name: bytes, version: bytes, headers: seq<bytes>, body: bytes, env: Env)
    requires '\n' !in name && (name == [] || !IsContinuation(name[0]))
    requires env.directory.Some?
    requires WellFormed("POST", "/files/" + name, version, headers, body)
    requires |RequestText("POST", "/files/" + name, version, headers, body)| <= BUFFER_SIZE
    ensures HandleConnection(RequestText("POST", "/files/" + name, version, headers, body), env) == Ok([])
  {
    var pad := Zeros(BUFFER_SIZE - |RequestText("POST", "/files/" + name, version, headers, body)|);
    RouteFiles(name);
    RouteNamesKnown();
    ConnectionRouted("POST", "/files/" + name, version, headers, body, env, 4);
    var target: bytes := "/files/" + name;
    assert target[FILES_CUT..] == name;
  }
}
