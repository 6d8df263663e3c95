/** The six handlers of `src/main.rs` and `get_route_method`, which maps a
    route name to one of them. Every handler takes the target, the header
    lines and the body; the file handlers also see the environment. */
module Handlers {
  import opened Wrappers
  import opened Text
  import opened Messages

  const OK_RESPONSE: bytes := "HTTP/1.1 200 OK"
  const BAD_RESPONSE: bytes := "HTTP/1.1 404 NOT FOUND"

  const TEXT_PLAIN: bytes := "text/plain"
  const OCTET_STREAM: bytes := "application/octet-stream"

  const ECHO_PREFIX: bytes := "/echo/"
  const USER_AGENT: bytes := "user-agent"
  /** `"user-agent: ".len()`, where the user agent handler cuts its header. */
  const USER_AGENT_CUT: nat := 12
  /** `"/files/".len()`, where the file handlers cut the target. */
  const FILES_CUT: nat := 7

  /** What the file handlers read from outside the core: the directory
      argument `ARGS.get(2)` and the files `read_to_string` can read, by
      full path. */
  datatype Env = Env(directory: Option<bytes>, files: map<bytes, bytes>)

  /** The 200 response with a body, as the handlers format it: the content
      type, then the byte length of the content, then the content. */
  function OkWithContent(contentType: bytes, content: bytes): bytes {
    OK_RESPONSE + "\r\nContent-Type: " + contentType + "\r\nContent-Length: "
      + Decimal(|content|) + "\r\n\r\n" + content
  }

  function IndexHandler(target: bytes, headers: seq<bytes>, body: bytes): (r: bytes)
    ensures r == "HTTP/1.1 200 OK\r\n\r\n"
  {
    OK_RESPONSE + CRLF + CRLF
  }

  /** Echoes the target with every `/echo/` removed (`str::replace`). */
  function EchoHandler(target: bytes, headers: seq<bytes>, body: bytes): (r: bytes)
    ensures Framed(r)
    ensures ReadMessage(r) == Some(OkMessage(TEXT_PLAIN, Replace(target, ECHO_PREFIX, [])))
  {
    var content := Replace(target, ECHO_PREFIX, []);
    assert '\r' !in TEXT_PLAIN;
    OkWithContentReads(TEXT_PLAIN, content);
    OkWithContent(TEXT_PLAIN, content)
  }

  /** The user agent handler's test on a header line: its lower-case form
      contains `user-agent` anywhere. */
  predicate MentionsUserAgent(header: bytes) {
    Contains(Lower(header), USER_AGENT)
  }

  /** Answers with the first header that mentions `user-agent`, from byte 12
      on; panics when that byte is past the end or inside a character. */
  function UserAgentHandler(target: bytes, headers: seq<bytes>, body: bytes): (r: Result<bytes, Panic>)
    ensures r.Err? ==> exists k | 0 <= k < |headers| :: MentionsUserAgent(headers[k])
  {
    match FirstIndex(headers, MentionsUserAgent)
    case Some(k) =>
      var content :- SliceFrom(headers[k], USER_AGENT_CUT);
      Ok(OkWithContent(TEXT_PLAIN, content))
    case None => Ok(BAD_RESPONSE + CRLF + CRLF)
  }

  function BadResponseHandler(target: bytes, headers: seq<bytes>, body: bytes): (r: bytes)
    ensures r == "HTTP/1.1 404 NOT FOUND\r\n\r\n"
  {
    BAD_RESPONSE + CRLF + CRLF
  }

  /** Serves the file named by the target after `/files/`, looked up under
      the directory argument; 404 when it cannot be read. */
  function GetFileHandler(target: bytes, headers: seq<bytes>, body: bytes, env: Env): (r: Result<bytes, Panic>)
    ensures r.Err? <==> SliceFrom(target, FILES_CUT).Err? || env.directory.None?
  {
    var name :- SliceFrom(target, FILES_CUT);
    if env.directory.None? then Err(ExpectFailed)
    else
      var path := env.directory.value + name;
      if path in env.files then Ok(OkWithContent(OCTET_STREAM, env.files[path]))
      else Ok(BadResponseHandler(target, headers, body))
  }

  /** Cuts the target and reads the directory argument like
      `GetFileHandler` (so it panics in the same cases), then writes nothing
      and answers with no bytes at all. */
  function PostFileHandler(target: bytes, headers: seq<bytes>, body: bytes, env: Env): (r: Result<bytes, Panic>)
    ensures r.Err? <==> SliceFrom(target, FILES_CUT).Err? || env.directory.None?
    ensures r.Ok? ==> r.value == []
  {
    var name :- SliceFrom(target, FILES_CUT);
    if env.directory.None? then Err(ExpectFailed) else Ok([])
  }

  datatype Handler = Index | Echo | UserAgent | GetFile | PostFile | BadResponse

  /** `get_route_method`: the handler for a route name, the 404 handler for
      any name it does not know. */
  function HandlerFor(name: bytes): (h: Handler)
    ensures h == BadResponse <==>
      name !in ["index", "echo", "user_agent", "get_file", "post_file"]
  {
    if name == "index" then Index
    else if name == "echo" then Echo
    else if name == "user_agent" then UserAgent
    else if name == "get_file" then GetFile
    else if name == "post_file" then PostFile
    else BadResponse
  }

  /** Calling the boxed handler. */
  function Dispatch(h: Handler, target: bytes, headers: seq<bytes>, body: bytes, env: Env): Result<bytes, Panic> {
    match h
    case Index => Ok(IndexHandler(target, headers, body))
    case Echo => Ok(EchoHandler(target, headers, body))
    case UserAgent => UserAgentHandler(target, headers, body)
    case GetFile => GetFileHandler(target, headers, body, env)
    case PostFile => PostFileHandler(target, headers, body, env)
    case BadResponse => Ok(BadResponseHandler(target, headers, body))
  }

  /** A response as the wire format promises it to a client: it reads as a
      message whose status line is one of the two the server writes; a 404
      has no fields and no body; a response without fields has no body; and
      a response with fields announces the byte length of its body. */
  predicate Framed(r: bytes) {
    match ReadMessage(r)
    case None => false
    case Some(m) =>
      && (m.start == OK_RESPONSE || m.start == BAD_RESPONSE)
      && (m.start == BAD_RESPONSE ==> m.fields == [] && m.body == [])
      && (m.fields == [] ==> m.body == [])
      && (m.fields != [] ==> ContentLength(m.fields) == Some(|m.body|))
  }

  /** A client reading a formatted 200 response finds the content type, the
      content, and a `Content-Length` equal to the content's byte length. */
  lemma OkWithContentReads(contentType: bytes, content: bytes)
    requires '\r' !in contentType
    ensures ReadMessage(OkWithContent(contentType, content)) == Some(OkMessage(contentType, content))
    ensures ContentLength(OkMessage(contentType, content).fields) == Some(|content|)
    ensures Framed(OkWithContent(contentType, content))
  {
    var m := OkMessage(contentType, content);
    OkWithContentEmits(contentType, content);
    ReadEmit(m);
    ContentLengthAfterType(m.fields[0], |content|);
    assert m.fields == [m.fields[0], CONTENT_LENGTH + Decimal(|content|)];
  }

  /** The message a formatted 200 response is. */
  function OkMessage(contentType: bytes, content: bytes): Message {
    Message(OK_RESPONSE, ["Content-Type: " + contentType, CONTENT_LENGTH + Decimal(|content|)], content)
  }

  lemma OkWithContentEmits(contentType: bytes, content: bytes)
    requires '\r' !in contentType
    ensures OkWithContent(contentType, content) == Emit(OkMessage(contentType, content))
    ensures Readable(OkMessage(contentType, content))
    ensures !(CONTENT_LENGTH <= OkMessage(contentType, content).fields[0])
  {
    var m := OkMessage(contentType, content);
    var typeField := m.fields[0];
    var lengthField := m.fields[1];
    assert FieldLines(m.fields) == typeField + CRLF + (lengthField + CRLF + []) by {
      assert m.fields[1..] == [lengthField];
      assert m.fields[1..][1..] == [];
      assert FieldLines(m.fields[1..][1..]) == [];
      assert FieldLines(m.fields[1..]) == lengthField + CRLF + [];
    }
    var digits := Decimal(|content|);
    assert "\r\nContent-Type: " == CRLF + "Content-Type: ";
    assert "\r\nContent-Length: " == CRLF + CONTENT_LENGTH;
    assert "\r\n\r\n" == CRLF + CRLF;
    calc {
      OkWithContent(contentType, content);
      OK_RESPONSE + "\r\nContent-Type: " + contentType + "\r\nContent-Length: " + digits + "\r\n\r\n" + content;
      OK_RESPONSE + (CRLF + "Content-Type: ") + contentType + (CRLF + CONTENT_LENGTH) + digits + (CRLF + CRLF) + content;
      OK_RESPONSE + CRLF + (typeField + CRLF + (lengthField + CRLF + [])) + CRLF + content;
      Emit(m);
    }
    DigitsHaveNoCR(Decimal(|content|));
    assert '\r' !in lengthField;
    assert typeField[8] != CONTENT_LENGTH[8];
  }

  lemma DigitsHaveNoCR(digits: bytes)
    requires forall i | 0 <= i < |digits| :: IsDigit(digits[i])
    ensures '\r' !in digits
  {
    forall i | 0 <= i < |digits| ensures digits[i] != '\r' {
      assert IsDigit(digits[i]);
    }
  }

  /** The bodiless responses read as messages without fields. */
  lemma StatusOnlyReads(status: bytes)
    requires '\r' !in status
    ensures ReadMessage(status + CRLF + CRLF) == Some(Message(status, [], []))
  {
    var m := Message(status, [], []);
    assert status + CRLF + CRLF == Emit(m);
    ReadEmit(m);
  }

  /** Echo answers the suffix after `/echo/` unchanged when the suffix does
      not itself contain `/echo/`. */
  lemma EchoReturnsSuffix(text: bytes, headers: seq<bytes>, body: bytes)
    requires !Contains(text, ECHO_PREFIX)
    ensures EchoHandler(ECHO_PREFIX + text, headers, body) == OkWithContent(TEXT_PLAIN, text)
  {
    RemoveLeadingMarker(text);
  }

  lemma RemoveLeadingMarker(text: bytes)
    requires !Contains(text, ECHO_PREFIX)
    ensures Replace(ECHO_PREFIX + text, ECHO_PREFIX, []) == text
  {
    assert ECHO_PREFIX == [] + ECHO_PREFIX + [];
    assert ECHO_PREFIX + text == [] + ECHO_PREFIX + text;
    SplitAfter([], ECHO_PREFIX, text);
    SplitNoSep(text, ECHO_PREFIX);
    assert Split(ECHO_PREFIX + text, ECHO_PREFIX) == [[], text];
    assert [[], text][1..] == [text];
    assert Join([[], text], []) == [] + [] + Join([text], []);
  }

  /** Echo removes every `/echo/`, not only the leading one: a suffix
      `<x>/echo/<y>` is answered as `<x><y>` (`/echo/a/echo/b` gives `ab`). */
  lemma EchoRemovesEveryMarker(x: bytes, y: bytes, headers: seq<bytes>, body: bytes)
    requires '/' !in x && !Contains(y, ECHO_PREFIX)
    ensures EchoHandler(ECHO_PREFIX + x + ECHO_PREFIX + y, headers, body) == OkWithContent(TEXT_PLAIN, x + y)
  {
    SplitTwoMarkers(x, y);
    var parts: seq<bytes> := [[], x, y];
    assert parts[1..] == [x, y] && parts[1..][1..] == [y];
    assert Join([x, y], []) == x + [] + Join([y], []);
    assert Join(parts, []) == [] + [] + Join([x, y], []);
  }

  /** Markers are removed left to right without overlap: in `/echo/echo/`
      the second `echo/` shares its `/` with the first marker, so only the
      first is removed and `echo/` is answered. */
  lemma EchoOverlappingMarkers(headers: seq<bytes>, body: bytes)
    ensures EchoHandler("/echo/echo/", headers, body) == OkWithContent(TEXT_PLAIN, "echo/")
  {
  }

  lemma SplitTwoMarkers(x: bytes, y: bytes)
    requires '/' !in x && !Contains(y, ECHO_PREFIX)
    ensures Split(ECHO_PREFIX + x + ECHO_PREFIX + y, ECHO_PREFIX) == [[], x, y]
  {
    assert ECHO_PREFIX[0] == '/';
    assert ECHO_PREFIX + x + ECHO_PREFIX + y == [] + ECHO_PREFIX + (x + ECHO_PREFIX + y);
    SplitAfter([], ECHO_PREFIX, x + ECHO_PREFIX + y);
    SplitAfter(x, ECHO_PREFIX, y);
    SplitNoSep(y, ECHO_PREFIX);
  }

  lemma LowerUserAgentField(value: bytes)
    ensures MentionsUserAgent("User-Agent: " + value)
  {
    var h: bytes := "User-Agent: " + value;
    var lower := Lower(h);
    assert lower[..10] == USER_AGENT by {
      forall i | 0 <= i < 10 ensures lower[i] == USER_AGENT[i] {
        assert lower[i] == LowerByte(h[i]);
      }
    }
    assert OccursAt(lower, USER_AGENT, 0);
  }

  /** A `User-Agent: <value>` header that is the first to mention the user
      agent is answered with `<value>` as text. */
  lemma UserAgentFound(before: seq<bytes>, value: bytes, after: seq<bytes>, target: bytes, body: bytes)
    requires forall k | 0 <= k < |before| :: !MentionsUserAgent(before[k])
    requires value == [] || !IsContinuation(value[0])
    ensures UserAgentHandler(target, before + ["User-Agent: " + value] + after, body)
      == Ok(OkWithContent(TEXT_PLAIN, value))
  {
    var headers: seq<bytes> := before + ["User-Agent: " + value] + after;
    var h: bytes := "User-Agent: " + value;
    LowerUserAgentField(value);
    assert headers[|before|] == h;
    assert forall k | 0 <= k < |before| :: headers[k] == before[k];
    var found := FirstIndex(headers, MentionsUserAgent);
    assert found == Some(|before|);
    assert h[USER_AGENT_CUT..] == value;
  }

  /** The general case: the first header `h` whose lower-case form contains
      `user-agent` decides. The answer is `h` from byte 12 on, with its byte
      length, or the panic of that slice (`h` shorter than 12 bytes, or byte
      12 inside a character). */
  lemma UserAgentFirstMention(before: seq<bytes>, h: bytes, after: seq<bytes>, target: bytes, body: bytes)
    requires forall k | 0 <= k < |before| :: !MentionsUserAgent(before[k])
    requires MentionsUserAgent(h)
    ensures UserAgentHandler(target, before + [h] + after, body)
      == match SliceFrom(h, USER_AGENT_CUT)
         case Ok(content) => Ok(OkWithContent(TEXT_PLAIN, content))
         case Err(e) => Err(e)
    ensures SliceFrom(h, USER_AGENT_CUT).Ok? ==>
      UserAgentHandler(target, before + [h] + after, body) == Ok(OkWithContent(TEXT_PLAIN, h[USER_AGENT_CUT..]))
  {
    var headers: seq<bytes> := before + [h] + after;
    assert headers[|before|] == h;
    assert forall k | 0 <= k < |before| :: headers[k] == before[k];
    assert FirstIndex(headers, MentionsUserAgent) == Some(|before|);
  }

  /** With no header mentioning the user agent the answer is the 404. */
  lemma UserAgentMissing(target: bytes, headers: seq<bytes>, body: bytes)
    requires forall k | 0 <= k < |headers| :: !MentionsUserAgent(headers[k])
    ensures UserAgentHandler(target, headers, body) == Ok("HTTP/1.1 404 NOT FOUND\r\n\r\n")
  {
    assert BAD_RESPONSE + CRLF + CRLF == "HTTP/1.1 404 NOT FOUND\r\n\r\n";
  }

  /** The first mentioning header decides, and one shorter than 12 bytes
      makes the handler panic. */
  lemma UserAgentShortHeader(before: seq<bytes>, header: bytes, after: seq<bytes>, target: bytes, body: bytes)
    requires forall k | 0 <= k < |before| :: !MentionsUserAgent(before[k])
    requires MentionsUserAgent(header) && |header| < USER_AGENT_CUT
    ensures UserAgentHandler(target, before + [header] + after, body) == Err(SliceOutOfRange)
  {
    var headers: seq<bytes> := before + [header] + after;
    assert headers[|before|] == header;
    assert forall k | 0 <= k < |before| :: headers[k] == before[k];
    assert FirstIndex(headers, MentionsUserAgent) == Some(|before|);
  }

  /** Any header mentioning `user-agent` is taken, whatever its name, and is
      cut at byte 12 whatever the length of its name. */
  lemma UserAgentLooseMatch(target: bytes, body: bytes)
    ensures UserAgentHandler(target, ["X-User-Agent-Id: 7"], body)
      == Ok(OkWithContent(TEXT_PLAIN, "-Id: 7"))
  {
    var h: bytes := "X-User-Agent-Id: 7";
    var lower := Lower(h);
    assert lower[2..12] == USER_AGENT by {
      forall i | 2 <= i < 12 ensures lower[i] == USER_AGENT[i - 2] {
        assert lower[i] == LowerByte(h[i]);
      }
    }
    assert OccursAt(lower, USER_AGENT, 2);
    assert h[USER_AGENT_CUT..] == "-Id: 7";
  }

  /** A file under the directory argument is served byte for byte with its
      length; a file that cannot be read gives the 404. */
  lemma GetFileServes(name: bytes, headers: seq<bytes>, body: bytes, env: Env)
    requires env.directory.Some?
    requires name == [] || !IsContinuation(name[0])
    ensures var path := env.directory.value + name;
      && (path in env.files ==>
          && GetFileHandler("/files/" + name, headers, body, env) == Ok(OkWithContent(OCTET_STREAM, env.files[path]))
          && ReadMessage(OkWithContent(OCTET_STREAM, env.files[path]))
             == Some(OkMessage(OCTET_STREAM, env.files[path])))
      && (path !in env.files ==>
          GetFileHandler("/files/" + name, headers, body, env) == Ok("HTTP/1.1 404 NOT FOUND\r\n\r\n"))
  {
    var target: bytes := "/files/" + name;
    assert target[FILES_CUT..] == name;
    var path := env.directory.value + name;
    if path in env.files {
      OkWithContentReads(OCTET_STREAM, env.files[path]);
    }
  }

  /** Every handler but the placeholder POST handler answers a framed
      response; the POST handler answers nothing. */
  lemma DispatchFramed(h: Handler, target: bytes, headers: seq<bytes>, body: bytes, env: Env)
    requires Dispatch(h, target, headers, body, env).Ok?
    ensures var r := Dispatch(h, target, headers, body, env).value;
      if h == PostFile then r == [] else Framed(r)
  {
    assert '\r' !in OK_RESPONSE && '\r' !in BAD_RESPONSE;
    StatusOnlyReads(OK_RESPONSE);
    StatusOnlyReads(BAD_RESPONSE);
    match h
    case Index =>
    case Echo =>
    case UserAgent =>
      var k := FirstIndex(headers, MentionsUserAgent);
      if k.Some? {
        OkWithContentReads(TEXT_PLAIN, headers[k.value][USER_AGENT_CUT..]);
      }
    case GetFile =>
      var name := target[FILES_CUT..];
      var path := env.directory.value + name;
      if path in env.files {
        OkWithContentReads(OCTET_STREAM, env.files[path]);
      }
    case PostFile =>
    case BadResponse =>
  }
}
