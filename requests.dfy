/** The parse slice of `stream_handler`: the fixed read buffer and the way
    its text is cut into a request line, header lines and a body. */
module Requests {
  import opened Wrappers
  import opened Text
  import opened Messages

  /** Size of the buffer `stream_handler` reads into. */
  const BUFFER_SIZE: nat := 512

  const SP: bytes := " "

  datatype Request = Request(httpMethod: bytes, target: bytes, headers: seq<bytes>, body: bytes)

  function Zeros(n: nat): (z: bytes)
    ensures |z| == n && '\r' !in z && '\n' !in z
  {
    seq(n, _ => '\0')
  }

  /** The buffer after one `stream.read`: the bytes that read returned, cut
      at the buffer size, followed by the zero bytes the buffer started with. */
  function Frame(received: bytes): (buffer: bytes)
    ensures |buffer| == BUFFER_SIZE
    ensures |received| <= BUFFER_SIZE ==> received <= buffer
    ensures |received| >= BUFFER_SIZE ==> buffer <= received
    ensures |received| <= BUFFER_SIZE ==> buffer[|received|..] == Zeros(BUFFER_SIZE - |received|)
  {
    if |received| >= BUFFER_SIZE then received[..BUFFER_SIZE]
    else received + Zeros(BUFFER_SIZE - |received|)
  }

  /** Lines 134-138 of `stream_handler`, with their two panics: the header
      slice `req_lines[1..len - 2]` needs at least three lines, and
      `first_line_splits[1]` needs at least two space-separated tokens. */
  function Parse(data: bytes): (r: Result<Request, Panic>)
    ensures r.Err? ==> r.error == SliceOutOfRange || r.error == IndexOutOfRange
    ensures r.Ok? ==> !Contains(r.value.httpMethod, SP) && !Contains(r.value.target, SP)
    ensures r.Ok? ==> !Contains(r.value.body, CRLF)
    ensures r.Ok? ==> forall k | 0 <= k < |r.value.headers| :: !Contains(r.value.headers[k], CRLF)
  {
    var lines := Split(data, CRLF);
    if |lines| < 3 then Err(SliceOutOfRange)
    else
      SplitPiecesFree(data, CRLF);
      var headers := lines[1..|lines| - 2];
      var body := lines[|lines| - 1];
      var tokens := Split(lines[0], SP);
      if |tokens| < 2 then Err(IndexOutOfRange)
      else
        SplitPiecesFree(lines[0], SP);
        Ok(Request(tokens[0], tokens[1], headers, body))
  }

  /** The text of a request: `METHOD SP TARGET SP VERSION`, the header
      lines, an empty line and the body. */
  function RequestText(httpMethod: bytes, target: bytes, version: bytes, headers: seq<bytes>, body: bytes): bytes {
    Emit(Message(httpMethod + SP + target + SP + version, headers, body))
  }

  /** The conditions under which the parts of a request survive splitting. */
  predicate WellFormed(httpMethod: bytes, target: bytes, version: bytes, headers: seq<bytes>, body: bytes) {
    && ' ' !in httpMethod && '\r' !in httpMethod
    && ' ' !in target && '\r' !in target
    && '\r' !in version
    && (forall k | 0 <= k < |headers| :: '\r' !in headers[k])
    && !Contains(body, CRLF)
  }

  lemma NoSeparator(s: bytes, sep: bytes)
    requires |sep| > 0 && sep[0] !in s
    ensures !Contains(s, sep)
  {
    forall i: nat | OccursAt(s, sep, i) ensures false {
    }
  }

  /** Round trip: parsing the text of a well-formed request gives back its
      httpMethod, target, header lines and body. */
  lemma ParseRequestText(httpMethod: bytes, target: bytes, version: bytes, headers: seq<bytes>, body: bytes)
    requires WellFormed(httpMethod, target, version, headers, body)
    ensures Parse(RequestText(httpMethod, target, version, headers, body)) == Ok(Request(httpMethod, target, headers, body))
  {
    var line := httpMethod + SP + target + SP + version;
    var m := Message(line, headers, body);
    assert CRLF[0] == '\r';
    SplitEmit(m);
    SplitNoSep(body, CRLF);
    var lines := Split(Emit(m), CRLF);
    assert lines == [line] + headers + [[], body];
    assert lines[0] == line;
    assert lines[1..|lines| - 2] == headers;
    assert lines[|lines| - 1] == body;
    SplitRequestLine(httpMethod, target, version);
  }

  lemma SplitRequestLine(httpMethod: bytes, target: bytes, version: bytes)
    requires ' ' !in httpMethod && ' ' !in target
    ensures Split(httpMethod + SP + target + SP + version, SP) == [httpMethod, target] + Split(version, SP)
  {
    assert SP[0] == ' ';
    assert httpMethod + SP + target + SP + version == httpMethod + SP + (target + SP + version);
    SplitAfter(httpMethod, SP, target + SP + version);
    SplitAfter(target, SP, version);
  }

  lemma PaddedBodyUnsplit(body: bytes, n: nat)
    requires !Contains(body, CRLF)
    ensures !Contains(body + Zeros(n), CRLF)
  {
    var padded := body + Zeros(n);
    forall i: nat | OccursAt(padded, CRLF, i) ensures false {
      assert padded[i] == '\r' && padded[i + 1] == '\n';
      if i + 2 <= |body| {
        assert padded[i..i + 2] == body[i..i + 2];
        assert OccursAt(body, CRLF, i);
      }
    }
  }

  /** What the handlers receive for a request that fits the buffer: the
      whole 512-byte buffer is decoded, so the body carries the buffer's
      unused zero bytes. */
  lemma ParseFramed(httpMethod: bytes, target: bytes, version: bytes, headers: seq<bytes>, body: bytes)
    requires WellFormed(httpMethod, target, version, headers, body)
    requires |RequestText(httpMethod, target, version, headers, body)| <= BUFFER_SIZE
    ensures var pad := BUFFER_SIZE - |RequestText(httpMethod, target, version, headers, body)|;
      Parse(Frame(RequestText(httpMethod, target, version, headers, body)))
        == Ok(Request(httpMethod, target, headers, body + Zeros(pad)))
  {
    var text := RequestText(httpMethod, target, version, headers, body);
    var pad := Zeros(BUFFER_SIZE - |text|);
    assert Frame(text) == RequestText(httpMethod, target, version, headers, body + pad);
    PaddedBodyUnsplit(body, BUFFER_SIZE - |text|);
    ParseRequestText(httpMethod, target, version, headers, body + pad);
  }

  /** Text without any CRLF panics at the header slice. */
  lemma ParseWithoutLineBreak(data: bytes)
    requires !Contains(data, CRLF)
    ensures Parse(data) == Err(SliceOutOfRange)
  {
    SplitSingle(data, CRLF);
  }

  /** A first line without CRLF (it may hold a lone CR) is split off at
      the CRLF that follows it. */
  lemma SplitAtFirstLineBreak(first: bytes, rest: bytes)
    requires !Contains(first, CRLF)
    ensures Split(first + CRLF + rest, CRLF) == [first] + Split(rest, CRLF)
  {
    var s := first + CRLF + rest;
    var r := Split(s, CRLF);
    SplitFirstPiece(s, CRLF);
    SplitRest(s, CRLF);
    SplitJoin(s, CRLF);
    JoinPrefix(r, CRLF);
    assert s[|first|..|first| + 2] == CRLF;
    assert OccursAt(s, CRLF, |first|);
    NoLineBreakBefore(first, rest);
    assert |r| > 1;
    assert |r[0]| == |first|;
    assert r[0] == s[..|first|] == first;
    assert s[|first| + 2..] == rest;
  }

  lemma NoLineBreakBefore(first: bytes, rest: bytes)
    requires !Contains(first, CRLF)
    ensures forall i: nat | i < |first| :: !OccursAt(first + CRLF + rest, CRLF, i)
  {
    var s := first + CRLF + rest;
    forall i: nat | i < |first| ensures !OccursAt(s, CRLF, i) {
      if i + 2 <= |first| {
        assert !OccursAt(first, CRLF, i);
        assert s[i..i + 2] == first[i..i + 2];
      } else {
        assert i + 1 == |first|;
        assert s[i + 1] == '\r' && CRLF[1] == '\n';
        assert s[i..i + 2][1] == s[i + 1];
      }
    }
  }

  /** Text with a single CRLF has two lines and also panics at the header
      slice (`req_lines[1..0]`). */
  lemma ParseSingleLineBreak(first: bytes, rest: bytes)
    requires !Contains(first, CRLF) && !Contains(rest, CRLF)
    ensures Parse(first + CRLF + rest) == Err(SliceOutOfRange)
  {
    SplitAtFirstLineBreak(first, rest);
    SplitNoSep(rest, CRLF);
  }

  /** Enough lines, but a request line without a space: `first_line_splits[1]`
      panics. */
  lemma ParseWithoutTarget(line: bytes, rest: bytes)
    requires !Contains(line, CRLF) && ' ' !in line && Contains(rest, CRLF)
    ensures Parse(line + CRLF + rest) == Err(IndexOutOfRange)
  {
    assert SP[0] == ' ';
    SplitAtFirstLineBreak(line, rest);
    SplitSingle(rest, CRLF);
    NoSeparator(line, SP);
    SplitNoSep(line, SP);
  }

  /** The header list is the lines between the request line and the last
      two lines, not the lines up to the first empty one: when the body has
      a CRLF in it, the empty line becomes a header, and only the body's last
      line is kept (`A: b`, an empty line, `x`, `y` gives the headers `A: b`
      and the empty line, and the body `y`). */
  lemma ParseBodyWithLineBreak(httpMethod: bytes, target: bytes, version: bytes, headers: seq<bytes>, x: bytes, y: bytes)
    requires WellFormed(httpMethod, target, version, headers, y)
    requires '\r' !in x
    ensures Parse(RequestText(httpMethod, target, version, headers, x + CRLF + y))
      == Ok(Request(httpMethod, target, headers + [[]], y))
  {
    var line := httpMethod + SP + target + SP + version;
    var m := Message(line, headers, x + CRLF + y);
    assert CRLF[0] == '\r';
    SplitEmit(m);
    SplitAfter(x, CRLF, y);
    SplitNoSep(y, CRLF);
    var lines := Split(Emit(m), CRLF);
    assert lines == [line] + headers + [[], x, y];
    assert lines[0] == line;
    assert lines[1..|lines| - 2] == headers + [[]];
    assert lines[|lines| - 1] == y;
    SplitRequestLine(httpMethod, target, version);
  }
}
