/** The line-oriented shape shared by requests and responses (section 2.1 of
    RFC 9112, in the loose form this server writes and reads): a start line,
    field lines each ended by CRLF, an empty line, then the body. */
module Messages {
  import opened Wrappers
  import opened Text

  const CRLF: bytes := "\r\n"

  datatype Message = Message(start: bytes, fields: seq<bytes>, body: bytes)

  function FieldLines(fields: seq<bytes>): bytes {
    if fields == [] then [] else fields[0] + CRLF + FieldLines(fields[1..])
  }

  /** The bytes of a message on the wire. */
  function Emit(m: Message): bytes {
    m.start + CRLF + FieldLines(m.fields) + CRLF + m.body
  }

  /** The lines of a message can be told apart after splitting on CRLF. */
  predicate LinesSplittable(m: Message) {
    && '\r' !in m.start
    && forall k | 0 <= k < |m.fields| :: '\r' !in m.fields[k]
  }

  /** In addition, no field line is empty, so the first empty line is the one
      that ends the head. */
  predicate Readable(m: Message) {
    && LinesSplittable(m)
    && forall k | 0 <= k < |m.fields| :: m.fields[k] != []
  }

  /** How a client reads a message: split on CRLF, the first line is the
      start line, the lines up to the first empty one are fields, and all
      that follows the empty line is the body. */
  function ReadMessage(r: bytes): Option<Message> {
    var lines := Split(r, CRLF);
    match FirstIndex(lines[1..], (line: bytes) => line == [])
    case None => None
    case Some(k) => Some(Message(lines[0], lines[1..k + 1], Join(lines[k + 2..], CRLF)))
  }

  /** `Content-Length` as a client reads it: the decimal value of the first
      field that starts with `Content-Length: `. */
  const CONTENT_LENGTH: bytes := "Content-Length: "

  function ContentLength(fields: seq<bytes>): Option<nat> {
    match FirstIndex(fields, (f: bytes) => CONTENT_LENGTH <= f)
    case None => None
    case Some(k) => ParseDecimal(fields[k][|CONTENT_LENGTH|..])
  }

  lemma {:induction false} SplitFieldLines(fields: seq<bytes>, tail: bytes)
    requires forall k | 0 <= k < |fields| :: '\r' !in fields[k]
    ensures Split(FieldLines(fields) + tail, CRLF) == fields + Split(tail, CRLF)
  {
    if fields == [] {
      assert FieldLines(fields) + tail == tail;
    } else {
      var rest := FieldLines(fields[1..]) + tail;
      assert CRLF[0] == '\r';
      calc {
        Split(FieldLines(fields) + tail, CRLF);
        { assert FieldLines(fields) + tail == fields[0] + CRLF + rest; }
        Split(fields[0] + CRLF + rest, CRLF);
        { SplitAfter(fields[0], CRLF, rest); }
        [fields[0]] + Split(rest, CRLF);
        { SplitFieldLines(fields[1..], tail); }
        [fields[0]] + (fields[1..] + Split(tail, CRLF));
        { assert fields == [fields[0]] + fields[1..]; }
        fields + Split(tail, CRLF);
      }
    }
  }

  /** Splitting an emitted message on CRLF gives back its lines. */
  lemma SplitEmit(m: Message)
    requires LinesSplittable(m)
    ensures Split(Emit(m), CRLF) == [m.start] + m.fields + [[]] + Split(m.body, CRLF)
  {
    var afterStart := FieldLines(m.fields) + (CRLF + m.body);
    assert Emit(m) == m.start + CRLF + afterStart;
    SplitAfter(m.start, CRLF, afterStart);
    SplitFieldLines(m.fields, CRLF + m.body);
    SplitAfter([], CRLF, m.body);
    assert [] + CRLF + m.body == CRLF + m.body;
  }

  /** Round trip: a client reads back exactly the message that was emitted. */
  lemma ReadEmit(m: Message)
    requires Readable(m)
    ensures ReadMessage(Emit(m)) == Some(m)
  {
    var lines := Split(Emit(m), CRLF);
    SplitEmit(m);
    var n := |m.fields|;
    assert lines[1..] == m.fields + [[]] + Split(m.body, CRLF);
    assert lines[1..][n] == [];
    var k := FirstIndex(lines[1..], (line: bytes) => line == []);
    assert forall j | 0 <= j < n :: lines[1..][j] == m.fields[j];
    assert k.Some? && k.value == n;
    assert lines[1..n + 1] == m.fields;
    assert lines[n + 2..] == Split(m.body, CRLF);
    SplitJoin(m.body, CRLF);
  }

  /** The `Content-Length` a client reads from the fields a response writes
      after its `Content-Type`. */
  lemma ContentLengthAfterType(typeField: bytes, n: nat)
    requires !(CONTENT_LENGTH <= typeField)
    ensures ContentLength([typeField, CONTENT_LENGTH + Decimal(n)]) == Some(n)
  {
    var fields := [typeField, CONTENT_LENGTH + Decimal(n)];
    assert CONTENT_LENGTH <= fields[1];
    assert fields[1][|CONTENT_LENGTH|..] == Decimal(n);
    DecimalRoundTrip(n);
  }
}
