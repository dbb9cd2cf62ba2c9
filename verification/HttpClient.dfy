/** Reading one response off a socket, and a client that keeps its connection between requests. */
module HttpClient {
  import opened Wrappers
  import opened Bytes
  import opened Text
  import opened HttpSyntax
  import opened HttpStream
  import Utf8

  lemma {:induction false} HeaderEndStable(raw: bytes, more: bytes)
    requires HeaderEnd(raw).Some?
    ensures HeaderEnd(raw + more) == HeaderEnd(raw)
  {
    assert forall i :: 0 <= i < 4 ==> (raw + more)[i] == raw[i];
    if !(raw[0] == CR && raw[1] == LF && raw[2] == CR && raw[3] == LF) {
      assert (raw + more)[1..] == raw[1..] + more;
      HeaderEndStable(raw[1..], more);
    }
  }

  /** Collects the header lines one by one; a later line overwrites an earlier one. */
  method CollectHeaders(lines: seq<string>) returns (headers: Headers)
    ensures headers == HeadersOf(lines)
  {
    headers := map[];
    for i := 0 to |lines|
      invariant headers == HeadersOf(lines[..i])
    {
      assert lines[..i + 1][..i] == lines[..i];
      match IndexOf(lines[i], ':') {
        case None =>
        case Some(colon) =>
          headers := headers[ToLowerAscii(Trim(lines[i][..colon])) := Trim(lines[i][colon + 1..])];
      }
    }
    assert lines[..|lines|] == lines;
  }

  method ParseHeadLines(head: bytes) returns (r: Result<Head, HttpError>)
    ensures r == ParseHead(head)
  {
    var text := Utf8.Decode(head);
    if text.None? {
      return Err(Malformed);
    }
    var lines := SplitLines(text.value);
    var status := StatusLine(lines[0]);
    if status.Err? {
      return Err(status.error);
    }
    var headers := CollectHeaders(lines[1..]);
    r := Ok(Head(status.value.0, status.value.1, headers));
  }

  /** Bytes the peer sent beyond the message: either rejected or left on the socket. */
  ghost predicate Answers(
    r: Result<(Response, bool), HttpError>, left: bytes, expected: Result<Message, HttpError>)
  {
    match expected
    case Err(e) => r == Err(e)
    case Ok(m) =>
      && (m.rest == [] ==> r == Ok((m.response, m.reusable)) && left == [])
      && (r.Ok? ==> r.value == (m.response, m.reusable) && IsSuffix(left, m.rest))
      && (r.Err? ==> r.error == Malformed)
  }

  /**
   * Reads one response however the socket fragments it. The outcome is the one of
   * `ParseMessage` on all the bytes; only bytes beyond the message may make it an error.
   */
  method ReadResponse(stream: Stream) returns (r: Result<(Response, bool), HttpError>)
    modifies stream`incoming
    ensures Answers(r, stream.incoming, ParseMessage(old(stream.incoming), stream.closed))
  {
    hide *;
    var raw: bytes := [];
    assert raw + stream.incoming == stream.incoming;
    while HeaderEnd(raw).None?
      invariant raw + stream.incoming == old(stream.incoming)
      decreases |stream.incoming|
    {
      var part := stream.Read(8192);
      if part.Err? || part.value == [] {
        assert raw + [] == raw;
        NoHeader(raw, stream.closed);
        AnswersErr(stream.incoming, Short);
        return Err(Short);
      }
      Assoc(raw, part.value, stream.incoming);
      raw := raw + part.value;
    }
    HeaderEndStable(raw, stream.incoming);
    r := ParseResponse(stream, raw, HeaderEnd(raw).value);
  }

  lemma NoHeader(raw: bytes, closed: bool)
    requires HeaderEnd(raw).None?
    ensures ParseMessage(raw, closed) == Err(Short)
  {
  }

  lemma AnswersErr(left: bytes, e: HttpError)
    ensures Answers(Err(e), left, Err(e))
  {
  }

  lemma ParseMessageAt(raw: bytes, more: bytes, end: nat, closed: bool)
    requires HeaderEnd(raw) == Some(end) && HeaderEnd(raw + more) == Some(end)
    ensures ParseMessage(raw + more, closed) ==
      match ParseHead(raw[..end])
      case Err(e) => Err(e)
      case Ok(head) => WithBody(head, BodyOf(FramingOf(head), raw[end + 4..] + more, closed))
  {
    assert (raw + more)[..end] == raw[..end];
    assert (raw + more)[end + 4..] == raw[end + 4..] + more;
  }

  method ParseResponse(stream: Stream, raw: bytes, headerEnd: nat) returns (r: Result<(Response, bool), HttpError>)
    requires HeaderEnd(raw) == Some(headerEnd)
    requires HeaderEnd(raw + stream.incoming) == Some(headerEnd)
    modifies stream`incoming
    ensures Answers(r, stream.incoming, ParseMessage(raw + old(stream.incoming), stream.closed))
  {
    hide HeaderEnd, ParseHead, ParseMessage, FramingOf, Reusable, DecodeChunks;
    ParseMessageAt(raw, stream.incoming, headerEnd, stream.closed);
    var parsed := ParseHeadLines(raw[..headerEnd]);
    if parsed.Err? {
      return Err(parsed.error);
    }
    var head := parsed.value;
    var body := ReadBody(stream, FramingOf(head), raw[headerEnd + 4..]);
    if body.Err? {
      return Err(body.error);
    }
    r := Ok((Response(head.status, head.headers, body.value), Reusable(head)));
  }

  method ReadBody(stream: Stream, framing: Framing, initial: bytes) returns (r: Result<bytes, HttpError>)
    modifies stream`incoming
    ensures match BodyOf(framing, initial + old(stream.incoming), stream.closed)
            case Err(e) => r == Err(e)
            case Ok((data, rest)) =>
              && (rest == [] ==> r == Ok(data) && stream.incoming == [])
              && (r.Ok? ==> r.value == data && IsSuffix(stream.incoming, rest))
              && (r.Err? ==> r.error == Malformed)
              && (framing.NoBody? ==> r == if initial == [] then Ok([]) else Err(Malformed))
              && (framing.Length? ==> r == if |initial| <= framing.length then Ok(data) else Err(Malformed))
  {
    hide DecodeChunks;
    match framing {
      case NoBody =>
        if initial != [] {
          return Err(Malformed);
        }
        return Ok([]);
      case Chunked =>
        r := DecodeChunked(stream, initial);
      case Length(n) =>
        r := ReadContentLength(stream, initial, n);
      case UntilClose =>
        var tail := stream.ReadToEnd();
        r := if tail.Ok? then Ok(initial + tail.value) else Err(tail.error);
      case Unsupported =>
        r := Err(Malformed);
    }
  }

  method ReadContentLength(stream: Stream, initial: bytes, length: nat) returns (r: Result<bytes, HttpError>)
    modifies stream`incoming
    ensures |initial| > length ==> r == Err(Malformed) && stream.incoming == old(stream.incoming)
    ensures |initial| <= length <= |initial + old(stream.incoming)| ==>
      && r == Ok((initial + old(stream.incoming))[..length])
      && stream.incoming == (initial + old(stream.incoming))[length..]
    ensures length > |initial + old(stream.incoming)| ==> r == Err(Short)
  {
    if |initial| > length {
      return Err(Malformed);
    }
    ghost var whole := initial + stream.incoming;
    var tail := stream.ReadExact(length - |initial|);
    if tail.Err? {
      return Err(Short);
    }
    assert whole[..length] == initial + tail.value;
    r := Ok(initial + tail.value);
  }

  // ----- a kept connection -----

  /** What the agent sends in answer to one request, and whether it then closes the socket. */
  datatype Reply = Reply(data: bytes, closes: bool)

  class Client {
    var connection: Stream?

    constructor ()
      ensures connection == null
    {
      connection := null;
    }

    /** A kept connection has nothing unread: it sits at the start of the next response. */
    ghost predicate AtMessageBoundary()
      reads this, connection
    {
      connection != null ==> connection.incoming == []
    }

    /**
     * Sends a request, to which the agent answers `reply`, and reads the response. The
     * connection is opened if need be and given up after an error or a last response.
     */
    method Exchange(reply: Reply) returns (r: Result<Response, HttpError>)
      requires AtMessageBoundary() && (connection != null ==> !connection.closed)
      modifies this, connection
      ensures connection != null ==> if old(connection) == null then fresh(connection) else connection == old(connection)
      ensures r.Err? ==> connection == null
      ensures connection != null ==> connection.closed == reply.closes
      ensures match ParseMessage(reply.data, reply.closes)
              case Err(e) => r == Err(e) && connection == null
              case Ok(m) =>
                && (m.rest == [] ==>
                     && r == Ok(m.response)
                     && (connection != null <==> m.reusable)
                     && AtMessageBoundary())
                && (r.Ok? ==> r.value == m.response && (connection != null <==> m.reusable))
    {
      hide ParseMessage;
      if connection == null {
        connection := new Stream();
      }
      var stream := connection;
      stream.incoming, stream.closed := stream.incoming + reply.data, reply.closes;
      assert stream.incoming == reply.data;
      var result := ReadResponse(stream);
      match result {
        case Err(e) =>
          connection := null;
          r := Err(e);
        case Ok((response, reusable)) =>
          if !reusable {
            connection := null;
          }
          r := Ok(response);
      }
    }

    /**
     * A run of requests against an agent that answers each with exactly one response and
     * closes only after a last one: every response is the one its own bytes spell out.
     */
    method ExchangeAll(replies: seq<Reply>) returns (responses: seq<Result<Response, HttpError>>)
      requires connection == null
      requires forall i :: 0 <= i < |replies| ==> OneMessage(replies[i])
      modifies this
      ensures responses == seq(|replies|, i requires 0 <= i < |replies| => Spelled(replies[i]))
      ensures AtMessageBoundary()
    {
      hide ParseMessage;
      responses := [];
      for i := 0 to |replies|
        invariant responses == seq(i, j requires 0 <= j < i => Spelled(replies[j]))
        invariant AtMessageBoundary() && (connection != null ==> !connection.closed && fresh(connection))
      {
        var r := Exchange(replies[i]);
        responses := responses + [r];
      }
    }
  }

  /** A reply of exactly one message, after which the agent closes only if it said so. */
  ghost predicate OneMessage(reply: Reply) {
    && ParseMessage(reply.data, reply.closes).Ok?
    && ParseMessage(reply.data, reply.closes).value.rest == []
    && (reply.closes ==> !ParseMessage(reply.data, reply.closes).value.reusable)
  }

  ghost function Spelled(reply: Reply): Result<Response, HttpError> {
    match ParseMessage(reply.data, reply.closes)
    case Ok(m) => Ok(m.response)
    case Err(e) => Err(e)
  }
}
