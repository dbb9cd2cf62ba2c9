/**
 * What a sequence of response bytes means: a pure reading of HTTP/1.1 messages, independent
 * of how the bytes arrive, with the client's rules for body lengths (section 6.3 of RFC 9112),
 * the chunked coding (section 7.1) and connection reuse (section 9.3).
 */
module HttpSyntax {
  import opened Wrappers
  import opened Bytes
  import opened Text
  import Utf8

  const CR: byte := 13
  const LF: byte := 10

  /** `Short`: the bytes ran out, by end of file or by a peer that sends nothing more. */
  datatype HttpError = Short | Malformed

  const USIZE_MAX: nat := U64_MAX

  // ----- chunked bodies -----

  /** The bytes before the next CRLF and those after it. */
  function TakeLine(b: bytes): (r: Result<(bytes, bytes), HttpError>)
    ensures r.Ok? ==> |r.value.0| + 2 + |r.value.1| == |b|
  {
    if b == [] then Err(Short)
    else if b[0] == CR then
      if |b| == 1 then Err(Short)
      else if b[1] == LF then Ok(([], b[2..]))
      else Err(Malformed)
    else Prepend([b[0]], TakeLine(b[1..]))
  }

  function Prepend(front: bytes, r: Result<(bytes, bytes), HttpError>): Result<(bytes, bytes), HttpError> {
    match r
    case Ok((data, rest)) => Ok((front + data, rest))
    case Err(e) => Err(e)
  }

  /** The text before the first semicolon. */
  function BeforeSemicolon(s: string): string {
    if s == "" || s[0] == ';' then "" else [s[0]] + BeforeSemicolon(s[1..])
  }

  function ChunkSize(line: bytes): Result<nat, HttpError> {
    match Utf8.Decode(line)
    case None => Err(Malformed)
    case Some(text) =>
      var size := ParseUnsigned(Trim(BeforeSemicolon(text)), 16, USIZE_MAX);
      if size.None? then Err(Malformed) else Ok(size.value)
  }

  /** What follows the first empty line. */
  function SkipTrailers(b: bytes): (r: Result<bytes, HttpError>)
    decreases |b|
  {
    match TakeLine(b)
    case Err(e) => Err(e)
    case Ok((line, rest)) => if line == [] then Ok(rest) else SkipTrailers(rest)
  }

  /** A chunked body's data and the bytes after it. */
  function DecodeChunks(b: bytes): (r: Result<(bytes, bytes), HttpError>)
    decreases |b|
  {
    match TakeLine(b)
    case Err(e) => Err(e)
    case Ok((line, rest)) =>
      match ChunkSize(line)
      case Err(e) => Err(e)
      case Ok(size) =>
        if size == 0 then
          match SkipTrailers(rest)
          case Err(e) => Err(e)
          case Ok(after) => Ok(([], after))
        else if |rest| < size then Err(Short)
        else
          match TakeTerminator(rest[size..])
          case Err(e) => Err(e)
          case Ok(after) => Prepend(rest[..size], DecodeChunks(after))
  }

  function TakeTerminator(b: bytes): (r: Result<bytes, HttpError>)
    ensures r.Ok? ==> |r.value| < |b|
  {
    if b == [] then Err(Short)
    else if b[0] != CR then Err(Malformed)
    else if |b| == 1 then Err(Short)
    else if b[1] != LF then Err(Malformed)
    else Ok(b[2..])
  }

  // ----- message heads -----

  function ToLowerAscii(s: string): string {
    if s == "" then ""
    else [if 'A' <= s[0] <= 'Z' then (s[0] as int + 32) as char else s[0]] + ToLowerAscii(s[1..])
  }

  /** The position of the first occurrence of CR LF CR LF. */
  function HeaderEnd(raw: bytes): (r: Option<nat>)
    ensures r.Some? ==> r.value + 4 <= |raw|
  {
    if |raw| < 4 then None
    else if raw[0] == CR && raw[1] == LF && raw[2] == CR && raw[3] == LF then Some(0)
    else
      match HeaderEnd(raw[1..])
      case None => None
      case Some(k) => Some(k + 1)
  }

  /** The text split at every CR LF. */
  function SplitLines(s: string): (lines: seq<string>)
    ensures lines != []
  {
    if s == "" then [""]
    else if |s| >= 2 && s[0] == '\r' && s[1] == '\n' then [""] + SplitLines(s[2..])
    else
      var rest := SplitLines(s[1..]);
      [[s[0]] + rest[0]] + rest[1..]
  }

  function IndexOf(s: string, c: char): (r: Option<nat>)
    ensures r.Some? ==> r.value < |s| && s[r.value] == c
  {
    if s == "" then None
    else if s[0] == c then Some(0)
    else
      match IndexOf(s[1..], c)
      case None => None
      case Some(k) => Some(k + 1)
  }

  type Headers = map<string, string>

  /** Lines without a colon are ignored; of equally named lines the last one counts. */
  function HeadersOf(lines: seq<string>): Headers {
    if lines == [] then map[]
    else AddHeader(HeadersOf(lines[..|lines| - 1]), lines[|lines| - 1])
  }

  function AddHeader(headers: Headers, line: string): Headers {
    match IndexOf(line, ':')
    case None => headers
    case Some(colon) => headers[ToLowerAscii(Trim(line[..colon])) := Trim(line[colon + 1..])]
  }

  datatype Head = Head(version: string, status: nat, headers: Headers)

  function StatusLine(line: string): Result<(string, nat), HttpError> {
    var parts := SplitWhitespace(line);
    if |parts| < 2 then Err(Malformed)
    else
      var status := ParseUnsigned(parts[1], 10, 0xFFFF);
      if status.None? then Err(Malformed) else Ok((parts[0], status.value))
  }

  function ParseHead(head: bytes): Result<Head, HttpError> {
    match Utf8.Decode(head)
    case None => Err(Malformed)
    case Some(text) =>
      var lines := SplitLines(text);
      match StatusLine(lines[0])
      case Err(e) => Err(e)
      case Ok((version, status)) => Ok(Head(version, status, HeadersOf(lines[1..])))
  }

  // ----- framing and reuse -----

  function SplitCommas(s: string): (parts: seq<string>)
    ensures parts != []
  {
    match IndexOf(s, ',')
    case None => [s]
    case Some(k) => [s[..k]] + SplitCommas(s[k + 1..])
  }

  predicate HasToken(headers: Headers, name: string, token: string) {
    name in headers &&
    exists i :: 0 <= i < |SplitCommas(headers[name])| &&
      ToLowerAscii(Trim(SplitCommas(headers[name])[i])) == token
  }

  datatype Framing = NoBody | Chunked | Length(length: nat) | UntilClose | Unsupported

  predicate HasNoBody(status: nat) {
    100 <= status < 200 || status == 204 || status == 304
  }

  function FramingOf(head: Head): Framing {
    if HasNoBody(head.status) then NoBody
    else if "transfer-encoding" in head.headers then
      var encodings := SplitCommas(head.headers["transfer-encoding"]);
      if |encodings| == 1 && ToLowerAscii(Trim(encodings[0])) == "chunked" then Chunked else Unsupported
    else if "content-length" in head.headers then
      var length := ParseUnsigned(head.headers["content-length"], 10, USIZE_MAX);
      if length.None? then Unsupported else Length(length.value)
    else UntilClose
  }

  predicate Reusable(head: Head) {
    && FramingOf(head) != UntilClose
    && if head.version == "HTTP/1.1" then !HasToken(head.headers, "connection", "close")
       else head.version == "HTTP/1.0" && HasToken(head.headers, "connection", "keep-alive")
  }

  datatype Response = Response(status: nat, headers: Headers, body: bytes)

  /** A message, whether the connection may carry another, and the bytes that follow it. */
  datatype Message = Message(response: Response, reusable: bool, rest: bytes)

  function BodyOf(framing: Framing, b: bytes, closed: bool): Result<(bytes, bytes), HttpError> {
    match framing
    case NoBody => Ok(([], b))
    case Chunked => DecodeChunks(b)
    case Length(n) => if n <= |b| then Ok((b[..n], b[n..])) else Err(Short)
    case UntilClose => if closed then Ok((b, [])) else Err(Short)
    case Unsupported => Err(Malformed)
  }

  function WithBody(head: Head, body: Result<(bytes, bytes), HttpError>): Result<Message, HttpError> {
    match body
    case Err(e) => Err(e)
    case Ok((data, rest)) => Ok(Message(Response(head.status, head.headers, data), Reusable(head), rest))
  }

  /** The first message of `raw`; `closed` says that the peer sends nothing after `raw`. */
  function ParseMessage(raw: bytes, closed: bool): Result<Message, HttpError> {
    match HeaderEnd(raw)
    case None => Err(Short)
    case Some(end) =>
      match ParseHead(raw[..end])
      case Err(e) => Err(e)
      case Ok(head) => WithBody(head, BodyOf(FramingOf(head), raw[end + 4..], closed))
  }

  // ----- which error -----

  /** A size line that cannot be read is malformed, whatever is wrong with it. */
  lemma ChunkSizeErrors(line: bytes)
    ensures match ChunkSize(line)
      case Ok(size) => size <= 18446744073709551615
      case Err(e) => e == Malformed
  {
  }

  /** A status line needs a version and a number of at most 16 bits. */
  lemma StatusLineMeans(line: string)
    ensures
      var parts := SplitWhitespace(line);
      StatusLine(line) ==
        if |parts| >= 2 && ParseUnsigned(parts[1], 10, 65535).Some?
        then Ok((parts[0], ParseUnsigned(parts[1], 10, 65535).value))
        else Err(Malformed)
  {
    hide SplitWhitespace, ParseUnsigned;
  }

  /** Heads that are not UTF-8 are malformed; heads that have not ended are short. */
  lemma HeadErrors(raw: bytes, closed: bool)
    ensures HeaderEnd(raw).None? ==> ParseMessage(raw, closed) == Err(Short)
    ensures HeaderEnd(raw).Some? && Utf8.Decode(raw[..HeaderEnd(raw).value]).None? ==>
      ParseMessage(raw, closed) == Err(Malformed)
  {
    hide HeaderEnd, Utf8.Decode;
  }
}
