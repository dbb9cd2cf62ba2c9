/**
 * The chunked transfer coding of section 7.1 of RFC 9112 as a sender may produce it, and the
 * proof that the client's decoder undoes it.
 */
module ChunkedCoding {
  import opened Wrappers
  import opened Bytes
  import opened Text
  import opened HttpSyntax
  import Utf8

  const CRLF: bytes := [CR, LF]

  /** A chunk-size line: hex digits in any case with any leading zeros, then an extension. */
  datatype SizeLine = SizeLine(digits: string, padding: string, extension: bytes)

  datatype Chunk = Chunk(head: SizeLine, data: bytes)

  function SizeLineBytes(line: SizeLine): bytes {
    Utf8.Encode(line.digits + line.padding) + line.extension
  }

  function EncodeChunk(chunk: Chunk): bytes {
    SizeLineBytes(chunk.head) + CRLF + chunk.data + CRLF
  }

  function EncodeTrailers(trailers: seq<bytes>): bytes {
    if trailers == [] then CRLF else trailers[0] + CRLF + EncodeTrailers(trailers[1..])
  }

  function EncodeBody(chunks: seq<Chunk>, last: SizeLine, trailers: seq<bytes>): bytes {
    if chunks == [] then SizeLineBytes(last) + CRLF + EncodeTrailers(trailers)
    else EncodeChunk(chunks[0]) + EncodeBody(chunks[1..], last, trailers)
  }

  function Payload(chunks: seq<Chunk>): bytes {
    if chunks == [] then [] else chunks[0].data + Payload(chunks[1..])
  }

  predicate Blanks(s: string) {
    forall i :: 0 <= i < |s| ==> s[i] == ' ' || s[i] == '\t'
  }

  /** The line announces `size`; what follows the digits is blank or a chunk extension. */
  ghost predicate Announces(line: SizeLine, size: nat) {
    && DigitsValue(line.digits, 16) == Some(size) && size <= USIZE_MAX
    && Blanks(line.padding)
    && (line.extension == [] || line.extension[0] == ';' as int)
    && CR !in line.extension
  }

  ghost predicate LegalBody(chunks: seq<Chunk>, last: SizeLine, trailers: seq<bytes>) {
    && (forall i :: 0 <= i < |chunks| ==> chunks[i].data != [] && Announces(chunks[i].head, |chunks[i].data|))
    && Announces(last, 0)
    && (forall i :: 0 <= i < |trailers| ==> trailers[i] != [] && CR !in trailers[i])
  }

  /** Extensions may hold arbitrary bytes; the client insists that they are UTF-8. */
  ghost predicate Readable(line: SizeLine) {
    Utf8.Decode(line.extension).Some?
  }

  ghost predicate ReadableBody(chunks: seq<Chunk>, last: SizeLine) {
    Readable(last) && forall i :: 0 <= i < |chunks| ==> Readable(chunks[i].head)
  }

  // ----- one line -----

  lemma {:induction false} TakeLineOf(line: bytes, rest: bytes)
    requires CR !in line
    ensures TakeLine(line + CRLF + rest) == Ok((line, rest))
  {
    var b := line + CRLF + rest;
    if line == [] {
      assert b[0] == CR && b[1] == LF && b[2..] == rest;
    } else {
      assert b[0] == line[0];
      assert b[1..] == line[1..] + CRLF + rest;
      TakeLineOf(line[1..], rest);
      assert line == [line[0]] + line[1..];
    }
  }

  ghost predicate PlainAscii(s: string) {
    forall i :: 0 <= i < |s| ==> s[i] < 128 as char && s[i] != '\r' && s[i] != ';'
  }

  lemma {:induction false} HexDigitsPlain(s: string)
    requires DigitsValue(s, 16).Some?
    ensures s != "" && PlainAscii(s) && NoWhitespace(s) && s[0] != '+'
  {
    if |s| > 1 {
      HexDigitsPlain(s[..|s| - 1]);
      assert forall i :: 0 <= i < |s| - 1 ==> s[i] == s[..|s| - 1][i];
    }
  }

  lemma {:induction false} EncodePlain(s: string)
    requires PlainAscii(s)
    ensures CR !in Utf8.Encode(s)
  {
    if s != "" {
      EncodePlain(s[1..]);
    }
  }

  lemma {:induction false} DecodeAfterEncode(s: string, rest: bytes)
    ensures Utf8.Decode(Utf8.Encode(s) + rest) ==
      match Utf8.Decode(rest) case None => None case Some(t) => Some(s + t)
  {
    hide Utf8.EncodeChar, Utf8.DecodeFirst;
    if s == "" {
      assert Utf8.Encode(s) + rest == rest;
      if Utf8.Decode(rest).Some? {
        assert "" + Utf8.Decode(rest).value == Utf8.Decode(rest).value;
      }
    } else {
      var e, tail := Utf8.EncodeChar(s[0]), Utf8.Encode(s[1..]) + rest;
      Assoc(e, Utf8.Encode(s[1..]), rest);
      Utf8.DecodeFirstOfEncoded(s[0], tail);
      assert (e + tail)[|e|..] == tail;
      DecodeAfterEncode(s[1..], rest);
      if Utf8.Decode(rest).Some? {
        assert s + Utf8.Decode(rest).value == [s[0]] + (s[1..] + Utf8.Decode(rest).value);
      }
    }
  }

  lemma {:induction false} BeforeSemicolonOf(s: string, t: string)
    requires PlainAscii(s) && (t == "" || t[0] == ';')
    ensures BeforeSemicolon(s + t) == s
  {
    if s == "" {
      assert s + t == t;
    } else {
      assert (s + t)[1..] == s[1..] + t;
      BeforeSemicolonOf(s[1..], t);
    }
  }

  lemma {:induction false} TrimPadding(s: string, padding: string)
    requires s != "" && NoWhitespace(s) && Blanks(padding)
    ensures TrimEnd(s + padding) == s
  {
    if padding == "" {
      assert s + padding == s;
    } else {
      assert (s + padding)[..|s + padding| - 1] == s + padding[..|padding| - 1];
      TrimPadding(s, padding[..|padding| - 1]);
    }
  }

  lemma FirstDecoded(extension: bytes)
    requires extension != [] && extension[0] == ';' as int
    requires Utf8.Decode(extension).Some?
    ensures Utf8.Decode(extension).value[0] == ';'
  {
  }

  lemma SizeTextParses(line: SizeLine, size: nat, t: string)
    requires Announces(line, size) && (t == "" || t[0] == ';')
    ensures ParseUnsigned(Trim(BeforeSemicolon(line.digits + line.padding + t)), 16, USIZE_MAX) == Some(size)
  {
    hide DigitsValue, BeforeSemicolon, TrimEnd, TrimStart, Trim, IsWhitespace;
    HexDigitsPlain(line.digits);
    var text := line.digits + line.padding;
    assert PlainAscii(text);
    BeforeSemicolonOf(text, t);
    TrimPadding(line.digits, line.padding);
    assert text[0] == line.digits[0];
    TrimStartKeeps(text);
  }

  lemma SizeLinePlain(line: SizeLine, size: nat)
    requires Announces(line, size)
    ensures CR !in SizeLineBytes(line)
  {
    hide DigitsValue, Utf8.Encode;
    HexDigitsPlain(line.digits);
    EncodePlain(line.digits + line.padding);
  }

  /** The decoder reads the announced size off the line exactly when the extension is UTF-8. */
  lemma ChunkSizeOf(line: SizeLine, size: nat)
    requires Announces(line, size)
    ensures ChunkSize(SizeLineBytes(line)) == if Readable(line) then Ok(size) else Err(Malformed)
  {
    assert Utf8.Decode([]) == Some("");
    hide Utf8.Decode, Utf8.Encode, DigitsValue, ParseUnsigned, BeforeSemicolon, Trim;
    DecodeAfterEncode(line.digits + line.padding, line.extension);
    if Readable(line) {
      var t := Utf8.Decode(line.extension).value;
      if line.extension != [] {
        FirstDecoded(line.extension);
      }
      SizeTextParses(line, size, t);
    }
  }

  lemma TrimStartKeeps(s: string)
    requires s != "" && !IsWhitespace(s[0])
    ensures Trim(s) == TrimEnd(s)
  {
  }

  // ----- whole bodies -----

  lemma {:induction false} SkipTrailersOf(trailers: seq<bytes>, rest: bytes)
    requires forall i :: 0 <= i < |trailers| ==> trailers[i] != [] && CR !in trailers[i]
    ensures SkipTrailers(EncodeTrailers(trailers) + rest) == Ok(rest)
  {
    hide TakeLine, CRLF;
    if trailers == [] {
      assert CRLF + rest == [] + CRLF + rest;
      TakeLineOf([], rest);
    } else {
      var tail := EncodeTrailers(trailers[1..]) + rest;
      assert EncodeTrailers(trailers) + rest == trailers[0] + CRLF + tail;
      TakeLineOf(trailers[0], tail);
      SkipTrailersOf(trailers[1..], rest);
    }
  }

  lemma ChunkLayout(chunk: Chunk, rest: bytes)
    ensures EncodeChunk(chunk) + rest == SizeLineBytes(chunk.head) + CRLF + (chunk.data + (CRLF + rest))
    ensures (chunk.data + (CRLF + rest))[..|chunk.data|] == chunk.data
    ensures (chunk.data + (CRLF + rest))[|chunk.data|..] == CRLF + rest
    ensures TakeTerminator(CRLF + rest) == Ok(rest)
  {
    hide SizeLineBytes;
    var b := CRLF + rest;
    assert b[0] == CR && b[1] == LF && b[2..] == rest;
  }

  lemma DecodeOneChunk(chunk: Chunk, rest: bytes)
    requires chunk.data != [] && Announces(chunk.head, |chunk.data|)
    ensures DecodeChunks(EncodeChunk(chunk) + rest) ==
      if Readable(chunk.head) then Prepend(chunk.data, DecodeChunks(rest)) else Err(Malformed)
  {
    hide TakeLine, ChunkSize, SkipTrailers, TakeTerminator, SizeLineBytes, EncodeChunk, Announces, Readable, CRLF;
    ChunkLayout(chunk, rest);
    ChunkSizeOf(chunk.head, |chunk.data|);
    SizeLinePlain(chunk.head, |chunk.data|);
    TakeLineOf(SizeLineBytes(chunk.head), chunk.data + (CRLF + rest));
  }

  lemma DecodeLastChunk(last: SizeLine, trailers: seq<bytes>, rest: bytes)
    requires LegalBody([], last, trailers)
    ensures DecodeChunks(SizeLineBytes(last) + CRLF + EncodeTrailers(trailers) + rest) ==
      if Readable(last) then Ok(([], rest)) else Err(Malformed)
  {
    hide TakeLine, ChunkSize, SkipTrailers, SizeLineBytes, EncodeTrailers, Announces, Readable, CRLF;
    var tail := EncodeTrailers(trailers) + rest;
    ChunkSizeOf(last, 0);
    SizeLinePlain(last, 0);
    Assoc(SizeLineBytes(last) + CRLF, EncodeTrailers(trailers), rest);
    TakeLineOf(SizeLineBytes(last), tail);
    SkipTrailersOf(trailers, rest);
  }

  /**
   * Decoding undoes encoding for every legal body, whatever follows it, and consumes exactly
   * the encoding. The only bodies it rejects are those with an extension that is not UTF-8.
   */
  lemma {:induction false} DecodeUndoesEncode(chunks: seq<Chunk>, last: SizeLine, trailers: seq<bytes>, rest: bytes)
    requires LegalBody(chunks, last, trailers)
    ensures DecodeChunks(EncodeBody(chunks, last, trailers) + rest) ==
      if ReadableBody(chunks, last) then Ok((Payload(chunks), rest)) else Err(Malformed)
    decreases |chunks|
  {
    hide SizeLineBytes, EncodeChunk, EncodeTrailers, DecodeChunks, Announces, Readable, CRLF;
    if chunks == [] {
      DecodeLastChunk(last, trailers, rest);
    } else {
      Assoc(EncodeChunk(chunks[0]), EncodeBody(chunks[1..], last, trailers), rest);
      DecodeOneChunk(chunks[0], EncodeBody(chunks[1..], last, trailers) + rest);
      assert forall i :: 0 <= i < |chunks[1..]| ==> chunks[1..][i] == chunks[i + 1];
      DecodeUndoesEncode(chunks[1..], last, trailers, rest);
      assert ReadableBody(chunks, last) <==> Readable(chunks[0].head) && ReadableBody(chunks[1..], last) by {
        assert forall i :: 1 <= i < |chunks| ==> chunks[i] == chunks[1..][i - 1];
      }
    }
  }

  // ----- bodies that are not complete yet -----

  lemma {:induction false} TakeLineStable(b: bytes, more: bytes)
    ensures match TakeLine(b)
      case Ok((line, rest)) => TakeLine(b + more) == Ok((line, rest + more))
      case Err(e) => e == Malformed ==> TakeLine(b + more) == Err(Malformed)
  {
    if b != [] && b[0] != CR {
      assert (b + more)[1..] == b[1..] + more;
      TakeLineStable(b[1..], more);
    } else if |b| > 1 {
      assert (b + more)[2..] == b[2..] + more;
    }
  }

  lemma {:induction false} SkipTrailersStable(b: bytes, more: bytes)
    ensures match SkipTrailers(b)
      case Ok(rest) => SkipTrailers(b + more) == Ok(rest + more)
      case Err(e) => e == Malformed ==> SkipTrailers(b + more) == Err(Malformed)
    decreases |b|
  {
    hide TakeLine;
    TakeLineStable(b, more);
    if TakeLine(b).Ok? {
      SkipTrailersStable(TakeLine(b).value.1, more);
    }
  }

  lemma TakeTerminatorStable(b: bytes, more: bytes)
    ensures match TakeTerminator(b)
      case Ok(rest) => TakeTerminator(b + more) == Ok(rest + more)
      case Err(e) => e == Malformed ==> TakeTerminator(b + more) == Err(Malformed)
  {
    if |b| > 1 {
      assert (b + more)[2..] == b[2..] + more;
    }
  }

  /** What has been decided about a body stays decided, whatever arrives later. */
  lemma {:induction false} DecodeStable(b: bytes, more: bytes)
    ensures match DecodeChunks(b)
      case Ok((data, rest)) => DecodeChunks(b + more) == Ok((data, rest + more))
      case Err(e) => e == Malformed ==> DecodeChunks(b + more) == Err(Malformed)
    decreases |b|
  {
    hide TakeLine, ChunkSize, SkipTrailers, TakeTerminator;
    TakeLineStable(b, more);
    if TakeLine(b).Ok? {
      var (line, rest) := TakeLine(b).value;
      if ChunkSize(line).Ok? {
        var size := ChunkSize(line).value;
        if size == 0 {
          SkipTrailersStable(rest, more);
        } else if size <= |rest| {
          assert (rest + more)[..size] == rest[..size] && (rest + more)[size..] == rest[size..] + more;
          TakeTerminatorStable(rest[size..], more);
          if TakeTerminator(rest[size..]).Ok? {
            DecodeStable(TakeTerminator(rest[size..]).value, more);
          }
        }
      }
    }
  }

  /** No proper beginning of a body passes for the body: the decoder always asks for more. */
  lemma PartIsShort(chunks: seq<Chunk>, last: SizeLine, trailers: seq<bytes>, part: bytes, missing: bytes)
    requires LegalBody(chunks, last, trailers) && ReadableBody(chunks, last)
    requires part + missing == EncodeBody(chunks, last, trailers) && missing != []
    ensures DecodeChunks(part) == Err(Short)
  {
    hide DecodeChunks, EncodeBody, LegalBody, ReadableBody, Payload;
    DecodeUndoesEncode(chunks, last, trailers, []);
    assert EncodeBody(chunks, last, trailers) + [] == EncodeBody(chunks, last, trailers);
    DecodeStable(part, missing);
    assert forall rest: bytes :: |rest + missing| > 0;
  }
}
