/**
 * A sender's view of a response: status line, header fields and a framed body. Parsing the
 * bytes it writes gives back exactly what it meant to send.
 */
module HttpRoundTrip {
  import opened Wrappers
  import opened Bytes
  import opened Text
  import opened HttpSyntax
  import opened ChunkedCoding
  import Utf8

  datatype Field = Field(name: string, value: string)

  ghost predicate LegalField(f: Field) {
    && f.name != "" && NoWhitespace(f.name) && ':' !in f.name && '\r' !in f.name
    && Trim(f.value) == f.value && '\r' !in f.value
  }

  function FieldLine(f: Field): string {
    f.name + ": " + f.value
  }

  /** Later fields of the same name replace earlier ones, and names are compared in lower case. */
  function FieldMap(fields: seq<Field>): Headers {
    if fields == [] then map[]
    else
      var last := fields[|fields| - 1];
      FieldMap(fields[..|fields| - 1])[ToLowerAscii(last.name) := last.value]
  }

  function StatusText(version: string, status: nat, reason: string): string {
    version + " " + Decimal(status) + " " + reason
  }

  function FieldLines(fields: seq<Field>): (lines: seq<string>)
    ensures |lines| == |fields|
    ensures forall i :: 0 <= i < |fields| ==> lines[i] == FieldLine(fields[i])
  {
    if fields == [] then [] else [FieldLine(fields[0])] + FieldLines(fields[1..])
  }

  /** Lines separated by CRLF. */
  function JoinLines(lines: seq<string>): string
    requires lines != []
  {
    if |lines| == 1 then lines[0] else lines[0] + "\r\n" + JoinLines(lines[1..])
  }

  // ----- text level -----

  lemma {:induction false} SplitLinesOf(line: string, rest: string)
    requires '\r' !in line
    ensures SplitLines(line + "\r\n" + rest) == [line] + SplitLines(rest)
    ensures SplitLines(line) == [line]
  {
    var s := line + "\r\n" + rest;
    if line == "" {
      assert s[0] == '\r' && s[1] == '\n' && s[2..] == rest;
    } else {
      assert s[0] == line[0] && s[1..] == line[1..] + "\r\n" + rest;
      SplitLinesOf(line[1..], rest);
      assert line == [line[0]] + line[1..];
    }
  }

  ghost predicate PlainLines(lines: seq<string>) {
    forall i :: 0 <= i < |lines| ==> lines[i] != "" && '\r' !in lines[i]
  }

  lemma {:induction false} SplitJoinLines(lines: seq<string>)
    requires lines != [] && PlainLines(lines)
    ensures SplitLines(JoinLines(lines)) == lines
  {
    if |lines| == 1 {
      SplitLinesOf(lines[0], "");
    } else {
      SplitLinesOf(lines[0], JoinLines(lines[1..]));
      SplitJoinLines(lines[1..]);
    }
  }

  lemma {:induction false} IndexOfFirst(s: string, c: char, t: string)
    requires c !in s
    ensures IndexOf(s + [c] + t, c) == Some(|s|)
  {
    if s != "" {
      assert (s + [c] + t)[1..] == s[1..] + [c] + t;
      IndexOfFirst(s[1..], c, t);
    }
  }

  lemma TrimLeadingSpace(value: string)
    requires Trim(value) == value
    ensures Trim(" " + value) == value
  {
    assert (" " + value)[1..] == value;
  }

  lemma FieldAdds(headers: Headers, f: Field)
    requires LegalField(f)
    ensures AddHeader(headers, FieldLine(f)) == headers[ToLowerAscii(f.name) := f.value]
  {
    var line := FieldLine(f);
    assert line == f.name + [':'] + (" " + f.value);
    IndexOfFirst(f.name, ':', " " + f.value);
    assert line[..|f.name|] == f.name && line[|f.name| + 1..] == " " + f.value;
    TrimNothing(f.name);
    TrimLeadingSpace(f.value);
  }

  lemma {:induction false} FieldsCollect(fields: seq<Field>)
    requires forall i :: 0 <= i < |fields| ==> LegalField(fields[i])
    ensures HeadersOf(FieldLines(fields)) == FieldMap(fields)
  {
    if fields != [] {
      var front, last := fields[..|fields| - 1], fields[|fields| - 1];
      var lines := FieldLines(fields);
      assert lines[..|lines| - 1] == FieldLines(front);
      FieldsCollect(front);
      FieldAdds(FieldMap(front), last);
    }
  }

  lemma SplitFirst(token: string, rest: string)
    requires token != "" && NoWhitespace(token)
    ensures SplitWhitespace(token + " " + rest) == [token] + SplitWhitespace(rest)
  {
    var line := token + (" " + rest);
    assert token + " " + rest == line;
    TokenLengthStops(token, " " + rest);
    assert line[..|token|] == token && line[|token|..] == " " + rest && (" " + rest)[1..] == rest;
    assert line[0] == token[0];
  }

  lemma StatusParses(version: string, status: nat, reason: string)
    requires version != "" && NoWhitespace(version) && status <= 0xFFFF
    ensures StatusLine(StatusText(version, status, reason)) == Ok((version, status))
  {
    var number := Decimal(status);
    DecimalValue(status);
    DecimalParses(status, 0xFFFF);
    assert StatusText(version, status, reason) == version + " " + (number + " " + reason);
    hide SplitWhitespace, Decimal, StatusText, ParseUnsigned;
    SplitFirst(version, number + " " + reason);
    SplitFirst(number, reason);
  }

  function HeadLines(version: string, status: nat, reason: string, fields: seq<Field>): (lines: seq<string>)
    ensures lines != []
  {
    [StatusText(version, status, reason)] + FieldLines(fields)
  }

  function HeadText(version: string, status: nat, reason: string, fields: seq<Field>): string {
    JoinLines(HeadLines(version, status, reason, fields))
  }

  ghost predicate LegalHead(version: string, status: nat, reason: string, fields: seq<Field>) {
    && version != "" && NoWhitespace(version) && '\r' !in version
    && status <= 0xFFFF && '\r' !in reason
    && forall i :: 0 <= i < |fields| ==> LegalField(fields[i])
  }

  lemma HeadLinesPlain(version: string, status: nat, reason: string, fields: seq<Field>)
    requires LegalHead(version, status, reason, fields)
    ensures PlainLines(HeadLines(version, status, reason, fields))
  {
    DecimalValue(status);
    hide Decimal, NoWhitespace;
  }

  lemma HeadParses(version: string, status: nat, reason: string, fields: seq<Field>)
    requires LegalHead(version, status, reason, fields)
    ensures ParseHead(Utf8.Encode(HeadText(version, status, reason, fields))) ==
      Ok(Head(version, status, FieldMap(fields)))
  {
    hide StatusText, FieldLines, StatusLine, HeadersOf, JoinLines, SplitLines, Utf8.Encode, Utf8.Decode, PlainLines,
      LegalField;
    var lines := HeadLines(version, status, reason, fields);
    HeadLinesPlain(version, status, reason, fields);
    Utf8.DecodeEncode(JoinLines(lines));
    SplitJoinLines(lines);
    StatusParses(version, status, reason);
    FieldsCollect(fields);
    assert lines[1..] == FieldLines(fields);
  }

  // ----- byte level: where the head ends -----

  lemma {:induction false} EncodeHasNoCr(s: string)
    requires '\r' !in s
    ensures CR !in Utf8.Encode(s)
    ensures s != "" ==> Utf8.Encode(s) != []
  {
    if s != "" {
      EncodeHasNoCr(s[1..]);
    }
  }

  /** A line without CR ends the head only if an empty line follows. */
  lemma {:induction false} HeaderEndAfter(line: bytes, rest: bytes)
    requires CR !in line
    ensures rest != [] && rest[0] != CR && HeaderEnd(rest).Some? ==>
      HeaderEnd(line + CRLF + rest) == Some(|line| + 2 + HeaderEnd(rest).value)
    ensures HeaderEnd(line + CRLF + CRLF + rest) == Some(|line|)
  {
    var b, b' := line + CRLF + rest, line + CRLF + CRLF + rest;
    if line == [] {
      assert b'[0] == CR && b'[1] == LF && b'[2] == CR && b'[3] == LF;
      if rest != [] && rest[0] != CR && HeaderEnd(rest).Some? {
        assert b[0] == CR && b[1] == LF && b[2] == rest[0];
        assert b[1..] == [LF] + rest && b[1..][1..] == rest;
        assert b[1..][0] == LF;
      }
    } else {
      assert b[0] == line[0] && b'[0] == line[0];
      assert b[1..] == line[1..] + CRLF + rest;
      assert b'[1..] == line[1..] + CRLF + CRLF + rest;
      HeaderEndAfter(line[1..], rest);
    }
  }

  lemma {:induction false} HeadEnds(lines: seq<string>, body: bytes)
    requires lines != [] && PlainLines(lines)
    ensures HeaderEnd(Utf8.Encode(JoinLines(lines)) + CRLF + CRLF + body) == Some(|Utf8.Encode(JoinLines(lines))|)
    ensures Utf8.Encode(JoinLines(lines)) != [] && Utf8.Encode(JoinLines(lines))[0] != CR
  {
    hide HeaderEnd, Utf8.Encode;
    var first := Utf8.Encode(lines[0]);
    EncodeHasNoCr(lines[0]);
    assert first[0] in first;
    if |lines| == 1 {
      HeaderEndAfter(first, body);
    } else {
      var below := Utf8.Encode(JoinLines(lines[1..]));
      JoinedBytes(lines);
      assert Utf8.Encode(JoinLines(lines)) + CRLF + CRLF + body == first + CRLF + (below + CRLF + CRLF + body);
      HeadEnds(lines[1..], body);
      HeaderEndAfter(first, below + CRLF + CRLF + body);
    }
  }

  lemma {:induction false} JoinedBytes(lines: seq<string>)
    requires |lines| > 1
    ensures Utf8.Encode(JoinLines(lines)) == Utf8.Encode(lines[0]) + CRLF + Utf8.Encode(JoinLines(lines[1..]))
  {
    Utf8.EncodeConcat(lines[0] + "\r\n", JoinLines(lines[1..]));
    Utf8.EncodeConcat(lines[0], "\r\n");
    assert Utf8.Encode("\r\n") == CRLF by {
      assert "\r\n"[1..] == "\n";
      assert Utf8.Encode("\n") == [LF] + Utf8.Encode("");
    }
  }

  // ----- whole messages -----

  function Rendered(version: string, status: nat, reason: string, fields: seq<Field>, body: bytes): bytes {
    Utf8.Encode(HeadText(version, status, reason, fields)) + CRLF + CRLF + body
  }

  lemma RenderedParses(
    version: string, status: nat, reason: string, fields: seq<Field>, body: bytes, closed: bool)
    requires LegalHead(version, status, reason, fields)
    ensures
      var head := Head(version, status, FieldMap(fields));
      ParseMessage(Rendered(version, status, reason, fields, body), closed) ==
        WithBody(head, BodyOf(FramingOf(head), body, closed))
  {
    hide ParseHead, HeaderEnd, HeadLines, JoinLines, FieldMap, BodyOf, FramingOf, WithBody, Utf8.Encode, LegalHead,
      PlainLines;
    HeadLinesPlain(version, status, reason, fields);
    HeadEnds(HeadLines(version, status, reason, fields), body);
    HeadParses(version, status, reason, fields);
    var bytes := Utf8.Encode(HeadText(version, status, reason, fields));
    var raw := bytes + CRLF + CRLF + body;
    assert raw[..|bytes|] == bytes && raw[|bytes| + 4..] == body;
  }

  // ----- what the fields say of the body -----

  predicate SameLetter(a: char, b: char) {
    || a == b
    || ('a' <= a <= 'z' && b as int == a as int - 32)
    || ('A' <= a <= 'Z' && b as int == a as int + 32)
  }

  predicate SameIgnoringCase(a: string, b: string) {
    |a| == |b| && forall i :: 0 <= i < |a| ==> SameLetter(a[i], b[i])
  }

  predicate LowerCase(s: string) {
    forall i :: 0 <= i < |s| ==> !('A' <= s[i] <= 'Z')
  }

  lemma {:induction false} LowerIff(s: string, lower: string)
    requires LowerCase(lower)
    ensures ToLowerAscii(s) == lower <==> SameIgnoringCase(s, lower)
  {
    if s != "" && lower != "" {
      LowerIff(s[1..], lower[1..]);
      assert s == [s[0]] + s[1..] && lower == [lower[0]] + lower[1..];
      LowerFirst(s, lower);
      SameTails(s, lower);
    }
  }

  lemma LowerFirst(s: string, lower: string)
    requires s != "" && lower != "" && LowerCase(lower)
    ensures ToLowerAscii(s) == lower <==> SameLetter(s[0], lower[0]) && ToLowerAscii(s[1..]) == lower[1..]
  {
    var first := if 'A' <= s[0] <= 'Z' then (s[0] as int + 32) as char else s[0];
    assert ToLowerAscii(s) == [first] + ToLowerAscii(s[1..]);
    assert lower == [lower[0]] + lower[1..];
    assert first == lower[0] <==> SameLetter(s[0], lower[0]);
  }

  lemma SameTails(a: string, b: string)
    requires a != "" && b != ""
    ensures SameIgnoringCase(a, b) <==> SameLetter(a[0], b[0]) && SameIgnoringCase(a[1..], b[1..])
  {
    if SameLetter(a[0], b[0]) && SameIgnoringCase(a[1..], b[1..]) && |a| == |b| {
      forall i | 0 <= i < |a|
        ensures SameLetter(a[i], b[i])
      {
        if i > 0 {
          assert SameLetter(a[1..][i - 1], b[1..][i - 1]);
        }
      }
    }
    if SameIgnoringCase(a, b) {
      forall i | 0 <= i < |a| - 1
        ensures SameLetter(a[1..][i], b[1..][i])
      {
        assert SameLetter(a[i + 1], b[i + 1]);
      }
    }
  }

  /** The field at `k` is the last of that name. */
  ghost predicate LastOfName(fields: seq<Field>, name: string, k: int) {
    && 0 <= k < |fields| && SameIgnoringCase(fields[k].name, name)
    && forall j :: k < j < |fields| ==> !SameIgnoringCase(fields[j].name, name)
  }

  ghost predicate NoneOfName(fields: seq<Field>, name: string) {
    forall j :: 0 <= j < |fields| ==> !SameIgnoringCase(fields[j].name, name)
  }

  lemma {:induction false} FieldMapHolds(fields: seq<Field>, name: string, k: nat)
    requires LowerCase(name)
    ensures LastOfName(fields, name, k) ==> name in FieldMap(fields) && FieldMap(fields)[name] == fields[k].value
    ensures NoneOfName(fields, name) ==> name !in FieldMap(fields)
  {
    hide ToLowerAscii, SameIgnoringCase;
    if fields != [] {
      var front, last := fields[..|fields| - 1], fields[|fields| - 1];
      LowerIff(last.name, name);
      if k < |front| {
        assert LastOfName(fields, name, k) ==> LastOfName(front, name, k);
      }
      FieldMapHolds(front, name, k);
    }
  }

  predicate HasBody(status: nat) {
    !(100 <= status <= 199) && status != 204 && status != 304
  }

  /** The fields announce the chunked coding, and nothing else is done to the body. */
  ghost predicate SaysChunked(status: nat, fields: seq<Field>) {
    && HasBody(status)
    && exists k :: SaysChunkedAt(fields, k)
  }

  ghost predicate SaysChunkedAt(fields: seq<Field>, k: int) {
    && 0 <= k < |fields|
    && LastOfName(fields, "transfer-encoding", k) && SameIgnoringCase(fields[k].value, "chunked")
  }

  ghost predicate SaysLengthAt(fields: seq<Field>, k: int, n: nat) {
    0 <= k < |fields| && LastOfName(fields, "content-length", k) && fields[k].value == Decimal(n)
  }

  /** The fields announce a body of `n` bytes. */
  ghost predicate SaysLength(status: nat, fields: seq<Field>, n: nat) {
    && HasBody(status) && n <= 0xFFFF_FFFF_FFFF_FFFF
    && NoneOfName(fields, "transfer-encoding")
    && exists k :: SaysLengthAt(fields, k, n)
  }

  /** The fields leave the end of the body to the end of the connection. */
  ghost predicate SaysNothing(status: nat, fields: seq<Field>) {
    HasBody(status) && NoneOfName(fields, "transfer-encoding") && NoneOfName(fields, "content-length")
  }

  lemma {:induction false} NoCommaIn(s: string)
    requires ',' !in s
    ensures SplitCommas(s) == [s]
  {
    NoIndexIn(s, ',');
  }

  lemma {:induction false} NoIndexIn(s: string, c: char)
    requires c !in s
    ensures IndexOf(s, c) == None
  {
    if s != "" {
      NoIndexIn(s[1..], c);
    }
  }

  lemma ChunkedValue(value: string)
    requires SameIgnoringCase(value, "chunked")
    ensures SplitCommas(value) == [value] && ToLowerAscii(Trim(value)) == "chunked"
  {
    assert LowerCase("chunked");
    LowerIff(value, "chunked");
    PlainLetters(value);
    NoCommaIn(value);
    TrimNothing(value);
  }

  lemma PlainLetters(value: string)
    requires SameIgnoringCase(value, "chunked")
    ensures ',' !in value && NoWhitespace(value)
  {
    forall i | 0 <= i < |value|
      ensures value[i] != ',' && !IsWhitespace(value[i])
    {
      assert SameLetter(value[i], "chunked"[i]);
      assert 'a' <= "chunked"[i] <= 'z';
    }
  }

  lemma SaysFraming(version: string, status: nat, fields: seq<Field>, n: nat)
    ensures
      var framing := FramingOf(Head(version, status, FieldMap(fields)));
      && (SaysChunked(status, fields) ==> framing == Chunked)
      && (SaysLength(status, fields, n) ==> framing == Length(n))
      && (SaysNothing(status, fields) ==> framing == UntilClose)
      && (!HasBody(status) ==> framing == NoBody)
  {
    hide FieldMap, NoneOfName, LastOfName, SplitCommas, ToLowerAscii, Trim, Decimal, ParseUnsigned, SameIgnoringCase;
    assert LowerCase("transfer-encoding") && LowerCase("content-length");
    FieldMapHolds(fields, "transfer-encoding", 0);
    FieldMapHolds(fields, "content-length", 0);
    if SaysChunked(status, fields) {
      var k: int :| SaysChunkedAt(fields, k);
      FieldMapHolds(fields, "transfer-encoding", k);
      ChunkedValue(fields[k].value);
    }
    if SaysLength(status, fields, n) {
      var k: int :| SaysLengthAt(fields, k, n);
      FieldMapHolds(fields, "content-length", k);
      DecimalParses(n, USIZE_MAX);
    }
  }

  // ----- messages read back -----

  /**
   * A response written with the chunked coding reads back as the status, fields and data that
   * were sent, and reading stops exactly where the next message begins.
   */
  lemma ChunkedMessageReadsBack(
    version: string, status: nat, reason: string, fields: seq<Field>,
    chunks: seq<Chunk>, last: SizeLine, trailers: seq<bytes>, next: bytes, closed: bool)
    requires LegalHead(version, status, reason, fields) && LegalBody(chunks, last, trailers)
    requires ReadableBody(chunks, last) && SaysChunked(status, fields)
    ensures
      var head := Head(version, status, FieldMap(fields));
      ParseMessage(Rendered(version, status, reason, fields, EncodeBody(chunks, last, trailers) + next), closed) ==
        Ok(Message(Response(status, FieldMap(fields), Payload(chunks)), Reusable(head), next))
  {
    hide ParseMessage, Rendered, FieldMap, EncodeBody, Payload, Reusable, FramingOf, SaysChunked;
    SaysFraming(version, status, fields, 0);
    RenderedParses(version, status, reason, fields, EncodeBody(chunks, last, trailers) + next, closed);
    DecodeUndoesEncode(chunks, last, trailers, next);
  }

  /** The same for a body delimited by its length. */
  lemma CountedMessageReadsBack(
    version: string, status: nat, reason: string, fields: seq<Field>, data: bytes, next: bytes, closed: bool)
    requires LegalHead(version, status, reason, fields) && SaysLength(status, fields, |data|)
    ensures
      var head := Head(version, status, FieldMap(fields));
      ParseMessage(Rendered(version, status, reason, fields, data + next), closed) ==
        Ok(Message(Response(status, FieldMap(fields), data), Reusable(head), next))
  {
    hide ParseMessage, Rendered, FieldMap, Reusable, FramingOf, SaysLength;
    SaysFraming(version, status, fields, |data|);
    RenderedParses(version, status, reason, fields, data + next, closed);
    assert (data + next)[..|data|] == data && (data + next)[|data|..] == next;
  }

  /** A body that is cut short is an error. */
  lemma CutBodyFails(
    version: string, status: nat, reason: string, fields: seq<Field>, n: nat, data: bytes, closed: bool)
    requires LegalHead(version, status, reason, fields) && SaysLength(status, fields, n) && |data| < n
    ensures ParseMessage(Rendered(version, status, reason, fields, data), closed) == Err(Short)
  {
    hide ParseMessage, Rendered, FieldMap, Reusable, FramingOf, SaysLength;
    SaysFraming(version, status, fields, n);
    RenderedParses(version, status, reason, fields, data, closed);
  }

  /** A body without any length is all that comes until the connection closes, which is then spent. */
  lemma ClosedMessageReadsBack(
    version: string, status: nat, reason: string, fields: seq<Field>, data: bytes)
    requires LegalHead(version, status, reason, fields) && SaysNothing(status, fields)
    ensures ParseMessage(Rendered(version, status, reason, fields, data), true) ==
      Ok(Message(Response(status, FieldMap(fields), data), false, []))
    ensures ParseMessage(Rendered(version, status, reason, fields, data), false) == Err(Short)
  {
    hide ParseMessage, Rendered, FieldMap, FramingOf, SaysNothing;
    SaysFraming(version, status, fields, 0);
    RenderedParses(version, status, reason, fields, data, true);
    RenderedParses(version, status, reason, fields, data, false);
  }

  /** A response of a status without a body ends with its head, whatever its fields say. */
  lemma BodilessMessageReadsBack(
    version: string, status: nat, reason: string, fields: seq<Field>, next: bytes, closed: bool)
    requires LegalHead(version, status, reason, fields) && !HasBody(status)
    ensures
      var head := Head(version, status, FieldMap(fields));
      ParseMessage(Rendered(version, status, reason, fields, next), closed) ==
        Ok(Message(Response(status, FieldMap(fields), []), Reusable(head), next))
  {
    hide ParseMessage, Rendered, FieldMap, Reusable, FramingOf;
    SaysFraming(version, status, fields, 0);
    RenderedParses(version, status, reason, fields, next, closed);
  }
}
