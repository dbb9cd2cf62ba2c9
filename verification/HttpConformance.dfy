/**
 * The client's reading of header lines held against RFC 9112: section 6.3 for the length of a
 * response body, section 9.3 for whether the connection persists. The standard looks at all
 * lines of a name together; the client keeps the last one only.
 */
module HttpConformance {
  import opened Wrappers
  import opened Text
  import opened HttpSyntax

  // ----- what the standard looks at -----

  predicate IsLineOf(line: string, name: string) {
    IndexOf(line, ':').Some? && ToLowerAscii(Trim(line[..IndexOf(line, ':').value])) == name
  }

  function ValueOf(line: string): string
    requires IndexOf(line, ':').Some?
  {
    Trim(line[IndexOf(line, ':').value + 1..])
  }

  /** The values of all lines of that name, in order. */
  function Values(lines: seq<string>, name: string): seq<string> {
    if lines == [] then []
    else
      var last := lines[|lines| - 1];
      Values(lines[..|lines| - 1], name) + if IsLineOf(last, name) then [ValueOf(last)] else []
  }

  /** The trimmed elements of a list, empty ones ignored. */
  function Elements(parts: seq<string>): seq<string> {
    if parts == [] then []
    else
      var last := Trim(parts[|parts| - 1]);
      Elements(parts[..|parts| - 1]) + if last == "" then [] else [last]
  }

  /** The elements of all values of a name together. */
  function ListOf(values: seq<string>): seq<string> {
    if values == [] then []
    else ListOf(values[..|values| - 1]) + Elements(SplitCommas(values[|values| - 1]))
  }

  predicate Holds(list: seq<string>, token: string) {
    exists i :: 0 <= i < |list| && ToLowerAscii(list[i]) == token
  }

  /** One of the values lists the token, in upper or lower case. */
  predicate Lists(values: seq<string>, token: string) {
    Holds(ListOf(values), token)
  }

  // ----- section 6.3 -----

  datatype BodyLength = NoBodyAtAll | ByChunks | ByCount(n: nat) | ByClose | Faulty

  ghost predicate Announces(values: seq<string>, n: nat) {
    ListOf(values) != [] && forall i :: 0 <= i < |ListOf(values)| ==> DigitsValue(ListOf(values)[i], 10) == Some(n)
  }

  /** Section 6.3 for the responses to requests other than HEAD and CONNECT. */
  ghost function StandardLength(status: nat, lines: seq<string>): BodyLength {
    var codings := Values(lines, "transfer-encoding");
    var lengths := Values(lines, "content-length");
    if status / 100 == 1 || status == 204 || status == 304 then NoBodyAtAll
    else if codings != [] then
      var list := ListOf(codings);
      if list != [] && ToLowerAscii(list[|list| - 1]) == "chunked" then ByChunks else ByClose
    else if lengths != [] then
      if exists n: nat :: Announces(lengths, n) then (var n: nat :| Announces(lengths, n); ByCount(n)) else Faulty
    else ByClose
  }

  /** The client frames the message as the standard does, or refuses it. */
  ghost predicate Agrees(framing: Framing, length: BodyLength) {
    match framing
    case NoBody => length == NoBodyAtAll
    case Chunked => length == ByChunks
    case Length(n) => length == ByCount(n)
    case UntilClose => length == ByClose
    case Unsupported => true
  }

  /** The last length reads as a number that the lengths taken together do not announce. */
  ghost predicate MisreadLength(status: nat, lines: seq<string>) {
    var lengths := Values(lines, "content-length");
    && status / 100 != 1 && status != 204 && status != 304
    && Values(lines, "transfer-encoding") == []
    && lengths != []
    && ParseUnsigned(lengths[|lengths| - 1], 10, USIZE_MAX).Some?
    && exists i :: 0 <= i < |ListOf(lengths)| &&
         DigitsValue(ListOf(lengths)[i], 10) != ParseUnsigned(lengths[|lengths| - 1], 10, USIZE_MAX)
  }

  lemma {:induction false} HeadersHoldLast(lines: seq<string>, name: string)
    ensures name in HeadersOf(lines) <==> Values(lines, name) != []
    ensures name in HeadersOf(lines) ==> HeadersOf(lines)[name] == Values(lines, name)[|Values(lines, name)| - 1]
  {
    hide ToLowerAscii, Trim, IndexOf;
    if lines != [] {
      HeadersHoldLast(lines[..|lines| - 1], name);
    }
  }

  lemma {:induction false} SplitNothing(s: string)
    requires IndexOf(s, ',').None?
    ensures SplitCommas(s) == [s]
  {
  }

  lemma {:induction false} DigitsHaveNoCommas(s: string)
    requires DigitsValue(s, 10).Some?
    ensures s != "" && NoWhitespace(s) && IndexOf(s, ',').None?
  {
    var front, last := s[..|s| - 1], s[|s| - 1];
    assert s == front + [last];
    if |s| > 1 {
      DigitsHaveNoCommas(front);
    }
    NoCommaSnoc(front, last);
  }

  lemma {:induction false} NoCommaSnoc(front: string, last: char)
    requires front == "" || IndexOf(front, ',').None?
    requires last != ','
    ensures IndexOf(front + [last], ',').None?
  {
    if front != "" {
      assert (front + [last])[1..] == front[1..] + [last];
      NoCommaSnoc(front[1..], last);
    }
  }

  /** A value that reads as a number is a list of one element, itself. */
  lemma NumberIsOneElement(value: string)
    requires ParseUnsigned(value, 10, USIZE_MAX).Some?
    ensures Elements(SplitCommas(value)) == [value]
  {
    var digits := if |value| > 1 && value[0] == '+' then value[1..] else value;
    DigitsHaveNoCommas(digits);
    hide DigitsValue;
    assert IndexOf(value, ',').None? && NoWhitespace(value);
    TrimNothing(value);
    assert [value][..0] == [];
  }

  lemma ListOfLast(values: seq<string>, value: string)
    requires values != [] && values[|values| - 1] == value && Elements(SplitCommas(value)) == [value]
    ensures ListOf(values) != [] && ListOf(values)[|ListOf(values)| - 1] == value
  {
  }

  /** A single coding is the last of all codings. */
  lemma OneCodingIsLast(values: seq<string>, value: string)
    requires values != [] && values[|values| - 1] == value
    requires |SplitCommas(value)| == 1 && ToLowerAscii(Trim(SplitCommas(value)[0])) == "chunked"
    ensures ListOf(values) != [] && ToLowerAscii(ListOf(values)[|ListOf(values)| - 1]) == "chunked"
  {
    hide SplitCommas, Trim;
    var parts := SplitCommas(value);
    assert parts[..0] == [];
    assert Elements(parts) == [Trim(parts[0])];
  }

  /**
   * The client follows section 6.3 or refuses the message, for all header lines except these:
   * without a transfer coding, the last content length reads as a number, but another length
   * says otherwise or the number is written with a plus sign. Those messages are faulty, and
   * the client takes the last length for good.
   */
  lemma FramingFollowsStandardIff(version: string, status: nat, lines: seq<string>)
    ensures Agrees(FramingOf(Head(version, status, HeadersOf(lines))), StandardLength(status, lines))
      <==> !MisreadLength(status, lines)
  {
    hide HeadersOf, Values, ListOf, SplitCommas, Elements, ToLowerAscii, Trim, DigitsValue, HasNoBody;
    HeadersHoldLast(lines, "transfer-encoding");
    HeadersHoldLast(lines, "content-length");
    var codings := Values(lines, "transfer-encoding");
    var lengths := Values(lines, "content-length");
    BodilessStatus(status);
    if !HasNoBody(status) && codings != [] {
      var value := codings[|codings| - 1];
      if |SplitCommas(value)| == 1 && ToLowerAscii(Trim(SplitCommas(value)[0])) == "chunked" {
        OneCodingIsLast(codings, value);
      }
    } else if !HasNoBody(status) && lengths != [] {
      var value := lengths[|lengths| - 1];
      var n := ParseUnsigned(value, 10, USIZE_MAX);
      if n.Some? {
        NumberIsOneElement(value);
        ListOfLast(lengths, value);
        if !MisreadLength(status, lines) {
          AnnouncedByLast(lengths, value);
        }
        AnnouncedOnce(lengths);
      }
    }
  }

  lemma BodilessStatus(status: nat)
    ensures HasNoBody(status) <==> status / 100 == 1 || status == 204 || status == 304
  {
  }

  lemma AnnouncedByLast(lengths: seq<string>, value: string)
    requires ParseUnsigned(value, 10, USIZE_MAX).Some? && ListOf(lengths) != []
    requires forall i :: 0 <= i < |ListOf(lengths)| ==>
      DigitsValue(ListOf(lengths)[i], 10) == ParseUnsigned(value, 10, USIZE_MAX)
    ensures Announces(lengths, ParseUnsigned(value, 10, USIZE_MAX).value)
  {
    hide ListOf;
  }

  lemma AnnouncedOnce(lengths: seq<string>)
    ensures forall m: nat, n: nat :: Announces(lengths, m) && Announces(lengths, n) ==> m == n
  {
    forall m: nat, n: nat | Announces(lengths, m) && Announces(lengths, n)
      ensures m == n
    {
      assert DigitsValue(ListOf(lengths)[0], 10) == Some(m);
    }
  }

  // ----- the misread lengths -----

  lemma NumberIsPlain(value: string)
    requires ParseUnsigned(value, 10, USIZE_MAX).Some?
    ensures ListOf([value]) == [value]
  {
    NumberIsOneElement(value);
    hide Elements, SplitCommas, ParseUnsigned;
    assert [value][..0] == [];
  }

  lemma TwoNumbersListed(first: string, second: string)
    requires ParseUnsigned(first, 10, USIZE_MAX).Some? && ParseUnsigned(second, 10, USIZE_MAX).Some?
    ensures ListOf([first, second]) == [first, second]
  {
    NumberIsPlain(first);
    NumberIsOneElement(second);
    hide Elements, SplitCommas, ParseUnsigned;
    assert [first, second][..1] == [first];
  }

  lemma ValuesSnoc(lines: seq<string>, last: string, name: string)
    requires IndexOf(last, ':').Some?
    ensures Values(lines + [last], name) == Values(lines, name) + if IsLineOf(last, name) then [ValueOf(last)] else []
    ensures Values([], name) == []
  {
    hide IsLineOf, ValueOf;
    assert (lines + [last])[..|lines|] == lines;
  }

  lemma TwoLines(one: string, two: string)
    requires IsLineOf(one, "content-length") && IsLineOf(two, "content-length")
    ensures Values([one, two], "transfer-encoding") == []
    ensures Values([one, two], "content-length") == [ValueOf(one), ValueOf(two)]
  {
    NamesDiffer(one);
    NamesDiffer(two);
    hide IsLineOf, ValueOf, Values;
    ValuesSnoc([one], two, "transfer-encoding");
    ValuesSnoc([], one, "transfer-encoding");
    ValuesSnoc([one], two, "content-length");
    ValuesSnoc([], one, "content-length");
    assert [one] + [two] == [one, two] && [] + [one] == [one];
  }

  lemma NamesDiffer(line: string)
    requires IsLineOf(line, "content-length")
    ensures IndexOf(line, ':').Some? && !IsLineOf(line, "transfer-encoding")
  {
    assert |"content-length"| != |"transfer-encoding"|;
  }

  lemma LastLengthCounts(version: string, status: nat, lines: seq<string>, n: nat)
    requires !HasNoBody(status) && n <= USIZE_MAX && Values(lines, "transfer-encoding") == []
    requires
      var lengths := Values(lines, "content-length");
      lengths != [] && lengths[|lengths| - 1] == Decimal(n)
    ensures FramingOf(Head(version, status, HeadersOf(lines))) == Length(n)
  {
    DecimalParses(n, USIZE_MAX);
    HeadersHoldLast(lines, "transfer-encoding");
    HeadersHoldLast(lines, "content-length");
    hide HeadersOf, Values, Decimal, ParseUnsigned;
  }

  /**
   * Of two lines that give a length, the client goes by the second; it misreads the message
   * exactly if the first differs.
   */
  lemma TwoLengthsMisread(one: string, two: string, first: nat, second: nat)
    requires IsLineOf(one, "content-length") && IsLineOf(two, "content-length")
    requires ValueOf(one) == Decimal(first) && ValueOf(two) == Decimal(second)
    requires first <= USIZE_MAX && second <= USIZE_MAX
    ensures MisreadLength(200, [one, two]) <==> first != second
    ensures FramingOf(Head("HTTP/1.1", 200, HeadersOf([one, two]))) == Length(second)
  {
    DecimalValue(first);
    DecimalValue(second);
    DecimalParses(first, USIZE_MAX);
    DecimalParses(second, USIZE_MAX);
    TwoLines(one, two);
    TwoNumbersListed(Decimal(first), Decimal(second));
    LastLengthCounts("HTTP/1.1", 200, [one, two], second);
    hide *;
    TwoListedMisread([one, two], Decimal(first), first, Decimal(second), second);
  }

  lemma TwoListedMisread(lines: seq<string>, a: string, first: nat, b: string, second: nat)
    requires Values(lines, "transfer-encoding") == [] && Values(lines, "content-length") == [a, b]
    requires ListOf([a, b]) == [a, b]
    requires DigitsValue(a, 10) == Some(first) && DigitsValue(b, 10) == Some(second)
    requires ParseUnsigned(b, 10, USIZE_MAX) == Some(second)
    ensures MisreadLength(200, lines) <==> first != second
  {
    assert !HasNoBody(200);
    hide Values, ListOf, DigitsValue, ParseUnsigned, HasNoBody;
    var list := ListOf([a, b]);
    assert list[0] == a && list[1] == b;
  }

  // ----- section 9.3 -----

  /**
   * Section 9.3 for versions 1.0 and 1.1, and section 6.1 for a transfer coding in a 1.0
   * message. The client takes no other version for persistent.
   */
  predicate Persists(version: string, lines: seq<string>) {
    var options := Values(lines, "connection");
    && !Lists(options, "close")
    && (|| version == "HTTP/1.1"
        || (version == "HTTP/1.0" && Lists(options, "keep-alive") && Values(lines, "transfer-encoding") == []))
  }

  /** The last line of that name lists the token. */
  predicate LastLists(values: seq<string>, token: string) {
    values != [] && Holds(Elements(SplitCommas(values[|values| - 1])), token)
  }

  function Trimmed(parts: seq<string>): (r: seq<string>)
    ensures |r| == |parts| && forall i :: 0 <= i < |parts| ==> r[i] == Trim(parts[i])
  {
    seq(|parts|, i requires 0 <= i < |parts| => Trim(parts[i]))
  }

  lemma HoldsEither(a: seq<string>, b: seq<string>, token: string)
    ensures Holds(a + b, token) <==> Holds(a, token) || Holds(b, token)
  {
    hide ToLowerAscii;
    if Holds(a, token) {
      var i :| 0 <= i < |a| && ToLowerAscii(a[i]) == token;
      assert (a + b)[i] == a[i];
    }
    if Holds(b, token) {
      var i :| 0 <= i < |b| && ToLowerAscii(b[i]) == token;
      assert (a + b)[|a| + i] == b[i];
    }
  }

  /** Ignoring empty elements loses no token. */
  lemma {:induction false} ElementsHold(parts: seq<string>, token: string)
    requires token != ""
    ensures Holds(Elements(parts), token) <==> Holds(Trimmed(parts), token)
  {
    hide Trim, Holds;
    if parts != [] {
      var front, last := parts[..|parts| - 1], Trim(parts[|parts| - 1]);
      ElementsHold(front, token);
      HoldsEither(Elements(front), if last == "" then [] else [last], token);
      HoldsEither(Trimmed(front), [last], token);
      assert Trimmed(parts) == Trimmed(front) + [last];
      NothingHeld(token);
    } else {
      assert Trimmed(parts) == [];
    }
  }

  lemma NothingHeld(token: string)
    requires token != ""
    ensures !Holds([], token) && !Holds([""], token)
  {
  }

  lemma {:induction false} HasTokenIff(lines: seq<string>, name: string, token: string)
    requires token != ""
    ensures HasToken(HeadersOf(lines), name, token) <==> LastLists(Values(lines, name), token)
    ensures LastLists(Values(lines, name), token) ==> Lists(Values(lines, name), token)
  {
    hide HeadersOf, Values, SplitCommas, Elements, Trim, ToLowerAscii;
    HeadersHoldLast(lines, name);
    var values := Values(lines, name);
    if values != [] {
      var parts := SplitCommas(values[|values| - 1]);
      ElementsHold(parts, token);
      TrimmedHold(parts, token);
      HoldsEither(ListOf(values[..|values| - 1]), Elements(parts), token);
    }
  }

  lemma TrimmedHold(parts: seq<string>, token: string)
    ensures Holds(Trimmed(parts), token)
      <==> exists i :: 0 <= i < |parts| && ToLowerAscii(Trim(parts[i])) == token
  {
    hide Trim, ToLowerAscii;
    if i :| 0 <= i < |parts| && ToLowerAscii(Trim(parts[i])) == token {
      assert ToLowerAscii(Trimmed(parts)[i]) == token;
    }
    if Holds(Trimmed(parts), token) {
      var i :| 0 <= i < |parts| && ToLowerAscii(Trimmed(parts)[i]) == token;
      assert ToLowerAscii(Trim(parts[i])) == token;
    }
  }

  /**
   * Where the client and section 9.3 part. The client keeps a connection that the standard
   * wants closed exactly if a message with a length of its own
   * - in version 1.1 has a "close" on some line other than the last, or
   * - in version 1.0 has "keep-alive" on the last line, but also a "close" or a transfer coding.
   * Of those that the standard would keep it keeps all but bodies that run to the end of the
   * connection and, in version 1.0, messages whose last line lacks "keep-alive".
   */
  lemma ReuseFollowsStandardIff(version: string, status: nat, lines: seq<string>)
    ensures
      var head := Head(version, status, HeadersOf(lines));
      var options := Values(lines, "connection");
      && (Reusable(head) && !Persists(version, lines) <==>
            && FramingOf(head) != UntilClose
            && (|| (version == "HTTP/1.1" && Lists(options, "close") && !LastLists(options, "close"))
                || (version == "HTTP/1.0" && LastLists(options, "keep-alive") &&
                      (Lists(options, "close") || Values(lines, "transfer-encoding") != []))))
      && (Persists(version, lines) ==>
            (Reusable(head) <==>
              FramingOf(head) != UntilClose && (version == "HTTP/1.1" || LastLists(options, "keep-alive"))))
  {
    hide HeadersOf, Values, HasToken, Lists, LastLists, FramingOf;
    HasTokenIff(lines, "connection", "close");
    HasTokenIff(lines, "connection", "keep-alive");
  }

  /** With at most one Connection line, what remains is "keep-alive" together with "close" or a transfer coding in version 1.0. */
  lemma {:induction false} ReuseWithOneLine(version: string, status: nat, lines: seq<string>)
    requires |Values(lines, "connection")| <= 1
    requires version == "HTTP/1.1" || !LastLists(Values(lines, "connection"), "close")
    requires version == "HTTP/1.1" || Values(lines, "transfer-encoding") == []
    ensures
      var head := Head(version, status, HeadersOf(lines));
      Reusable(head) <==> FramingOf(head) != UntilClose && Persists(version, lines)
  {
    ReuseFollowsStandardIff(version, status, lines);
    hide HeadersOf, Values, HasToken, FramingOf, SplitCommas, Elements, Holds;
    var options := Values(lines, "connection");
    if |options| == 1 {
      assert options[..0] == [];
      assert ListOf(options) == Elements(SplitCommas(options[0]));
    } else {
      assert options == [];
      NothingHeld("close");
      NothingHeld("keep-alive");
    }
  }

  // ----- lines at which the client and section 9.3 part -----

  lemma {:induction false} FirstAt(front: string, c: char, back: string)
    requires c !in front
    ensures IndexOf(front + [c] + back, c) == Some(|front|)
  {
    var s := front + [c] + back;
    if front != "" {
      assert s[1..] == front[1..] + [c] + back;
      FirstAt(front[1..], c, back);
    }
  }

  lemma {:induction false} LowerStays(s: string)
    requires forall i :: 0 <= i < |s| ==> !('A' <= s[i] <= 'Z')
    ensures ToLowerAscii(s) == s
  {
    if s != "" {
      LowerStays(s[1..]);
      assert s == [s[0]] + s[1..];
    }
  }

  predicate PlainWord(s: string) {
    s != "" && NoWhitespace(s) && forall i :: 0 <= i < |s| ==> !('A' <= s[i] <= 'Z') && s[i] != ',' && s[i] != ':'
  }

  lemma PlainStays(s: string)
    requires PlainWord(s)
    ensures Trim(s) == s && ToLowerAscii(s) == s && ',' !in s && ':' !in s
  {
    TrimNothing(s);
    LowerStays(s);
    hide Trim, ToLowerAscii, NoWhitespace;
  }

  lemma LineOf(name: string, value: string)
    requires PlainWord(name) && Trim(value) == value
    ensures IsLineOf(name + [':'] + value, name) && ValueOf(name + [':'] + value) == value
  {
    var line := name + [':'] + value;
    PlainStays(name);
    FirstAt(name, ':', value);
    hide Trim, ToLowerAscii, PlainWord, IndexOf;
    assert line[..|name|] == name && line[|name| + 1..] == value;
  }

  /** A word is the list of itself. */
  lemma WordListed(word: string)
    requires PlainWord(word)
    ensures Elements(SplitCommas(word)) == [word]
  {
    PlainStays(word);
    OneWord(word);
    assert word != "";
    hide Trim, PlainWord, SplitCommas;
    assert [word][..0] == [];
    assert Elements([]) + [word] == [word];
    assert Elements([word]) == [word];
  }

  /** Two words around a comma are the list of both. */
  lemma WordsListed(first: string, second: string)
    requires PlainWord(first) && PlainWord(second)
    ensures Elements(SplitCommas(first + [','] + second)) == [first, second]
  {
    WordsSplit(first, second);
    PlainStays(first);
    PlainStays(second);
    assert first != "" && second != "";
    hide Trim, PlainWord, SplitCommas, ToLowerAscii;
    assert [first, second][..1] == [first] && [first][..0] == [];
    assert Elements([]) + [first] == [first];
    assert Elements([first]) == [first];
    assert Elements([first, second]) == [first] + [second];
  }

  lemma WordsSplit(first: string, second: string)
    requires PlainWord(first) && PlainWord(second)
    ensures SplitCommas(first + [','] + second) == [first, second]
  {
    var both := first + [','] + second;
    FirstAt(first, ',', second);
    OneWord(second);
    assert both[..|first|] == first && both[|first| + 1..] == second;
    hide IndexOf, PlainWord;
  }

  lemma WordsTrimmed(first: string, second: string)
    requires PlainWord(first) && PlainWord(second)
    ensures var both := first + [','] + second; Trim(both) == both
  {
    assert NoWhitespace(first + [','] + second);
    TrimNothing(first + [','] + second);
  }

  lemma {:induction false} OneWord(word: string)
    requires PlainWord(word)
    ensures SplitCommas(word) == [word]
  {
    NoCommaIn(word);
    SplitNothing(word);
  }

  lemma {:induction false} NoCommaIn(s: string)
    requires ',' !in s
    ensures IndexOf(s, ',').None?
  {
    if s != "" {
      NoCommaIn(s[1..]);
    }
  }

  lemma HoldsWord(list: seq<string>, word: string, token: string)
    requires list == [word] && PlainWord(word)
    ensures Holds(list, token) <==> word == token
  {
    PlainStays(word);
    hide PlainWord, ToLowerAscii;
    assert list[0] == word;
  }

  /** A "close" hidden by a later line: the client keeps a connection of which the peer announced the end. */
  lemma LaterLineHidesClose(word: string)
    requires PlainWord(word) && word != "close"
    ensures
      var lines := ["connection" + [':'] + "close", "connection" + [':'] + word];
      Reusable(Head("HTTP/1.1", 204, HeadersOf(lines))) && !Persists("HTTP/1.1", lines)
  {
    assert PlainWord("connection") && PlainWord("close");
    PlainStays("close");
    PlainStays(word);
    LineOf("connection", "close");
    LineOf("connection", word);
    hide IsLineOf, ValueOf, Values, PlainWord;
    var one, two := "connection" + [':'] + "close", "connection" + [':'] + word;
    ConnectionValues(one, "close", two, word);
    ListedEarlier("close", word);
    HasTokenIff([one, two], "connection", "close");
    NoBodyIsReusable("HTTP/1.1", HeadersOf([one, two]));
    hide HeadersOf, HasToken, Lists, LastLists, Reusable;
  }

  lemma ConnectionValues(one: string, a: string, two: string, b: string)
    requires IsLineOf(one, "connection") && ValueOf(one) == a && IsLineOf(two, "connection") && ValueOf(two) == b
    ensures Values([one, two], "connection") == [a, b]
    ensures Values([one], "connection") == [a]
  {
    assert IndexOf(one, ':').Some? && IndexOf(two, ':').Some?;
    ValuesSnoc([], one, "connection");
    ValuesSnoc([one], two, "connection");
    hide IsLineOf, ValueOf, Values;
    assert [one] + [two] == [one, two] && [] + [one] == [one];
  }

  lemma ListedEarlier(token: string, word: string)
    requires PlainWord(token) && PlainWord(word) && word != token
    ensures Lists([token, word], token) && !LastLists([token, word], token)
  {
    WordListed(token);
    WordListed(word);
    ListOfOne(token);
    ListOfTwo(token, word);
    HoldsWord([token], token, token);
    HoldsWord([word], word, token);
    HoldsEither([token], [word], token);
    hide SplitCommas, Elements, PlainWord, Holds, ListOf;
  }

  lemma ListOfTwo(a: string, b: string)
    ensures ListOf([a, b]) == ListOf([a]) + Elements(SplitCommas(b))
  {
    hide Elements, SplitCommas;
    assert [a, b][..1] == [a];
  }

  /** Without a body the framing never stands in the way. */
  lemma NoBodyIsReusable(version: string, headers: Headers)
    ensures Reusable(Head(version, 204, headers)) <==>
      if version == "HTTP/1.1" then !HasToken(headers, "connection", "close")
      else version == "HTTP/1.0" && HasToken(headers, "connection", "keep-alive")
  {
  }

  /** In version 1.0 "keep-alive" on the same line wins over "close". */
  lemma KeepAliveBeatsClose()
    ensures
      var lines := ["connection" + [':'] + ("keep-alive" + [','] + "close")];
      Reusable(Head("HTTP/1.0", 204, HeadersOf(lines))) && !Persists("HTTP/1.0", lines)
  {
    assert PlainWord("connection") && PlainWord("keep-alive") && PlainWord("close");
    var value := "keep-alive" + [','] + "close";
    WordsListed("keep-alive", "close");
    WordsTrimmed("keep-alive", "close");
    LineOf("connection", value);
    var line := "connection" + [':'] + value;
    ConnectionValues(line, value, line, value);
    BothListed(value, "keep-alive", "close");
    HasTokenIff([line], "connection", "keep-alive");
    NoBodyIsReusable("HTTP/1.0", HeadersOf([line]));
    hide HeadersOf, HasToken, Lists, LastLists, Reusable, Values, IsLineOf, ValueOf, PlainWord;
  }

  lemma ListOfOne(value: string)
    ensures ListOf([value]) == Elements(SplitCommas(value))
  {
    hide Elements, SplitCommas;
    assert [value][..0] == [];
    assert ListOf([]) + Elements(SplitCommas(value)) == Elements(SplitCommas(value));
  }

  lemma {:induction false} BothListed(value: string, a: string, b: string)
    requires PlainWord(a) && PlainWord(b) && Elements(SplitCommas(value)) == [a, b]
    ensures LastLists([value], a) && Lists([value], b)
  {
    HoldsWord([a], a, a);
    HoldsWord([b], b, b);
    HoldsEither([a], [b], a);
    HoldsEither([a], [b], b);
    ListOfOne(value);
    hide SplitCommas, Elements, PlainWord, Holds, ListOf;
    assert [a] + [b] == [a, b];
  }
}
