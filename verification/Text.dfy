/** The string operations of the Rust standard library that the agent relies on. */
module Text {
  import opened Wrappers

  /** The Unicode White_Space property. */
  predicate IsWhitespace(c: char) {
    var k := c as int;
    || 0x09 <= k <= 0x0D || k == 0x20 || k == 0x85 || k == 0xA0 || k == 0x1680
    || 0x2000 <= k <= 0x200A || k == 0x2028 || k == 0x2029 || k == 0x202F || k == 0x205F || k == 0x3000
  }

  predicate NoWhitespace(s: string) {
    forall i :: 0 <= i < |s| ==> !IsWhitespace(s[i])
  }

  // ----- splitting and trimming -----

  /** The length of the longest prefix without white space. */
  function TokenLength(s: string): (n: nat)
    ensures n <= |s| && NoWhitespace(s[..n])
    ensures n < |s| ==> IsWhitespace(s[n])
  {
    if s == [] || IsWhitespace(s[0]) then 0 else 1 + TokenLength(s[1..])
  }

  function SplitWhitespace(s: string): seq<string>
    decreases |s|
  {
    if s == [] then []
    else if IsWhitespace(s[0]) then SplitWhitespace(s[1..])
    else
      var n := TokenLength(s);
      [s[..n]] + SplitWhitespace(s[n..])
  }

  /** Tokens separated by single spaces. */
  function Join(tokens: seq<string>): string {
    if tokens == [] then ""
    else if |tokens| == 1 then tokens[0]
    else tokens[0] + " " + Join(tokens[1..])
  }

  ghost predicate Tokens(tokens: seq<string>) {
    forall i :: 0 <= i < |tokens| ==> tokens[i] != "" && NoWhitespace(tokens[i])
  }

  lemma {:induction false} TokenLengthStops(token: string, rest: string)
    requires NoWhitespace(token)
    requires rest != "" ==> IsWhitespace(rest[0])
    ensures TokenLength(token + rest) == |token|
  {
    if token != "" {
      assert (token + rest)[1..] == token[1..] + rest;
      TokenLengthStops(token[1..], rest);
    }
  }

  lemma {:induction false} SplitFirstToken(token: string, rest: string)
    requires token != "" && NoWhitespace(token)
    requires rest != "" ==> IsWhitespace(rest[0])
    ensures SplitWhitespace(token + rest) == [token] + SplitWhitespace(rest)
  {
    hide NoWhitespace, IsWhitespace;
    var s := token + rest;
    TokenLengthStops(token, rest);
    FirstIsNotWhitespace(token);
    assert s[0] == token[0];
    assert s[..|token|] == token && s[|token|..] == rest;
  }

  lemma FirstIsNotWhitespace(token: string)
    requires token != "" && NoWhitespace(token)
    ensures !IsWhitespace(token[0])
  {
  }

  lemma {:induction false} SplitJoin(tokens: seq<string>)
    requires Tokens(tokens)
    ensures SplitWhitespace(Join(tokens)) == tokens
  {
    hide NoWhitespace, IsWhitespace;
    if |tokens| == 1 {
      SplitFirstToken(tokens[0], "");
      assert tokens[0] + "" == tokens[0] && tokens == [tokens[0]];
    } else if |tokens| > 1 {
      var rest := " " + Join(tokens[1..]);
      assert Join(tokens) == tokens[0] + rest;
      SpaceIsWhitespace();
      SplitFirstToken(tokens[0], rest);
      assert rest[1..] == Join(tokens[1..]);
      SplitJoin(tokens[1..]);
      assert tokens == [tokens[0]] + tokens[1..];
    }
  }

  lemma SpaceIsWhitespace()
    ensures IsWhitespace(' ')
  {
  }

  function TrimStart(s: string): string {
    if s != "" && IsWhitespace(s[0]) then TrimStart(s[1..]) else s
  }

  function TrimEnd(s: string): string {
    if s != "" && IsWhitespace(s[|s| - 1]) then TrimEnd(s[..|s| - 1]) else s
  }

  function Trim(s: string): string {
    TrimEnd(TrimStart(s))
  }

  lemma TrimNothing(s: string)
    requires NoWhitespace(s)
    ensures Trim(s) == s
  {
  }

  // ----- numbers -----

  function DigitValue(c: char, radix: nat): Option<nat>
    requires 2 <= radix <= 36
  {
    var v :=
      if '0' <= c <= '9' then c as int - '0' as int
      else if 'a' <= c <= 'z' then c as int - 'a' as int + 10
      else if 'A' <= c <= 'Z' then c as int - 'A' as int + 10
      else 36;
    if v < radix then Some(v) else None
  }

  /** The value of a string of digits; `None` if it is empty or holds anything else. */
  function DigitsValue(s: string, radix: nat): (value: Option<nat>)
    requires 2 <= radix <= 36
  {
    if s == "" then None
    else
      var last := DigitValue(s[|s| - 1], radix);
      if last.None? then None
      else if |s| == 1 then last
      else
        var front := DigitsValue(s[..|s| - 1], radix);
        if front.None? then None else Some(front.value * radix + last.value)
  }

  /** `from_str_radix` of an unsigned type with the given maximum: one leading plus is allowed. */
  function ParseUnsigned(s: string, radix: nat, max: nat): Option<nat>
    requires 2 <= radix <= 36
  {
    var digits := if |s| > 1 && s[0] == '+' then s[1..] else s;
    var value := DigitsValue(digits, radix);
    if value.Some? && value.value <= max then value else None
  }

  /** `i32::from_str`. */
  function ParseI32(s: string): Option<int> {
    if |s| > 1 && s[0] == '-' then
      var value := DigitsValue(s[1..], 10);
      if value.Some? && value.value <= 0x8000_0000 then (var magnitude: int := value.value; Some(0 - magnitude)) else None
    else
      var value := ParseUnsigned(s, 10, 0x7FFF_FFFF);
      if value.Some? then Some(value.value) else None
  }

  function Decimal(n: nat): (s: string)
    ensures s != ""
  {
    var digit := ['0' + (n % 10) as char];
    if n < 10 then digit else Decimal(n / 10) + digit
  }

  function SignedDecimal(n: int): string {
    if n < 0 then "-" + Decimal(-n) else Decimal(n)
  }

  predicate IsDecimalDigits(s: string) {
    forall i :: 0 <= i < |s| ==> '0' <= s[i] <= '9'
  }

  lemma {:induction false} DecimalValue(n: nat)
    ensures IsDecimalDigits(Decimal(n))
    ensures DigitsValue(Decimal(n), 10) == Some(n)
  {
    if n >= 10 {
      DecimalValue(n / 10);
      var s := Decimal(n);
      assert s[..|s| - 1] == Decimal(n / 10);
    }
  }

  lemma DecimalParses(n: nat, max: nat)
    requires n <= max
    ensures ParseUnsigned(Decimal(n), 10, max) == Some(n)
  {
    DecimalValue(n);
  }

  lemma SignedDecimalParses(n: int)
    requires -0x8000_0000 <= n < 0x8000_0000
    ensures ParseI32(SignedDecimal(n)) == Some(n)
    ensures SignedDecimal(n) != "" && NoWhitespace(SignedDecimal(n)) && ')' !in SignedDecimal(n)
  {
    DecimalValue(if n < 0 then -n else n);
    if n < 0 {
      assert SignedDecimal(n)[1..] == Decimal(-n);
    }
  }

  // ----- splitting at a separator -----

  /** `str::split`: the parts between separators, empty ones included. */
  function Split(s: string, sep: char): (parts: seq<string>)
    ensures parts != []
  {
    if s == "" then [""]
    else
      var rest := Split(s[1..], sep);
      if s[0] == sep then [""] + rest else [[s[0]] + rest[0]] + rest[1..]
  }

  function JoinWith(parts: seq<string>, sep: char): string {
    if parts == [] then ""
    else if |parts| == 1 then parts[0]
    else parts[0] + [sep] + JoinWith(parts[1..], sep)
  }

  ghost predicate FreeOf(parts: seq<string>, sep: char) {
    forall i :: 0 <= i < |parts| ==> sep !in parts[i]
  }

  /** The parts are the one way to write `s` as separated texts without the separator. */
  lemma SplitIffJoin(s: string, sep: char, parts: seq<string>)
    ensures Split(s, sep) == parts <==> parts != [] && FreeOf(parts, sep) && JoinWith(parts, sep) == s
  {
    JoinSplit(s, sep);
    if parts != [] && FreeOf(parts, sep) && JoinWith(parts, sep) == s {
      SplitJoined(parts, sep);
    }
  }

  lemma {:induction false} JoinSplit(s: string, sep: char)
    ensures FreeOf(Split(s, sep), sep) && JoinWith(Split(s, sep), sep) == s
  {
    if s != "" {
      JoinSplit(s[1..], sep);
      var rest := Split(s[1..], sep);
      assert s == [s[0]] + s[1..];
      if s[0] == sep {
        assert ([""] + rest)[1..] == rest;
      } else if |rest| > 1 {
        var joined := JoinWith(rest[1..], sep);
        Prepended([s[0]], rest[0], [sep], joined);
      }
    }
  }

  lemma Prepended(a: string, b: string, c: string, d: string)
    ensures (a + b) + c + d == a + (b + c + d)
  {
  }

  lemma {:induction false} SplitFirstPart(part: string, rest: string, sep: char)
    requires sep !in part
    requires rest != "" ==> rest[0] == sep
    ensures Split(part + rest, sep) == [part] + if rest == "" then [] else Split(rest[1..], sep)
  {
    if part != "" {
      assert (part + rest)[1..] == part[1..] + rest;
      SplitFirstPart(part[1..], rest, sep);
      assert part == [part[0]] + part[1..];
    } else {
      assert part + rest == rest;
    }
  }

  lemma {:induction false} SplitJoined(parts: seq<string>, sep: char)
    requires parts != [] && FreeOf(parts, sep)
    ensures Split(JoinWith(parts, sep), sep) == parts
  {
    if |parts| == 1 {
      SplitFirstPart(parts[0], "", sep);
      assert parts[0] + "" == parts[0] && parts == [parts[0]];
    } else {
      var rest := [sep] + JoinWith(parts[1..], sep);
      assert JoinWith(parts, sep) == parts[0] + rest;
      SplitFirstPart(parts[0], rest, sep);
      assert rest[1..] == JoinWith(parts[1..], sep);
      SplitJoined(parts[1..], sep);
      assert parts == [parts[0]] + parts[1..];
    }
  }

  // ----- searching -----

  predicate StartsWith(s: string, prefix: string) {
    |prefix| <= |s| && s[..|prefix|] == prefix
  }

  predicate EndsWith(s: string, suffix: string) {
    |suffix| <= |s| && s[|s| - |suffix|..] == suffix
  }

  /** The index of the last `c`, if any. */
  function LastIndexOf(s: string, c: char): (found: Option<nat>)
    ensures found.Some? ==> found.value < |s| && s[found.value] == c && c !in s[found.value + 1..]
    ensures found.None? ==> c !in s
  {
    if s == "" then None
    else if s[|s| - 1] == c then Some(|s| - 1)
    else LastIndexOf(s[..|s| - 1], c)
  }

  // ----- the same, spelled out -----

  /** The code points with the White_Space property, one by one. */
  lemma WhitespaceIff(c: char)
    ensures IsWhitespace(c) <==>
      c as int in [
        9, 10, 11, 12, 13, 32, 133, 160, 5760, 8192, 8193, 8194, 8195, 8196, 8197, 8198, 8199, 8200, 8201, 8202,
        8232, 8233, 8239, 8287, 12288]
  {
    var k := c as int;
    if 8192 <= k <= 8202 {
      assert k == 8192 || k == 8193 || k == 8194 || k == 8195 || k == 8196 || k == 8197 || k == 8198 || k == 8199
        || k == 8200 || k == 8201 || k == 8202;
    }
  }

  predicate AllWhitespace(s: string) {
    forall i :: 0 <= i < |s| ==> IsWhitespace(s[i])
  }

  /** Trimming takes white space off both ends, all of it and nothing else. */
  lemma TrimMeans(s: string)
    ensures exists a: string, b: string ::
      && s == a + Trim(s) + b && AllWhitespace(a) && AllWhitespace(b)
    ensures Trim(s) != "" ==> !IsWhitespace(Trim(s)[0]) && !IsWhitespace(Trim(s)[|Trim(s)| - 1])
  {
    hide IsWhitespace;
    var a := TrimStartMeans(s);
    var b := TrimEndMeans(TrimStart(s));
    Around(a, Trim(s), b);
    assert s == a + Trim(s) + b;
  }

  lemma Around(a: string, s: string, b: string)
    ensures a + (s + b) == a + s + b
  {
  }

  lemma {:induction false} TrimStartMeans(s: string) returns (a: string)
    ensures s == a + TrimStart(s) && AllWhitespace(a)
    ensures TrimStart(s) != "" ==> !IsWhitespace(TrimStart(s)[0])
  {
    hide IsWhitespace;
    a := "";
    if s != "" && IsWhitespace(s[0]) {
      var rest := TrimStartMeans(s[1..]);
      a := [s[0]] + rest;
      assert s == [s[0]] + s[1..];
    }
  }

  lemma {:induction false} TrimEndMeans(s: string) returns (b: string)
    ensures s == TrimEnd(s) + b && AllWhitespace(b)
    ensures TrimEnd(s) != "" ==> !IsWhitespace(TrimEnd(s)[|TrimEnd(s)| - 1]) && s != "" && TrimEnd(s)[0] == s[0]
  {
    hide IsWhitespace;
    b := "";
    if s != "" && IsWhitespace(s[|s| - 1]) {
      var rest := TrimEndMeans(s[..|s| - 1]);
      b := rest + [s[|s| - 1]];
      assert s == s[..|s| - 1] + [s[|s| - 1]];
    }
  }

  const LowerDigits := "0123456789abcdefghijklmnopqrstuvwxyz"
  const UpperDigits := "0123456789ABCDEFGHIJKLMNOPQRSTUVWXYZ"

  lemma DigitsAt(v: nat)
    requires v < 36
    ensures LowerDigits[v] == if v < 10 then '0' + v as char else 'a' + (v - 10) as char
    ensures UpperDigits[v] == if v < 10 then '0' + v as char else 'A' + (v - 10) as char
  {
  }

  /** A digit is one of the radix's digits and letters, in either case. */
  lemma DigitValueIff(c: char, radix: nat, v: nat)
    requires 2 <= radix <= 36
    ensures DigitValue(c, radix) == Some(v) <==> v < radix && (c == LowerDigits[v] || c == UpperDigits[v])
  {
    if v < 36 {
      DigitsAt(v);
    }
  }

  /** A number in hexadecimal, with the given digits and without leading zeros. */
  function HexText(n: nat, digits: string): (s: string)
    requires |digits| == 36
    ensures s != ""
  {
    (if n < 16 then "" else HexText(n / 16, digits)) + [digits[n % 16]]
  }

  function DigitsIn(upper: bool): (digits: string)
    ensures |digits| == 36
  {
    if upper then UpperDigits else LowerDigits
  }

  lemma DigitInCase(upper: bool, v: nat)
    requires v < 16
    ensures DigitValue(DigitsIn(upper)[v], 16) == Some(v)
  {
    DigitValueIff(DigitsIn(upper)[v], 16, v);
  }

  /** Hexadecimal numbers read back in either case. */
  lemma {:induction false} HexRead(n: nat, upper: bool)
    ensures DigitsValue(HexText(n, DigitsIn(upper)), 16) == Some(n)
  {
    hide DigitValue, DigitsIn, DigitsValue;
    var digits := DigitsIn(upper);
    var last := n % 16;
    DigitInCase(upper, last);
    if n >= 16 {
      HexRead(n / 16, upper);
      OneMoreDigit(HexText(n / 16, digits), digits[last], n / 16, last);
    } else {
      OneMoreDigit("", digits[last], 0, last);
    }
  }

  lemma OneMoreDigit(front: string, c: char, n: nat, last: nat)
    requires DigitValue(c, 16) == Some(last)
    requires if front == "" then n == 0 else DigitsValue(front, 16) == Some(n)
    ensures DigitsValue(front + [c], 16) == Some(n * 16 + last)
  {
    hide DigitValue;
    var s := front + [c];
    assert s[..|s| - 1] == front && s[|s| - 1] == c;
  }

  lemma {:induction false} LeadingZero(s: string, radix: nat, n: nat)
    requires 2 <= radix <= 36 && DigitsValue(s, radix) == Some(n)
    ensures DigitsValue("0" + s, radix) == Some(n)
  {
    var t := "0" + s;
    assert t[|t| - 1] == s[|s| - 1];
    assert t[..|t| - 1] == "0" + s[..|s| - 1];
    if |s| > 1 {
      LeadingZero(s[..|s| - 1], radix, DigitsValue(s[..|s| - 1], radix).value);
    } else {
      assert s[..|s| - 1] == "";
      assert DigitsValue("0", radix) == Some(0);
    }
  }

  /** A text is a number if and only if it is made of digits, at least one. */
  lemma {:induction false} DigitsValueIff(s: string, radix: nat)
    requires 2 <= radix <= 36
    ensures DigitsValue(s, radix).Some? <==> s != "" && forall i :: 0 <= i < |s| ==> DigitValue(s[i], radix).Some?
  {
    hide DigitValue;
    if |s| > 1 {
      DigitsValueIff(s[..|s| - 1], radix);
      assert s == s[..|s| - 1] + [s[|s| - 1]];
    }
  }

  /** One plus sign may precede the digits, and the number must fit. */
  lemma {:induction false} UnsignedMeans(s: string, radix: nat, max: nat, n: nat)
    requires 2 <= radix <= 36 && DigitsValue(s, radix) == Some(n)
    ensures ParseUnsigned(s, radix, max) == if n <= max then Some(n) else None
    ensures ParseUnsigned("+" + s, radix, max) == if n <= max then Some(n) else None
  {
    assert ("+" + s)[1..] == s;
    DigitsValueIff(s, radix);
    assert DigitValue(s[0], radix).Some? && DigitValue('+', radix).None?;
    hide DigitsValue, DigitValue;
  }

  /** Signs alone, a minus sign and a second plus sign are refused. */
  lemma UnsignedRefuses(s: string, radix: nat, max: nat)
    requires 2 <= radix <= 36
    ensures ParseUnsigned("", radix, max) == None && ParseUnsigned("+", radix, max) == None
    ensures ParseUnsigned("-" + s, radix, max) == None && ParseUnsigned("++" + s, radix, max) == None
  {
    SignIsNoDigit("", '+', radix);
    assert ['+'] + "" == "+";
    SignIsNoDigit(s, '-', radix);
    SignIsNoDigit(s, '+', radix);
    assert ("++" + s)[1..] == ['+'] + s;
    assert DigitsValue("", radix) == None;
    hide DigitsValue;
  }

  lemma SignIsNoDigit(s: string, sign: char, radix: nat)
    requires 2 <= radix <= 36 && (sign == '+' || sign == '-')
    ensures DigitsValue([sign] + s, radix) == None
  {
    DigitsValueIff([sign] + s, radix);
    assert ([sign] + s)[0] == sign && DigitValue(sign, radix) == None;
  }

  /** Decimal numbers have no leading zero but zero itself, and a minus sign only below it. */
  lemma {:induction false} DecimalMeans(n: nat)
    ensures n > 0 ==> Decimal(n)[0] != '0'
    ensures Decimal(0) == "0" && SignedDecimal(0) == "0"
    ensures n > 0 ==> var negative: int := 0 - n;
      SignedDecimal(n) == Decimal(n) && SignedDecimal(negative) == "-" + Decimal(n)
  {
    if n >= 10 {
      DecimalMeans(n / 10);
    }
  }

  /** Signed numbers read back exactly if they fit 32 bits. */
  lemma SignedMeans(n: int)
    ensures ParseI32(SignedDecimal(n)) == if -2147483648 <= n <= 2147483647 then Some(n) else None
    ensures ParseI32("-") == None && ParseI32("") == None
  {
    DecimalValue(if n < 0 then -n else n);
    if n < 0 {
      assert SignedDecimal(n)[1..] == Decimal(-n);
    }
  }
}
