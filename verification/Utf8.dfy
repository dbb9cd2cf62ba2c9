/** UTF-8 as `str::from_utf8` accepts it. */
module Utf8 {
  import opened Wrappers
  import opened Bytes

  predicate Continuation(b: byte) {
    0x80 <= b <= 0xBF
  }

  // Scalar values of two, three and four byte sequences.

  function Scalar2(b0: int, b1: int): int {
    (b0 - 0xC0) * 0x40 + (b1 - 0x80)
  }

  function Scalar3(b0: int, b1: int, b2: int): int {
    (b0 - 0xE0) * 0x1000 + (b1 - 0x80) * 0x40 + (b2 - 0x80)
  }

  function Scalar4(b0: int, b1: int, b2: int, b3: int): int {
    (b0 - 0xF0) * 0x40000 + (b1 - 0x80) * 0x1000 + (b2 - 0x80) * 0x40 + (b3 - 0x80)
  }

  /** The scalar value at the front of `b` and its width, unless `b` starts with malformed UTF-8. */
  function DecodeFirst(b: bytes): (r: Option<(char, nat)>)
    requires b != []
    ensures r.Some? ==> 1 <= r.value.1 <= |b| && r.value.1 <= 4
  {
    var b0 := b[0];
    if b0 < 0x80 then Some((b0 as char, 1))
    else if 0xC2 <= b0 <= 0xDF then
      if |b| >= 2 && Continuation(b[1]) then Some((Scalar2(b0, b[1]) as char, 2)) else None
    else if 0xE0 <= b0 <= 0xEF then
      if && |b| >= 3 && Continuation(b[1]) && Continuation(b[2])
         && (b0 == 0xE0 ==> b[1] >= 0xA0) && (b0 == 0xED ==> b[1] <= 0x9F)
      then Some((Scalar3(b0, b[1], b[2]) as char, 3))
      else None
    else if 0xF0 <= b0 <= 0xF4 then
      if && |b| >= 4 && Continuation(b[1]) && Continuation(b[2]) && Continuation(b[3])
         && (b0 == 0xF0 ==> b[1] >= 0x90) && (b0 == 0xF4 ==> b[1] <= 0x8F)
      then Some((Scalar4(b0, b[1], b[2], b[3]) as char, 4))
      else None
    else None
  }

  function Decode(b: bytes): Option<string> {
    if b == [] then Some("")
    else
      match DecodeFirst(b)
      case None => None
      case Some((c, width)) =>
        var rest := Decode(b[width..]);
        if rest.None? then None else Some([c] + rest.value)
  }

  function EncodeChar(c: char): (b: bytes)
    ensures 1 <= |b| <= 4
    ensures |b| == 1 <==> c < 128 as char
    ensures |b| == 1 ==> b[0] == c as int
    ensures |b| > 1 ==> forall i :: 0 <= i < |b| ==> b[i] >= 0x80
  {
    var k := c as int;
    if k < 0x80 then [k]
    else if k < 0x800 then [0xC0 + k / 0x40, 0x80 + k % 0x40]
    else if k < 0x10000 then [0xE0 + k / 0x1000, 0x80 + k / 0x40 % 0x40, 0x80 + k % 0x40]
    else [0xF0 + k / 0x40000, 0x80 + k / 0x1000 % 0x40, 0x80 + k / 0x40 % 0x40, 0x80 + k % 0x40]
  }

  function Encode(s: string): bytes {
    if s == "" then [] else EncodeChar(s[0]) + Encode(s[1..])
  }

  lemma DecodeFirstOfEncoded(c: char, rest: bytes)
    ensures DecodeFirst(EncodeChar(c) + rest) == Some((c, |EncodeChar(c)|))
  {
    var e := EncodeChar(c);
    var b := e + rest;
    assert forall i :: 0 <= i < |e| ==> b[i] == e[i];
    ScalarOfEncoded(c);
    hide EncodeChar, Scalar2, Scalar3, Scalar4;
    LeadOfEncoded(c);
  }

  lemma LeadOfEncoded(c: char)
    ensures
      var e := EncodeChar(c);
      && (|e| == 2 ==> 0xC2 <= e[0] <= 0xDF && Continuation(e[1]))
      && (|e| == 3 ==> && 0xE0 <= e[0] <= 0xEF && Continuation(e[1]) && Continuation(e[2])
                       && (e[0] == 0xE0 ==> e[1] >= 0xA0) && (e[0] == 0xED ==> e[1] <= 0x9F))
      && (|e| == 4 ==> && 0xF0 <= e[0] <= 0xF4 && Continuation(e[1]) && Continuation(e[2]) && Continuation(e[3])
                       && (e[0] == 0xF0 ==> e[1] >= 0x90) && (e[0] == 0xF4 ==> e[1] <= 0x8F))
  {
  }

  lemma Base64Digits(k: nat)
    ensures k == (k / 0x40) * 0x40 + k % 0x40
    ensures k / 0x40 == (k / 0x1000) * 0x40 + k / 0x40 % 0x40
    ensures k / 0x1000 == (k / 0x40000) * 0x40 + k / 0x1000 % 0x40
  {
    assert k / 0x40 / 0x40 == k / 0x1000;
    assert k / 0x1000 / 0x40 == k / 0x40000;
  }

  lemma ScalarOfEncoded(c: char)
    ensures
      var e := EncodeChar(c);
      && (|e| == 1 ==> e[0] == c as int)
      && (|e| == 2 ==> Scalar2(e[0], e[1]) == c as int)
      && (|e| == 3 ==> Scalar3(e[0], e[1], e[2]) == c as int)
      && (|e| == 4 ==> Scalar4(e[0], e[1], e[2], e[3]) == c as int)
  {
    Base64Digits(c as int);
  }

  lemma {:induction false} DecodeEncode(s: string)
    ensures Decode(Encode(s)) == Some(s)
  {
    if s != "" {
      var rest := Encode(s[1..]);
      DecodeFirstOfEncoded(s[0], rest);
      assert (EncodeChar(s[0]) + rest)[|EncodeChar(s[0])|..] == rest;
      DecodeEncode(s[1..]);
      assert s == [s[0]] + s[1..];
    }
  }

  lemma Join2(b0: int, b1: int)
    requires 0xC2 <= b0 <= 0xDF && 0x80 <= b1 <= 0xBF
    ensures 0x80 <= Scalar2(b0, b1) < 0x800
    ensures 0xC0 + Scalar2(b0, b1) / 0x40 == b0 && 0x80 + Scalar2(b0, b1) % 0x40 == b1
  {
  }

  lemma Join3(b0: int, b1: int, b2: int)
    requires 0xE0 <= b0 <= 0xEF && 0x80 <= b1 <= 0xBF && 0x80 <= b2 <= 0xBF && (b0 == 0xE0 ==> b1 >= 0xA0)
    ensures var k := Scalar3(b0, b1, b2);
      && 0x800 <= k < 0x10000
      && 0xE0 + k / 0x1000 == b0 && 0x80 + k / 0x40 % 0x40 == b1 && 0x80 + k % 0x40 == b2
  {
    var k := Scalar3(b0, b1, b2);
    assert k / 0x40 == (b0 - 0xE0) * 0x40 + (b1 - 0x80);
  }

  lemma Join4(b0: int, b1: int, b2: int, b3: int)
    requires 0xF0 <= b0 <= 0xF4 && 0x80 <= b1 <= 0xBF && 0x80 <= b2 <= 0xBF && 0x80 <= b3 <= 0xBF
    requires (b0 == 0xF0 ==> b1 >= 0x90) && (b0 == 0xF4 ==> b1 <= 0x8F)
    ensures var k := Scalar4(b0, b1, b2, b3);
      && 0x10000 <= k < 0x110000
      && 0xF0 + k / 0x40000 == b0 && 0x80 + k / 0x1000 % 0x40 == b1
      && 0x80 + k / 0x40 % 0x40 == b2 && 0x80 + k % 0x40 == b3
  {
    var k := Scalar4(b0, b1, b2, b3);
    assert k / 0x40 == (b0 - 0xF0) * 0x1000 + (b1 - 0x80) * 0x40 + (b2 - 0x80);
    assert k / 0x1000 == (b0 - 0xF0) * 0x40 + (b1 - 0x80);
  }

  lemma EncodedOfDecodeFirst(b: bytes)
    requires b != [] && DecodeFirst(b).Some?
    ensures var (c, width) := DecodeFirst(b).value; EncodeChar(c) == b[..width]
  {
    hide Scalar2, Scalar3, Scalar4;
    var b0 := b[0];
    assert b0 < 0x80 ==> b[..1] == [b0];
    if b0 >= 0xF0 {
      Join4(b0, b[1], b[2], b[3]);
    } else if b0 >= 0xE0 {
      Join3(b0, b[1], b[2]);
    } else if b0 >= 0x80 {
      Join2(b0, b[1]);
    }
  }

  /** Only the encoding of a text decodes to it. */
  lemma {:induction false} EncodeDecode(b: bytes)
    requires Decode(b).Some?
    ensures Encode(Decode(b).value) == b
  {
    hide EncodeChar, DecodeFirst;
    if b != [] {
      var (c, width) := DecodeFirst(b).value;
      EncodedOfDecodeFirst(b);
      EncodeDecode(b[width..]);
      var rest := Decode(b[width..]).value;
      assert ([c] + rest)[1..] == rest;
      assert b == b[..width] + b[width..];
    }
  }

  lemma {:induction false} EncodeConcat(a: string, b: string)
    ensures Encode(a + b) == Encode(a) + Encode(b)
  {
    if a == "" {
      assert a + b == b;
    } else {
      assert (a + b)[1..] == a[1..] + b;
      EncodeConcat(a[1..], b);
      Assoc(EncodeChar(a[0]), Encode(a[1..]), Encode(b));
    }
  }
}
