/** Reading application ids from the names of systemd units. */
module UnitNames {
  import opened Wrappers
  import opened Bytes
  import opened Text
  import opened Distinct
  import Utf8

  const Backslash: byte := 0x5C
  const LowerX: byte := 0x78

  function Hex(b: byte): (v: Option<nat>)
    ensures v.Some? ==> v.value < 16
  {
    if 0x30 <= b <= 0x39 then Some(b - 0x30)
    else if 0x61 <= b <= 0x66 then Some(b - 0x61 + 10)
    else if 0x41 <= b <= 0x46 then Some(b - 0x41 + 10)
    else None
  }

  // ----- escaping -----

  /** How one byte is spelled: as itself, or as `\xNN` with upper or lower case hex digits. */
  datatype Spelling = Plain | Escaped(upperHigh: bool, upperLow: bool)

  function HexDigit(v: nat, upper: bool): (b: byte)
    requires v < 16
    ensures Hex(b) == Some(v)
  {
    if v < 10 then 0x30 + v else if upper then 0x41 + v - 10 else 0x61 + v - 10
  }

  function Spell(b: byte, spelling: Spelling): (s: bytes)
    ensures s != []
  {
    match spelling
    case Plain => [b]
    case Escaped(high, low) => [Backslash, LowerX, HexDigit(b / 16, high), HexDigit(b % 16, low)]
  }

  /** A backslash is never spelled as itself; every other byte may be spelled either way. */
  ghost predicate Legal(raw: bytes, spellings: seq<Spelling>) {
    |spellings| == |raw| && forall i :: 0 <= i < |raw| && raw[i] == Backslash ==> spellings[i].Escaped?
  }

  function Escape(raw: bytes, spellings: seq<Spelling>): bytes
    requires |spellings| == |raw|
  {
    if raw == [] then [] else Spell(raw[0], spellings[0]) + Escape(raw[1..], spellings[1..])
  }

  ghost predicate EscapesTo(raw: bytes, escaped: bytes) {
    exists spellings :: Legal(raw, spellings) && Escape(raw, spellings) == escaped
  }

  // ----- unescaping -----

  /** The first byte that `b` spells and how many bytes spell it. */
  function UnescapeFirst(b: bytes): (r: Option<(byte, nat)>)
    requires b != []
    ensures r.Some? ==> 1 <= r.value.1 <= |b|
  {
    if b[0] != Backslash then Some((b[0], 1))
    else if |b| < 4 || b[1] != LowerX then None
    else
      var high, low := Hex(b[2]), Hex(b[3]);
      if high.None? || low.None? then None else Some((high.value * 16 + low.value, 4))
  }

  function Unescape(b: bytes): Option<bytes> {
    if b == [] then Some([])
    else
      match UnescapeFirst(b)
      case None => None
      case Some((first, width)) =>
        var rest := Unescape(b[width..]);
        if rest.None? then None else Some([first] + rest.value)
  }

  lemma UnescapeFirstOfSpelled(b: byte, spelling: Spelling, rest: bytes)
    requires b == Backslash ==> spelling.Escaped?
    ensures UnescapeFirst(Spell(b, spelling) + rest) == Some((b, |Spell(b, spelling)|))
  {
    var s := Spell(b, spelling);
    var t := s + rest;
    assert forall i :: 0 <= i < |s| ==> t[i] == s[i];
  }

  lemma {:induction false} UnescapeEscaped(raw: bytes, spellings: seq<Spelling>)
    requires Legal(raw, spellings)
    ensures Unescape(Escape(raw, spellings)) == Some(raw)
  {
    hide Spell, UnescapeFirst;
    if raw != [] {
      var rest := Escape(raw[1..], spellings[1..]);
      var first := Spell(raw[0], spellings[0]);
      UnescapeFirstOfSpelled(raw[0], spellings[0], rest);
      assert (first + rest)[|first|..] == rest;
      UnescapeEscaped(raw[1..], spellings[1..]);
      assert raw == [raw[0]] + raw[1..];
    }
  }

  lemma DigitOfHex(b: byte)
    requires Hex(b).Some?
    ensures HexDigit(Hex(b).value, b < 0x61) == b
  {
  }

  lemma SpellEscaped(high: nat, low: nat, upperHigh: bool, upperLow: bool)
    requires high < 16 && low < 16
    ensures Spell(high * 16 + low, Escaped(upperHigh, upperLow)) ==
            [Backslash, LowerX, HexDigit(high, upperHigh), HexDigit(low, upperLow)]
  {
    assert (high * 16 + low) / 16 == high && (high * 16 + low) % 16 == low;
  }

  /** What was read is spelled in one of the legal ways. */
  lemma SpellingOfFirst(b: bytes) returns (spelling: Spelling)
    requires b != [] && UnescapeFirst(b).Some?
    ensures var (first, width) := UnescapeFirst(b).value;
      (first == Backslash ==> spelling.Escaped?) && Spell(first, spelling) == b[..width]
  {
    if b[0] != Backslash {
      spelling := Plain;
    } else {
      spelling := Escaped(b[2] < 0x61, b[3] < 0x61);
      DigitOfHex(b[2]);
      DigitOfHex(b[3]);
      SpellEscaped(Hex(b[2]).value, Hex(b[3]).value, spelling.upperHigh, spelling.upperLow);
      hide Hex, HexDigit, Spell;
      assert b[..4] == [b[0], b[1], b[2], b[3]];
    }
  }

  lemma {:induction false} SpellingsOf(b: bytes) returns (spellings: seq<Spelling>)
    requires Unescape(b).Some?
    ensures Legal(Unescape(b).value, spellings) && Escape(Unescape(b).value, spellings) == b
  {
    hide Spell, UnescapeFirst;
    spellings := [];
    if b != [] {
      var (first, width) := UnescapeFirst(b).value;
      var spelling := SpellingOfFirst(b);
      var others := SpellingsOf(b[width..]);
      var rest := Unescape(b[width..]).value;
      spellings := [spelling] + others;
      assert ([first] + rest)[1..] == rest && spellings[1..] == others;
      assert b == b[..width] + b[width..];
    }
  }

  /** Exactly the escapings of `raw` unescape to it; anything else is rejected or means other bytes. */
  lemma UnescapeIffEscaped(b: bytes, raw: bytes)
    ensures Unescape(b) == Some(raw) <==> EscapesTo(raw, b)
  {
    if Unescape(b) == Some(raw) {
      var spellings := SpellingsOf(b);
    }
    if EscapesTo(raw, b) {
      var spellings :| Legal(raw, spellings) && Escape(raw, spellings) == b;
      UnescapeEscaped(raw, spellings);
    }
  }

  /** `decoded` is what `b` spells up to `index`, and the bytes from there on are still to be read. */
  ghost predicate Pending(b: bytes, decoded: bytes, index: int) {
    && 0 <= index <= |b|
    && Unescape(b) == var rest := Unescape(b[index..]); if rest.None? then None else Some(decoded + rest.value)
  }

  ghost predicate CompleteEscape(b: bytes, index: nat) {
    index + 3 < |b| && b[index + 1] == LowerX && Hex(b[index + 2]).Some? && Hex(b[index + 3]).Some?
  }

  lemma {:induction false} PendingStep(b: bytes, decoded: bytes, index: nat)
    requires Pending(b, decoded, index) && index < |b|
    ensures b[index] != Backslash ==> Pending(b, decoded + [b[index]], index + 1)
    ensures b[index] == Backslash && CompleteEscape(b, index) ==>
      Pending(b, decoded + [Hex(b[index + 2]).value * 16 + Hex(b[index + 3]).value], index + 4)
    ensures b[index] == Backslash && !CompleteEscape(b, index) ==> Unescape(b) == None
  {
    hide UnescapeFirst, CompleteEscape, Hex, Unescape, Pending;
    FirstAt(b, index);
    if UnescapeFirst(b[index..]) == None {
      PendingFails(b, decoded, index);
    } else {
      PendingAfter(b, decoded, index);
    }
  }

  lemma PendingFails(b: bytes, decoded: bytes, index: nat)
    requires Pending(b, decoded, index) && index < |b| && UnescapeFirst(b[index..]) == None
    ensures Unescape(b) == None
  {
  }

  lemma PendingAfter(b: bytes, decoded: bytes, index: nat)
    requires Pending(b, decoded, index) && index < |b| && UnescapeFirst(b[index..]).Some?
    ensures var (value, width) := UnescapeFirst(b[index..]).value; Pending(b, decoded + [value], index + width)
  {
    hide UnescapeFirst;
    var (value, width) := UnescapeFirst(b[index..]).value;
    assert b[index..][width..] == b[index + width..];
    var rest := Unescape(b[index + width..]);
    if rest.Some? {
      Assoc(decoded, [value], rest.value);
    }
  }

  lemma FirstAt(b: bytes, index: nat)
    requires index < |b|
    ensures UnescapeFirst(b[index..]) ==
      if b[index] != Backslash then Some((b[index], 1))
      else if CompleteEscape(b, index) then Some((Hex(b[index + 2]).value * 16 + Hex(b[index + 3]).value, 4))
      else None
  {
    hide Hex;
  }

  lemma PendingStarts(b: bytes)
    ensures Pending(b, [], 0)
  {
    assert b[0..] == b;
    var rest := Unescape(b);
    if rest.Some? {
      assert [] + rest.value == rest.value;
    }
  }

  lemma PendingEnds(b: bytes, decoded: bytes)
    requires Pending(b, decoded, |b|)
    ensures Unescape(b) == Some(decoded)
  {
    assert decoded + [] == decoded;
  }

  /** The name that a unit decodes to. */
  function UnitName(unit: string): Option<string> {
    var raw := Unescape(Utf8.Encode(unit));
    if raw.None? then None else Utf8.Decode(raw.value)
  }

  /** `r` is the one name that `unit` is an escaping of, if there is one. */
  ghost predicate NamedBy(r: Option<string>, unit: string) {
    forall name :: r == Some(name) <==> EscapesTo(Utf8.Encode(name), Utf8.Encode(unit))
  }

  method DecodeSystemdUnitName(unit: string) returns (r: Option<string>)
    ensures r == UnitName(unit)
    ensures NamedBy(r, unit)
  {
    hide Unescape, Pending, EscapesTo, Hex, NamedBy;
    UnitNameMeans(unit);
    var b := Utf8.Encode(unit);
    var decoded: bytes := [];
    var index := 0;
    PendingStarts(b);
    while index < |b|
      invariant 0 <= index <= |b|
      invariant Pending(b, decoded, index)
    {
      PendingStep(b, decoded, index);
      if b[index] == Backslash {
        if index + 1 >= |b| || b[index + 1] != LowerX {
          return None;
        }
        if index + 2 >= |b| || Hex(b[index + 2]).None? {
          return None;
        }
        if index + 3 >= |b| || Hex(b[index + 3]).None? {
          return None;
        }
        var high, low := Hex(b[index + 2]).value, Hex(b[index + 3]).value;
        decoded := decoded + [high * 16 + low];
        index := index + 4;
      } else {
        decoded := decoded + [b[index]];
        index := index + 1;
      }
    }
    PendingEnds(b, decoded);
    return Utf8.Decode(decoded);
  }

  lemma UnitNameMeans(unit: string)
    ensures NamedBy(UnitName(unit), unit)
  {
    forall name
      ensures UnitName(unit) == Some(name) <==> EscapesTo(Utf8.Encode(name), Utf8.Encode(unit))
    {
      UnitNameIffEscaped(unit, name);
    }
  }

  /**
   * A unit decodes to a name exactly if it is one of its escapings; whichever bytes are escaped
   * besides the backslashes, and in whichever case, makes no difference.
   */
  lemma UnitNameIffEscaped(unit: string, name: string)
    ensures UnitName(unit) == Some(name) <==> EscapesTo(Utf8.Encode(name), Utf8.Encode(unit))
  {
    hide EscapesTo, Unescape;
    var b := Utf8.Encode(unit);
    Utf8.DecodeEncode(name);
    UnescapeIffEscaped(b, Utf8.Encode(name));
    if Unescape(b).Some? && Utf8.Decode(Unescape(b).value).Some? {
      Utf8.EncodeDecode(Unescape(b).value);
    }
  }

  // ----- application ids -----

  /** `str::lines`: a line ends with a line feed, and with the carriage return before it. */
  function Lines(s: string): seq<string> {
    var parts := Split(s, '\n');
    var n := |parts| - 1;
    seq(n, i requires 0 <= i < n => if EndsWith(parts[i], "\r") then parts[i][..|parts[i]| - 1] else parts[i])
    + if parts[n] == "" then [] else [parts[n]]
  }

  /** The third of the fields that colons separate, with all that follows it. */
  function ThirdField(line: string): Option<string> {
    var i := FirstIndex(line, ':');
    if i == |line| then None
    else
      var rest := line[i + 1..];
      var j := FirstIndex(rest, ':');
      if j == |rest| then None else Some(rest[j + 1..])
  }

  const AppPrefix := "app-"
  const SliceSuffix := ".slice"
  const ScopeSuffix := ".scope"

  /** The part of a unit's name that identifies its application. */
  function StableId(name: string): Option<string> {
    if !StartsWith(name, AppPrefix) then None
    else
      var body := name[|AppPrefix|..];
      if EndsWith(body, SliceSuffix) then Some(body[..|body| - |SliceSuffix|])
      else if EndsWith(body, ScopeSuffix) then
        var scope := body[..|body| - |ScopeSuffix|];
        var hyphen := LastIndexOf(scope, '-');
        if hyphen.None? then None else Some(scope[..hyphen.value])
      else None
  }

  const Launchers := ["gnome", "KDE", "flatpak"]

  /** The id itself, and the id after a launcher's name. */
  function Candidates(stable: string): seq<string> {
    var i := FirstIndex(stable, '-');
    [stable] + if i < |stable| && stable[..i] in Launchers then [stable[i + 1..]] else []
  }

  function IdsOfUnit(unit: string): seq<string> {
    var name := UnitName(unit);
    if name.None? then []
    else
      var stable := StableId(name.value);
      if stable.None? then [] else Candidates(stable.value)
  }

  function IdsOfUnits(units: seq<string>): seq<string> {
    if units == [] then [] else IdsOfUnits(units[..|units| - 1]) + IdsOfUnit(units[|units| - 1])
  }

  function UnitsOfLines(lines: seq<string>): seq<string> {
    if lines == [] then []
    else
      var path := ThirdField(lines[|lines| - 1]);
      UnitsOfLines(lines[..|lines| - 1]) + if path.None? then [] else Split(path.value, '/')
  }

  method PushUnique(values: seq<string>, value: string, ghost pushed: seq<string>) returns (values': seq<string>)
    requires values == FirstOccurrences(pushed)
    ensures values' == FirstOccurrences(pushed + [value])
  {
    FirstOccurrencesMeans(pushed);
    FirstOccurrencesStep(pushed, value);
    values' := if value in values then values else values + [value];
  }

  method PushCandidates(values: seq<string>, stable: string, ghost pushed: seq<string>) returns (values': seq<string>)
    requires values == FirstOccurrences(pushed)
    ensures values' == FirstOccurrences(pushed + Candidates(stable))
  {
    values' := PushUnique(values, stable, pushed);
    var i := FirstIndex(stable, '-');
    if i < |stable| && stable[..i] in Launchers {
      values' := PushUnique(values', stable[i + 1..], pushed + [stable]);
      Assoc(pushed, [stable], [stable[i + 1..]]);
    } else {
      assert Candidates(stable) == [stable];
    }
  }

  method PushUnits(values: seq<string>, path: string, ghost pushed: seq<string>) returns (values': seq<string>)
    requires values == FirstOccurrences(pushed)
    ensures values' == FirstOccurrences(pushed + IdsOfUnits(Split(path, '/')))
  {
    hide FirstOccurrences, Split, Candidates, StableId;
    var units := Split(path, '/');
    values' := values;
    assert pushed + [] == pushed;
    for i := 0 to |units|
      invariant values' == FirstOccurrences(pushed + IdsOfUnits(units[..i]))
    {
      IdsOneMore(units, i, pushed);
      var name := DecodeSystemdUnitName(units[i]);
      if name.Some? {
        var stable := StableId(name.value);
        if stable.Some? {
          values' := PushCandidates(values', stable.value, pushed + IdsOfUnits(units[..i]));
        }
      }
    }
    assert units[..|units|] == units;
  }

  lemma IdsOneMore(units: seq<string>, i: nat, pushed: seq<string>)
    requires i < |units|
    ensures pushed + IdsOfUnits(units[..i + 1]) == (pushed + IdsOfUnits(units[..i])) + IdsOfUnit(units[i])
    ensures IdsOfUnit(units[i]) == [] ==> pushed + IdsOfUnits(units[..i + 1]) == pushed + IdsOfUnits(units[..i])
  {
    hide IdsOfUnit;
    assert units[..i + 1][..i] == units[..i];
    Assoc(pushed, IdsOfUnits(units[..i]), IdsOfUnit(units[i]));
  }

  lemma {:induction false} IdsOfConcat(a: seq<string>, b: seq<string>)
    ensures IdsOfUnits(a + b) == IdsOfUnits(a) + IdsOfUnits(b)
  {
    hide IdsOfUnit;
    if b == [] {
      assert a + b == a;
      assert IdsOfUnits(a) + [] == IdsOfUnits(a);
    } else {
      var front := b[..|b| - 1];
      assert (a + b)[..|a + b| - 1] == a + front;
      IdsOfConcat(a, front);
      Assoc(IdsOfUnits(a), IdsOfUnits(front), IdsOfUnit(b[|b| - 1]));
    }
  }

  lemma UnitsOneMore(lines: seq<string>, i: nat)
    requires i < |lines|
    ensures ThirdField(lines[i]).None? ==> UnitsOfLines(lines[..i + 1]) == UnitsOfLines(lines[..i])
    ensures ThirdField(lines[i]).Some? ==>
      IdsOfUnits(UnitsOfLines(lines[..i + 1])) ==
      IdsOfUnits(UnitsOfLines(lines[..i])) + IdsOfUnits(Split(ThirdField(lines[i]).value, '/'))
  {
    hide ThirdField, IdsOfUnits;
    assert lines[..i + 1][..i] == lines[..i];
    var units := UnitsOfLines(lines[..i]);
    if ThirdField(lines[i]).Some? {
      IdsOfConcat(units, Split(ThirdField(lines[i]).value, '/'));
    } else {
      assert units + [] == units;
    }
  }

  /** The ids of all units of the control group, each once, in the order they are met. */
  method ApplicationIdsFromCgroup(cgroup: string) returns (ids: seq<string>)
    ensures IsFirstOccurrences(ids, IdsOfUnits(UnitsOfLines(Lines(cgroup))))
    ensures forall id :: id in ids <==> AmongUnits(id, UnitsOfLines(Lines(cgroup)))
  {
    hide FirstOccurrences, ThirdField, UnitsOfLines, IdsOfUnits, Lines, IsFirstOccurrences, AmongUnits;
    var lines := Lines(cgroup);
    ids := [];
    NoLines();
    assert lines[..0] == [];
    for i := 0 to |lines|
      invariant ids == FirstOccurrences(IdsOfUnits(UnitsOfLines(lines[..i])))
    {
      UnitsOneMore(lines, i);
      var path := ThirdField(lines[i]);
      if path.Some? {
        ids := PushUnits(ids, path.value, IdsOfUnits(UnitsOfLines(lines[..i])));
      }
    }
    assert lines[..|lines|] == lines;
    FirstOccurrencesMeans(IdsOfUnits(UnitsOfLines(lines)));
    IdsFound(ids, UnitsOfLines(lines));
  }

  lemma IdsFound(ids: seq<string>, units: seq<string>)
    requires IsFirstOccurrences(ids, IdsOfUnits(units))
    ensures forall id :: id in ids <==> AmongUnits(id, units)
  {
    hide IdsOfUnits;
    forall id
      ensures id in ids <==> AmongUnits(id, units)
    {
      IdFoundIff(units, id);
    }
  }

  lemma NoLines()
    ensures FirstOccurrences(IdsOfUnits(UnitsOfLines([]))) == []
  {
  }

  // ----- what the ids mean -----

  /** `name` is the slice or one of the scopes of the application `stable`. */
  ghost predicate RunsIn(stable: string, name: string) {
    || name == "app-" + stable + ".slice"
    || exists random :: '-' !in random && name == "app-" + stable + "-" + random + ".scope"
  }

  lemma StableIdIff(name: string, stable: string)
    ensures StableId(name) == Some(stable) <==> RunsIn(stable, name)
  {
    if StableId(name) == Some(stable) {
      StableIdMeans(name);
    }
    if name == AppPrefix + stable + SliceSuffix {
      SliceIsRecognized(stable);
    } else if RunsIn(stable, name) {
      var random :| '-' !in random && name == AppPrefix + stable + "-" + random + ScopeSuffix;
      ScopeIsRecognized(stable, random);
    }
  }

  lemma StableIdMeans(name: string)
    requires StableId(name).Some?
    ensures RunsIn(StableId(name).value, name)
  {
    hide RunsIn;
    var stable := StableId(name).value;
    var body := name[|AppPrefix|..];
    PrefixOff(name, AppPrefix);
    if EndsWith(body, SliceSuffix) {
      SuffixOff(body, SliceSuffix);
      Assoc(AppPrefix, stable, SliceSuffix);
      SliceRuns(stable);
    } else {
      var scope := body[..|body| - |ScopeSuffix|];
      SuffixOff(body, ScopeSuffix);
      var random := scope[|stable| + 1..];
      SplitAt(scope, |stable|, '-');
      Regroup(AppPrefix, stable, "-", random, ScopeSuffix);
      ScopeRuns(stable, random);
    }
  }

  lemma SliceRuns(stable: string)
    ensures RunsIn(stable, AppPrefix + stable + SliceSuffix)
  {
  }

  lemma ScopeRuns(stable: string, random: string)
    requires '-' !in random
    ensures RunsIn(stable, AppPrefix + stable + "-" + random + ScopeSuffix)
  {
  }

  lemma PrefixOff(s: string, prefix: string)
    requires StartsWith(s, prefix)
    ensures |prefix| <= |s| && s == prefix + s[|prefix|..]
  {
  }

  lemma SuffixOff(s: string, suffix: string)
    requires EndsWith(s, suffix)
    ensures |suffix| <= |s| && s == s[..|s| - |suffix|] + suffix
  {
  }

  lemma SplitAt(s: string, i: nat, c: char)
    requires i < |s| && s[i] == c
    ensures s == s[..i] + [c] + s[i + 1..]
  {
  }

  lemma Regroup(a: string, b: string, c: string, d: string, e: string)
    ensures a + ((b + c + d) + e) == a + b + c + d + e
  {
  }

  lemma SliceIsRecognized(stable: string)
    ensures StableId(AppPrefix + stable + SliceSuffix) == Some(stable)
  {
    var body := stable + SliceSuffix;
    var name := AppPrefix + stable + SliceSuffix;
    assert name == AppPrefix + body;
    assert name[..|AppPrefix|] == AppPrefix && name[|AppPrefix|..] == body;
    assert body[|stable|..] == SliceSuffix && body[..|stable|] == stable;
  }

  lemma ScopeIsRecognized(stable: string, random: string)
    requires '-' !in random
    ensures StableId(AppPrefix + stable + "-" + random + ScopeSuffix) == Some(stable)
  {
    hide LastIndexOf, StartsWith, EndsWith;
    var scope := stable + "-" + random;
    var body := scope + ScopeSuffix;
    Regroup(AppPrefix, stable, "-", random, ScopeSuffix);
    PrefixDropped(AppPrefix, body);
    SuffixDropped(scope, ScopeSuffix);
    ScopeIsNoSlice(scope);
    LastHyphenOf(stable, random);
    assert scope[..|stable|] == stable;
  }

  lemma PrefixDropped(prefix: string, s: string)
    ensures StartsWith(prefix + s, prefix) && (prefix + s)[|prefix|..] == s
  {
  }

  lemma SuffixDropped(s: string, suffix: string)
    ensures EndsWith(s + suffix, suffix) && (s + suffix)[..|s + suffix| - |suffix|] == s
  {
  }

  lemma ScopeIsNoSlice(scope: string)
    ensures !EndsWith(scope + ScopeSuffix, SliceSuffix)
  {
    var body := scope + ScopeSuffix;
    assert body[|body| - 2] == ScopeSuffix[4] == 'p';
    assert SliceSuffix[4] == 'c';
    assert |body| >= 6 && body[|body| - 6..][4] == 'p';
  }

  lemma {:induction false} LastHyphenOf(front: string, back: string)
    requires '-' !in back
    ensures LastIndexOf(front + "-" + back, '-') == Some(|front|)
  {
    var s := front + "-" + back;
    if back == "" {
      assert s[|s| - 1] == '-';
    } else {
      assert s[|s| - 1] == back[|back| - 1];
      assert s[..|s| - 1] == front + "-" + back[..|back| - 1];
      LastHyphenOf(front, back[..|back| - 1]);
    }
  }

  /** `id` is the stable id or the rest of it after a known launcher. */
  ghost predicate Identifies(id: string, stable: string) {
    id == stable || stable == "gnome-" + id || stable == "KDE-" + id || stable == "flatpak-" + id
  }

  lemma CandidatesIff(stable: string, id: string)
    ensures id in Candidates(stable) <==> Identifies(id, stable)
  {
    if id in Candidates(stable) && id != stable {
      var i := FirstIndex(stable, '-');
      SplitAt(stable, i, '-');
      LauncherIdentifies(stable[..i], id);
    }
    if Identifies(id, stable) && id != stable {
      SomeLauncher(stable, id);
      var launcher :| launcher in Launchers && stable == launcher + "-" + id;
      LauncherIsCandidate(launcher, id);
    }
  }

  lemma SomeLauncher(stable: string, id: string)
    requires Identifies(id, stable) && id != stable
    ensures exists launcher :: launcher in Launchers && stable == launcher + "-" + id
  {
    var launcher := if stable == "gnome-" + id then "gnome" else if stable == "KDE-" + id then "KDE" else "flatpak";
    assert launcher in Launchers && stable == launcher + "-" + id;
  }

  lemma LauncherIdentifies(launcher: string, id: string)
    requires launcher in Launchers
    ensures Identifies(id, launcher + "-" + id)
  {
  }

  lemma LauncherIsCandidate(launcher: string, id: string)
    requires launcher in Launchers
    ensures id in Candidates(launcher + "-" + id)
  {
    var stable := launcher + "-" + id;
    FirstHyphenOf(launcher, id);
    assert stable[..|launcher|] == launcher && stable[|launcher| + 1..] == id;
    assert Candidates(stable) == [stable, id];
  }

  lemma {:induction false} FirstHyphenOf(front: string, back: string)
    requires '-' !in front
    ensures FirstIndex(front + "-" + back, '-') == |front|
  {
    var s := front + "-" + back;
    if front != "" {
      assert s[1..] == front[1..] + "-" + back;
      FirstHyphenOf(front[1..], back);
    }
  }

  /** The escaped name of one of the application's slices or scopes. */
  ghost predicate UnitOf(id: string, unit: string) {
    exists name, stable ::
      EscapesTo(Utf8.Encode(name), Utf8.Encode(unit)) && RunsIn(stable, name) && Identifies(id, stable)
  }

  ghost predicate AmongUnits(id: string, units: seq<string>) {
    exists i :: 0 <= i < |units| && UnitOf(id, units[i])
  }

  /** An id is found exactly if one of the units of the control group is a slice or scope of its application. */
  lemma {:induction false} IdFoundIff(units: seq<string>, id: string)
    ensures id in IdsOfUnits(units) <==> AmongUnits(id, units)
  {
    hide UnitOf, IdsOfUnit;
    if units != [] {
      var front, last := units[..|units| - 1], units[|units| - 1];
      IdFoundIff(front, id);
      IdOfUnitIff(last, id);
      assert UnitOf(id, last) ==> UnitOf(id, units[|units| - 1]);
      if exists i :: 0 <= i < |front| && UnitOf(id, front[i]) {
        var i :| 0 <= i < |front| && UnitOf(id, front[i]);
        assert UnitOf(id, units[i]);
      }
      if exists i :: 0 <= i < |units| && UnitOf(id, units[i]) {
        var i :| 0 <= i < |units| && UnitOf(id, units[i]);
        assert i < |front| ==> UnitOf(id, front[i]);
      }
    }
  }

  lemma IdOfUnitIff(unit: string, id: string)
    ensures id in IdsOfUnit(unit) <==> UnitOf(id, unit)
  {
    hide Candidates, StableId, RunsIn, Identifies, EscapesTo, UnitName;
    if id in IdsOfUnit(unit) {
      var name := UnitName(unit).value;
      var stable := StableId(name).value;
      UnitNameIffEscaped(unit, name);
      StableIdIff(name, stable);
      CandidatesIff(stable, id);
    }
    if UnitOf(id, unit) {
      var name, stable :|
        EscapesTo(Utf8.Encode(name), Utf8.Encode(unit)) && RunsIn(stable, name) && Identifies(id, stable);
      UnitNameIffEscaped(unit, name);
      StableIdIff(name, stable);
      CandidatesIff(stable, id);
    }
  }

  // ----- where the units come from -----

  /** The path of a control group line: all after its second colon. */
  lemma ThirdFieldIff(line: string, path: string)
    ensures ThirdField(line) == Some(path) <==> exists a: string, b: string :: FieldsBefore(line, a, b, path)
  {
    if ThirdField(line) == Some(path) {
      var a, b := ThirdFieldSplits(line);
    }
    forall a: string, b: string | FieldsBefore(line, a, b, path)
      ensures ThirdField(line) == Some(path)
    {
      ThirdFieldOf(a, b, path);
    }
  }

  ghost predicate FieldsBefore(line: string, a: string, b: string, path: string) {
    ':' !in a && ':' !in b && line == a + ":" + b + ":" + path
  }

  lemma ThirdFieldSplits(line: string) returns (a: string, b: string)
    requires ThirdField(line).Some?
    ensures FieldsBefore(line, a, b, ThirdField(line).value)
  {
    var i := FirstIndex(line, ':');
    a := line[..i];
    var rest := line[i + 1..];
    var j := FirstIndex(rest, ':');
    b := rest[..j];
    var path := rest[j + 1..];
    ThirdFieldAt(line, i, j);
    AroundFirst(line, ':');
    AroundFirst(rest, ':');
    hide *;
    FieldsFound(line, a, rest, b, path);
  }

  lemma ThirdFieldAt(line: string, i: nat, j: nat)
    requires i == FirstIndex(line, ':') < |line|
    requires j == FirstIndex(line[i + 1..], ':') < |line[i + 1..]|
    ensures ThirdField(line) == Some(line[i + 1..][j + 1..])
  {
    hide FirstIndex;
  }

  lemma AroundFirst(s: string, c: char)
    ensures var i := FirstIndex(s, c); i < |s| ==> c !in s[..i] && s == s[..i] + [c] + s[i + 1..]
  {
    var i := FirstIndex(s, c);
    if i < |s| {
      SplitAt(s, i, c);
    }
  }

  lemma FieldsFound(line: string, a: string, rest: string, b: string, path: string)
    requires ':' !in a && ':' !in b && line == a + [':'] + rest && rest == b + [':'] + path
    ensures FieldsBefore(line, a, b, path)
  {
    FiveParts(a, b, path);
  }

  lemma ThirdFieldOf(a: string, b: string, path: string)
    requires ':' !in a && ':' !in b
    ensures ThirdField(a + ":" + b + ":" + path) == Some(path)
  {
    hide FirstIndex;
    var rest := b + ":" + path;
    FiveParts(a, b, path);
    ColonAfter(a, rest);
    ColonAfter(b, path);
    AfterColon(a, rest);
    AfterColon(b, path);
  }

  lemma AfterColon(front: string, back: string)
    ensures |front + ":" + back| > |front| && (front + ":" + back)[|front| + 1..] == back
  {
  }

  lemma FiveParts(a: string, b: string, path: string)
    ensures a + ":" + b + ":" + path == a + ":" + (b + ":" + path)
  {
  }

  lemma {:induction false} ColonAfter(front: string, back: string)
    requires ':' !in front
    ensures FirstIndex(front + ":" + back, ':') == |front|
  {
    var s := front + ":" + back;
    if front != "" {
      assert s[1..] == front[1..] + ":" + back;
      ColonAfter(front[1..], back);
    }
  }

  /** A line as the text holds it. */
  datatype TextLine = TextLine(line: string, carriageReturn: bool)

  /** Lines that end with a line feed each, with or without a carriage return before it, and what follows the last. */
  function TextOf(lines: seq<TextLine>, last: string): string {
    if lines == [] then last
    else lines[0].line + (if lines[0].carriageReturn then "\r" else "") + "\n" + TextOf(lines[1..], last)
  }

  function PartsOf(lines: seq<TextLine>, last: string): (parts: seq<string>)
    ensures |parts| == |lines| + 1 && parts[|lines|] == last
    ensures forall i :: 0 <= i < |lines| ==>
      parts[i] == lines[i].line + (if lines[i].carriageReturn then "\r" else "")
  {
    if lines == [] then [last]
    else [lines[0].line + (if lines[0].carriageReturn then "\r" else "")] + PartsOf(lines[1..], last)
  }

  lemma {:induction false} TextIsJoined(lines: seq<TextLine>, last: string)
    ensures TextOf(lines, last) == JoinWith(PartsOf(lines, last), '\n')
  {
    if lines != [] {
      TextIsJoined(lines[1..], last);
      assert PartsOf(lines, last)[1..] == PartsOf(lines[1..], last);
    }
  }

  /** The lines of a text are read back as they were, whichever way each of them ends. */
  lemma {:induction false} LinesRead(lines: seq<TextLine>, last: string)
    requires forall i :: 0 <= i < |lines| ==> '\n' !in lines[i].line && !EndsWith(lines[i].line, "\r")
    requires '\n' !in last
    ensures
      var read := Lines(TextOf(lines, last));
      && |read| == |lines| + (if last == "" then 0 else 1)
      && (forall i :: 0 <= i < |lines| ==> read[i] == lines[i].line)
      && (last != "" ==> read[|lines|] == last)
  {
    TextIsJoined(lines, last);
    var parts := PartsOf(lines, last);
    PartsAreFree(lines, last);
    SplitIffJoin(TextOf(lines, last), '\n', parts);
    LinesOfParts(TextOf(lines, last));
    hide TextOf, Split, JoinWith, PartsOf, EndsWith, Lines;
    forall i | 0 <= i < |lines|
      ensures (if EndsWith(parts[i], "\r") then parts[i][..|parts[i]| - 1] else parts[i]) == lines[i].line
    {
      Stripped(lines[i]);
    }
  }

  lemma LinesOfParts(s: string)
    ensures
      var parts, read, n := Split(s, '\n'), Lines(s), |Split(s, '\n')| - 1;
      && |read| == n + (if parts[n] == "" then 0 else 1)
      && (forall i :: 0 <= i < n ==>
            read[i] == if EndsWith(parts[i], "\r") then parts[i][..|parts[i]| - 1] else parts[i])
      && (parts[n] != "" ==> read[n] == parts[n])
  {
    hide Split, EndsWith;
  }

  lemma PartsAreFree(lines: seq<TextLine>, last: string)
    requires forall i :: 0 <= i < |lines| ==> '\n' !in lines[i].line
    requires '\n' !in last
    ensures FreeOf(PartsOf(lines, last), '\n')
  {
    hide PartsOf;
  }

  lemma Stripped(line: TextLine)
    requires !EndsWith(line.line, "\r")
    ensures
      var part := line.line + (if line.carriageReturn then "\r" else "");
      if EndsWith(part, "\r") then part[..|part| - 1] == line.line else part == line.line
  {
    if line.carriageReturn {
      SuffixDropped(line.line, "\r");
    } else {
      assert line.line + "" == line.line;
    }
  }

  /** The units are the components of the paths of the lines that have one. */
  lemma {:induction false} UnitsAreComponents(lines: seq<string>, unit: string)
    ensures unit in UnitsOfLines(lines)
      <==> exists i :: 0 <= i < |lines| && IsComponentOf(unit, lines[i])
  {
    hide ThirdField, Split, IsComponentOf;
    if lines != [] {
      var front, last := lines[..|lines| - 1], lines[|lines| - 1];
      UnitsAreComponents(front, unit);
      ComponentsOf(last, unit);
      assert forall i :: 0 <= i < |front| ==> front[i] == lines[i];
      assert IsComponentOf(unit, last) ==> IsComponentOf(unit, lines[|lines| - 1]);
    }
  }

  ghost predicate IsComponentOf(unit: string, line: string) {
    exists path, parts ::
      && ThirdField(line) == Some(path) && unit in parts
      && parts != [] && FreeOf(parts, '/') && JoinWith(parts, '/') == path
  }

  lemma ComponentsOf(line: string, unit: string)
    ensures IsComponentOf(unit, line) <==> ThirdField(line).Some? && unit in Split(ThirdField(line).value, '/')
  {
    hide ThirdField, Split, JoinWith, FreeOf;
    if ThirdField(line).Some? {
      var path := ThirdField(line).value;
      forall parts
        ensures Split(path, '/') == parts <==> parts != [] && FreeOf(parts, '/') && JoinWith(parts, '/') == path
      {
        SplitIffJoin(path, '/', parts);
      }
    }
  }

  /** An escape is a backslash, an x and two hexadecimal digits of the byte, each in either case. */
  lemma SpellMeans(b: byte, high: bool, low: bool)
    ensures
      var s := Spell(b, Escaped(high, low));
      && |s| == 4 && s[0] == '\\' as int && s[1] == 'x' as int
      && s[2] == (if high then UpperDigits else LowerDigits)[b / 16] as int
      && s[3] == (if low then UpperDigits else LowerDigits)[b % 16] as int
    ensures Spell(b, Plain) == [b]
  {
    DigitsAt(b / 16);
    DigitsAt(b % 16);
    hide LowerDigits, UpperDigits;
  }
}
