/** Where the exports of a share command go. */
module ExportNames {
  import opened Wrappers
  import opened Text
  import opened Distinct
  import opened ItemPaths
  import Planning

  const Suffix := ".export"

  predicate IsDigit(c: char) {
    '0' <= c <= '9'
  }

  /** A local time as `%Y%m%d-%H%M%S` prints it in the years 1000 to 9999. */
  predicate IsTimestamp(t: string) {
    |t| == 15 && forall i :: 0 <= i < 15 ==> if i == 8 then t[i] == '-' else IsDigit(t[i])
  }

  function DefaultFileName(contact: string, item: string, timestamp: string): string {
    contact + "_" + item + "_" + timestamp + Suffix
  }

  /** The name for the `count`-th time that `name` is asked for. */
  function NumberedName(name: string, count: nat): string {
    if count <= 1 then name
    else if EndsWith(name, Suffix) then name[..|name| - |Suffix|] + "-" + Decimal(count) + Suffix
    else name + "-" + Decimal(count)
  }

  function CountOf(names: seq<string>, name: string): nat {
    if names == [] then 0
    else CountOf(names[..|names| - 1], name) + if names[|names| - 1] == name then 1 else 0
  }

  // ----- the names made unique -----

  ghost predicate Counted(counts: map<string, nat>, names: seq<string>) {
    forall name :: CountOf(names, name) == if name in counts then counts[name] else 0
  }

  method UniqueFileName(name: string, counts: map<string, nat>, ghost names: seq<string>)
    returns (unique: string, counts': map<string, nat>)
    requires Counted(counts, names)
    ensures Counted(counts', names + [name])
    ensures unique == NumberedName(name, CountOf(names + [name], name))
  {
    assert (names + [name])[..|names|] == names;
    var count := (if name in counts then counts[name] else 0) + 1;
    counts' := counts[name := count];
    if count == 1 {
      return name, counts';
    }
    if EndsWith(name, Suffix) {
      unique := name[..|name| - |Suffix|] + "-" + Decimal(count) + Suffix;
    } else {
      unique := name + "-" + Decimal(count);
    }
  }

  /** `PathBuf::join`. */
  function JoinPath(base: string, name: string): string {
    if StartsWith(name, "/") then name
    else if base == "" || EndsWith(base, "/") then base + name
    else base + "/" + name
  }

  function DefaultNames(contact: string, paths: seq<ItemPath>, timestamps: seq<string>): (names: seq<string>)
    requires |timestamps| == |paths|
    ensures |names| == |paths|
    ensures forall i :: 0 <= i < |paths| ==> names[i] == DefaultFileName(contact, paths[i].item, timestamps[i])
  {
    seq(|paths|, i requires 0 <= i < |paths| => DefaultFileName(contact, paths[i].item, timestamps[i]))
  }

  /** The name for position `i` counts how often the same name was asked for up to there. */
  function NameAt(names: seq<string>, i: nat): string
    requires i < |names|
  {
    NumberedName(names[i], CountOf(names[..i + 1], names[i]))
  }

  /** The clock is read once for each item; `timestamps` are its answers. */
  method Destinations(paths: seq<ItemPath>, contact: string, outFile: Option<string>, outDir: Option<string>, timestamps: seq<string>)
    returns (r: seq<string>)
    requires |timestamps| == |paths|
    requires forall i :: 0 <= i < |timestamps| ==> IsTimestamp(timestamps[i])
    ensures outFile.Some? ==> r == [outFile.value]
    ensures outFile.None? ==>
      var names := DefaultNames(contact, paths, timestamps);
      var base := if outDir.Some? then outDir.value else ".";
      |r| == |paths| && forall i :: 0 <= i < |paths| ==> r[i] == JoinPath(base, NameAt(names, i))
    ensures NoDuplicates(r)
  {
    if outFile.Some? {
      return [outFile.value];
    }
    var base := if outDir.Some? then outDir.value else ".";
    var counts: map<string, nat> := map[];
    r := [];
    ghost var names := DefaultNames(contact, paths, timestamps);
    hide DefaultFileName, IsTimestamp, NumberedName, JoinPath, Counted, Named, NameAt, CountOf;
    NothingCounted();
    NothingNamed(base, names);
    for i := 0 to |paths|
      invariant Counted(counts, names[..i])
      invariant Named(r, i, base, names)
    {
      var name := DefaultFileName(contact, paths[i].item, timestamps[i]);
      var unique;
      assert names[..i] + [name] == names[..i + 1];
      unique, counts := UniqueFileName(name, counts, names[..i]);
      NamedOneMore(r, i, base, names, unique);
      r := r + [JoinPath(base, unique)];
    }
    NamedAll(r, base, contact, paths, timestamps);
  }

  /** The first `n` names have been made unique and joined to the directory. */
  ghost predicate Named(r: seq<string>, n: int, base: string, names: seq<string>) {
    |r| == n <= |names| && forall i :: 0 <= i < n ==> r[i] == JoinPath(base, NameAt(names, i))
  }

  lemma NothingNamed(base: string, names: seq<string>)
    ensures Named([], 0, base, names) && names[..0] == []
  {
  }

  lemma NamedOneMore(r: seq<string>, n: nat, base: string, names: seq<string>, unique: string)
    requires Named(r, n, base, names) && n < |names|
    requires unique == NumberedName(names[n], CountOf(names[..n + 1], names[n]))
    ensures Named(r + [JoinPath(base, unique)], n + 1, base, names)
  {
    hide JoinPath, NumberedName, CountOf;
  }

  lemma NamedAll(r: seq<string>, base: string, contact: string, paths: seq<ItemPath>, timestamps: seq<string>)
    requires |timestamps| == |paths|
    requires forall i :: 0 <= i < |timestamps| ==> IsTimestamp(timestamps[i])
    requires Named(r, |paths|, base, DefaultNames(contact, paths, timestamps))
    ensures |r| == |paths| && NoDuplicates(r)
    ensures forall i :: 0 <= i < |paths| ==> r[i] == JoinPath(base, NameAt(DefaultNames(contact, paths, timestamps), i))
  {
    hide IsTimestamp, JoinPath, NameAt;
    forall i, j | 0 <= i < j < |r|
      ensures r[i] != r[j]
    {
      DestinationsDiffer(base, contact, paths, timestamps, i, j);
    }
  }

  lemma NothingCounted()
    ensures Counted(map[], [])
  {
  }

  // ----- why they differ -----

  /** The name without its suffix. */
  function Stem(contact: string, item: string, timestamp: string): string {
    contact + "_" + item + "_" + timestamp
  }

  function NumberedStem(stem: string, count: nat): string {
    if count <= 1 then stem else stem + "-" + Decimal(count)
  }

  predicate EndsInTimestamp(stem: string) {
    |stem| >= 15 && IsTimestamp(stem[|stem| - 15..])
  }

  lemma NumberedDefaultName(contact: string, item: string, timestamp: string, count: nat)
    requires IsTimestamp(timestamp)
    ensures var stem := Stem(contact, item, timestamp);
      && EndsInTimestamp(stem)
      && DefaultFileName(contact, item, timestamp) == stem + Suffix
      && NumberedName(DefaultFileName(contact, item, timestamp), count) == NumberedStem(stem, count) + Suffix
  {
    var stem := Stem(contact, item, timestamp);
    var name := stem + Suffix;
    assert stem[|stem| - 15..] == timestamp;
    assert name[|name| - |Suffix|..] == Suffix && name[..|name| - |Suffix|] == stem;
  }

  lemma DecimalDigits(n: nat)
    ensures IsDecimalDigits(Decimal(n)) && Decimal(n) != ""
  {
    DecimalValue(n);
  }

  lemma DecimalInjective(a: nat, b: nat)
    requires Decimal(a) == Decimal(b)
    ensures a == b
  {
    DecimalValue(a);
    DecimalValue(b);
  }

  /**
   * A numbered stem is never a stem: its number would have to be the last six digits of a
   * timestamp, and then the eight digits before would be the end of another timestamp, where
   * there is a hyphen.
   */
  lemma NumberedIsNoStem(stem: string, other: string, count: nat)
    requires EndsInTimestamp(stem) && EndsInTimestamp(other)
    ensures stem + "-" + Decimal(count) != other
  {
    var digits := Decimal(count);
    DecimalDigits(count);
    var name := stem + "-" + digits;
    LastHyphen(stem);
    LastHyphen(other);
    DigitsAfterHyphen(stem, digits);
    hide EndsInTimestamp;
    var hyphen := |other| - 7;
    if |name| == |other| {
      if |stem| == hyphen {
        assert name[hyphen - 7] == stem[hyphen - 7] && name[hyphen - 7] != other[hyphen - 7];
      } else if |stem| < hyphen {
        assert name[hyphen] != other[hyphen];
      } else {
        assert name[|stem|] != other[|stem|];
      }
    }
  }

  lemma LastHyphen(stem: string)
    requires EndsInTimestamp(stem)
    ensures stem[|stem| - 7] == '-' && IsDigit(stem[|stem| - 14])
    ensures forall i :: |stem| - 7 < i < |stem| ==> IsDigit(stem[i])
  {
    var t := stem[|stem| - 15..];
    assert stem[|stem| - 7] == t[8] && stem[|stem| - 14] == t[1];
    forall i | |stem| - 7 < i < |stem|
      ensures IsDigit(stem[i])
    {
      assert stem[i] == t[i - (|stem| - 15)];
    }
  }

  lemma NumberedStemInjective(a: string, m: nat, b: string, n: nat)
    requires EndsInTimestamp(a) && EndsInTimestamp(b) && 1 <= m && 1 <= n
    requires NumberedStem(a, m) == NumberedStem(b, n)
    ensures a == b && m == n
  {
    if m == 1 && n > 1 {
      NumberedIsNoStem(b, a, n);
    } else if n == 1 && m > 1 {
      NumberedIsNoStem(a, b, m);
    } else if m > 1 && n > 1 {
      SameNumber(a, Decimal(m), b, Decimal(n), m, n);
      DecimalInjective(m, n);
    }
  }

  lemma SameNumber(a: string, x: string, b: string, y: string, m: nat, n: nat)
    requires x == Decimal(m) && y == Decimal(n) && a + "-" + x == b + "-" + y
    ensures a == b && x == y
  {
    DecimalDigits(m);
    DecimalDigits(n);
    hide Decimal;
    var s := a + "-" + x;
    DigitsAfterHyphen(a, x);
    DigitsAfterHyphen(b, y);
    assert |a| == |b|;
    assert a == s[..|a|] && b == s[..|b|];
    assert x == s[|a| + 1..] && y == s[|b| + 1..];
  }

  lemma DigitsAfterHyphen(stem: string, digits: string)
    requires IsDecimalDigits(digits)
    ensures var s := stem + "-" + digits;
      s[|stem|] == '-' && forall i :: |stem| < i < |s| ==> IsDigit(s[i])
  {
    var s := stem + "-" + digits;
    forall i | |stem| < i < |s|
      ensures IsDigit(s[i])
    {
      assert s[i] == digits[i - |stem| - 1];
    }
  }

  lemma {:induction false} CountGrows(names: seq<string>, i: nat, j: nat)
    requires i < j < |names| && names[i] == names[j]
    ensures 1 <= CountOf(names[..i + 1], names[i]) < CountOf(names[..j + 1], names[i])
  {
    assert names[..i + 1][..i] == names[..i];
    assert names[..j + 1][..j] == names[..j];
    CountMonotonic(names, names[i], i + 1, j);
  }

  lemma {:induction false} CountMonotonic(names: seq<string>, name: string, i: nat, j: nat)
    requires i <= j <= |names|
    ensures CountOf(names[..i], name) <= CountOf(names[..j], name)
    decreases j
  {
    if i < j {
      assert names[..j][..j - 1] == names[..j - 1];
      CountMonotonic(names, name, i, j - 1);
    }
  }

  lemma CountPositive(names: seq<string>, i: nat)
    requires i < |names|
    ensures CountOf(names[..i + 1], names[i]) >= 1
  {
    assert names[..i + 1][..i] == names[..i];
  }

  /** Any two exports get names of their own, however their items and times coincide. */
  lemma NamesDiffer(contact: string, paths: seq<ItemPath>, timestamps: seq<string>, i: nat, j: nat)
    requires |timestamps| == |paths| && i < j < |paths|
    requires forall k :: 0 <= k < |timestamps| ==> IsTimestamp(timestamps[k])
    ensures var names := DefaultNames(contact, paths, timestamps); NameAt(names, i) != NameAt(names, j)
  {
    hide IsTimestamp, NumberedName, DefaultFileName, NumberedStem, Stem, EndsInTimestamp, CountOf, EndsWith;
    var names := DefaultNames(contact, paths, timestamps);
    var m, n := CountOf(names[..i + 1], names[i]), CountOf(names[..j + 1], names[j]);
    CountPositive(names, i);
    CountPositive(names, j);
    NumberedDefaultName(contact, paths[i].item, timestamps[i], m);
    NumberedDefaultName(contact, paths[j].item, timestamps[j], n);
    var a := Stem(contact, paths[i].item, timestamps[i]);
    var b := Stem(contact, paths[j].item, timestamps[j]);
    if NameAt(names, i) == NameAt(names, j) {
      SameStart(NumberedStem(a, m), NumberedStem(b, n), Suffix);
      NumberedStemInjective(a, m, b, n);
      CountGrows(names, i, j);
      assert false;
    }
  }

  lemma SameStart(a: string, b: string, suffix: string)
    requires a + suffix == b + suffix
    ensures a == b
  {
    assert a == (a + suffix)[..|a|] && b == (b + suffix)[..|b|];
  }

  /** All names start alike, so joining them to the directory keeps them apart. */
  lemma DestinationsDiffer(base: string, contact: string, paths: seq<ItemPath>, timestamps: seq<string>, i: nat, j: nat)
    requires |timestamps| == |paths| && i < j < |paths|
    requires forall k :: 0 <= k < |timestamps| ==> IsTimestamp(timestamps[k])
    ensures var names := DefaultNames(contact, paths, timestamps);
      JoinPath(base, NameAt(names, i)) != JoinPath(base, NameAt(names, j))
  {
    hide IsTimestamp, NumberedName, DefaultFileName, CountOf, JoinPath;
    var names := DefaultNames(contact, paths, timestamps);
    NamesDiffer(contact, paths, timestamps, i, j);
    StartsWithContact(contact, paths[i].item, timestamps[i], CountOf(names[..i + 1], names[i]));
    StartsWithContact(contact, paths[j].item, timestamps[j], CountOf(names[..j + 1], names[j]));
    JoinInjective(base, NameAt(names, i), NameAt(names, j));
  }

  lemma JoinInjective(base: string, a: string, b: string)
    requires a != b && a != "" && b != "" && a[0] == b[0]
    ensures JoinPath(base, a) != JoinPath(base, b)
  {
    var front := if base == "" || EndsWith(base, "/") then base else base + "/";
    if a[0] != '/' {
      assert (front + a)[|front|..] == a && (front + b)[|front|..] == b;
    }
  }

  lemma StartsWithContact(contact: string, item: string, timestamp: string, count: nat)
    requires IsTimestamp(timestamp)
    ensures var name := NumberedName(DefaultFileName(contact, item, timestamp), count);
      name != "" && name[0] == (if contact == "" then '_' else contact[0])
  {
    NumberedDefaultName(contact, item, timestamp, count);
    hide NumberedName, DefaultFileName, EndsInTimestamp, Decimal;
    var stem := Stem(contact, item, timestamp);
    assert stem[0] == if contact == "" then '_' else contact[0];
  }

  // ----- the timestamps are needed -----

  /** Without them the names could collide: the second "a.export" is the first "a-2.export". */
  lemma ArbitraryNamesCollide()
    ensures var names := ["a.export", "a.export", "a-2.export"]; NameAt(names, 1) == NameAt(names, 2)
  {
    var names := ["a.export", "a.export", "a-2.export"];
    assert names[..2][..1] == ["a.export"] && names[..3][..2] == names[..2];
    assert names[..1] == ["a.export"];
    assert CountOf(["a.export"], "a.export") == 1;
    assert CountOf(names[..2], "a.export") == 2;
    assert CountOf(names[..2], "a-2.export") == 0;
    assert Decimal(2) == "2";
    assert "a.export"[..1] == "a" && "a.export"[1..] == Suffix;
  }

  // ----- a whole share command -----

  /** Every planned item is exported once, to a file of its own. */
  method PlanShare(
    sources: seq<string>, contact: string, options: Planning.Options, outFile: Option<string>, outDir: Option<string>,
    list: Planning.Listing, clock: nat -> string
  ) returns (r: Result<seq<(ItemPath, string)>, Planning.Error>)
    requires forall i :: IsTimestamp(clock(i))
    ensures r.Ok? ==>
      && Planning.Expansions(sources, |sources|, options, list).Ok?
      && |r.value| == |FirstOccurrences(Planning.Expansions(sources, |sources|, options, list).value)|
      && (forall i :: 0 <= i < |r.value| ==>
            r.value[i].0 == FirstOccurrences(Planning.Expansions(sources, |sources|, options, list).value)[i])
      && (forall i, j :: 0 <= i < j < |r.value| ==> r.value[i].0 != r.value[j].0 && r.value[i].1 != r.value[j].1)
      && (outFile.Some? ==> |r.value| == 1 && r.value[0].1 == outFile.value)
  {
    hide Planning.Expansions, IsTimestamp;
    var planned := Planning.PlanShareItems(sources, options, outFile.Some?, list);
    if planned.Err? {
      return Err(planned.error);
    }
    var paths := planned.value;
    var timestamps := seq(|paths|, i requires 0 <= i < |paths| => clock(i));
    var files := Destinations(paths, contact, outFile, outDir, timestamps);
    return Ok(seq(|paths|, i requires 0 <= i < |paths| => (paths[i], files[i])));
  }

  // ----- names and paths, spelled out -----

  /** A relative name goes into the directory, an absolute one stands for itself. */
  lemma JoinPathMeans(base: string, name: string)
    ensures name != "" && name[0] == '/' ==> JoinPath(base, name) == name
    ensures (name == "" || name[0] != '/') ==>
      JoinPath(base, name) == base + (if base == "" || base[|base| - 1] == '/' then "" else "/") + name
  {
    assert base + "" + name == base + name;
  }

  /** A default name shows contact, item and time; the second and later ones of a name their count, before the ending. */
  lemma DefaultNameMeans(contact: string, item: string, timestamp: string, count: nat)
    requires IsTimestamp(timestamp)
    ensures DefaultFileName(contact, item, timestamp) == contact + "_" + item + "_" + timestamp + ".export"
    ensures NumberedName(DefaultFileName(contact, item, timestamp), count) ==
      contact + "_" + item + "_" + timestamp + (if count < 2 then "" else "-" + Decimal(count)) + ".export"
  {
    NumberedDefaultName(contact, item, timestamp, count);
    StemNumbered(Stem(contact, item, timestamp), count);
    hide *;
  }

  lemma StemNumbered(stem: string, count: nat)
    ensures NumberedStem(stem, count) == stem + if count < 2 then "" else "-" + Decimal(count)
  {
  }

  /** A name without the ending gets its count at its end. */
  lemma OtherNameNumbered(name: string, count: nat)
    requires |name| < 7 || name[|name| - 7..] != ".export"
    ensures NumberedName(name, count) == name + if count < 2 then "" else "-" + Decimal(count)
  {
  }
}
