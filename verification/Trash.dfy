/**
 * Numbered names in the trash: naming, the glob that lists them, reading the number back,
 * and the loop that moves an item to the next free number.
 */
module Trash {
  import opened Wrappers
  import opened Glob

  const MAX_ITEM_NAME_CHARS: nat := 255
  const MAX_NUMBER: nat := 999

  // ----- names -----

  function Digit(n: nat): char
    requires n < 10
  {
    '0' + n as char
  }

  /** The three digits of a number below 1000. */
  function Padded(n: nat): (s: string)
    requires n <= MAX_NUMBER
    ensures |s| == 3
  {
    [Digit(n / 100), Digit(n / 10 % 10), Digit(n % 10)]
  }

  predicate IsDigit(c: char) {
    '0' <= c <= '9'
  }

  function DigitsNumber(s: string): (n: nat)
    requires |s| == 3 && IsDigit(s[0]) && IsDigit(s[1]) && IsDigit(s[2])
    ensures n <= MAX_NUMBER
  {
    (s[0] as int - '0' as int) * 100 + (s[1] as int - '0' as int) * 10 + (s[2] as int - '0' as int)
  }

  function Take(s: string, n: nat): string {
    if n < |s| then s[..n] else s
  }

  function Truncated(item: string, suffix: string): string {
    Take(item, if |suffix| <= MAX_ITEM_NAME_CHARS then MAX_ITEM_NAME_CHARS - |suffix| else 0)
  }

  function TrashFallbackName(item: string, createdAt: string, number: Option<nat>): string
    requires number.Some? ==> number.value <= MAX_NUMBER
  {
    var suffix :=
      if number.Some? then " (" + createdAt + "," + Padded(number.value) + ")" else " (" + createdAt + ")";
    Truncated(item, suffix) + suffix
  }

  /** What all numbered names of an item start with: the name with number 0, less "000)". */
  function NumberedPrefix(item: string, createdAt: string): string {
    var zero := TrashFallbackName(item, createdAt, Some(0));
    zero[..|zero| - 4]
  }

  method TrashNumberedGlob(item: string, createdAt: string) returns (pattern: string)
    ensures pattern == Escaped(NumberedPrefix(item, createdAt)) + "[0-9][0-9][0-9])"
  {
    var escaped := EscapeSqliteGlob(NumberedPrefix(item, createdAt));
    pattern := escaped + "[0-9][0-9][0-9])";
  }

  datatype TrashError = InvalidSuffix | LimitReached | MoveFailed

  function TrashNumber(name: string, item: string, createdAt: string): Result<nat, TrashError> {
    var prefix := NumberedPrefix(item, createdAt);
    if !(prefix <= name) then Err(InvalidSuffix)
    else
      var value := name[|prefix|..];
      if value == "" || value[|value| - 1] != ')' then Err(InvalidSuffix)
      else
        var digits := value[..|value| - 1];
        if |digits| == 3 && IsDigit(digits[0]) && IsDigit(digits[1]) && IsDigit(digits[2])
        then Ok(DigitsNumber(digits))
        else Err(InvalidSuffix)
  }

  function NextTrashNumber(latest: Option<string>, item: string, createdAt: string): Result<nat, TrashError> {
    match latest
    case None => Ok(1)
    case Some(name) =>
      match TrashNumber(name, item, createdAt)
      case Err(e) => Err(e)
      case Ok(n) => if n >= MAX_NUMBER then Err(LimitReached) else Ok(n + 1)
  }

  // ----- names and numbers correspond -----

  /** All numbers give names of the same length, however much of the item is cut off. */
  lemma NumberedNameShape(item: string, createdAt: string, n: nat)
    requires n <= MAX_NUMBER
    ensures TrashFallbackName(item, createdAt, Some(n)) == NumberedPrefix(item, createdAt) + Padded(n) + ")"
  {
    var front := " (" + createdAt + ",";
    var zero, suffix := front + Padded(0) + ")", front + Padded(n) + ")";
    assert |zero| == |suffix|;
    var cut := Truncated(item, suffix);
    var name := cut + zero;
    assert name[..|name| - 4] == cut + front;
    assert TrashFallbackName(item, createdAt, Some(n)) == cut + front + Padded(n) + ")";
  }

  lemma PaddedRoundTrip(n: nat)
    requires n <= MAX_NUMBER
    ensures IsDigit(Padded(n)[0]) && IsDigit(Padded(n)[1]) && IsDigit(Padded(n)[2])
    ensures DigitsNumber(Padded(n)) == n
  {
  }

  lemma DigitsRoundTrip(s: string)
    requires |s| == 3 && IsDigit(s[0]) && IsDigit(s[1]) && IsDigit(s[2])
    ensures Padded(DigitsNumber(s)) == s
  {
    var a, b, c := s[0] as int - '0' as int, s[1] as int - '0' as int, s[2] as int - '0' as int;
    var n := DigitsNumber(s);
    assert n == 100 * a + 10 * b + c;
    assert n / 100 == a && n / 10 == 10 * a + b && n % 10 == c;
  }

  /** The number parser accepts exactly the numbered names of the item, each with its number. */
  lemma TrashNumberIff(name: string, item: string, createdAt: string, n: nat)
    ensures TrashNumber(name, item, createdAt) == Ok(n)
      <==> n <= MAX_NUMBER && name == TrashFallbackName(item, createdAt, Some(n))
  {
    hide TrashFallbackName, NumberedPrefix, Padded, DigitsNumber;
    var prefix := NumberedPrefix(item, createdAt);
    if n <= MAX_NUMBER && name == TrashFallbackName(item, createdAt, Some(n)) {
      NumberedNameShape(item, createdAt, n);
      PaddedRoundTrip(n);
      assert name == prefix + (Padded(n) + ")");
      assert name[|prefix|..] == Padded(n) + ")";
      assert (Padded(n) + ")")[..3] == Padded(n);
    }
    if TrashNumber(name, item, createdAt) == Ok(n) {
      var value := name[|prefix|..];
      var digits := value[..|value| - 1];
      DigitsRoundTrip(digits);
      NumberedNameShape(item, createdAt, n);
      assert value == digits + ")";
      assert name == prefix + value;
    }
  }

  // ----- the glob lists exactly the numbered names -----

  lemma DigitClass(c: char, p: string)
    ensures MatchSet("0-9]" + p, c) == Some((IsDigit(c), p))
  {
    var q := "0-9]" + p;
    assert q[0] == '0' && q[1..][0] == '-' && q[1..][1] == '9' && |q[1..]| > 1;
    assert q[1..][2..][0] == ']' && q[1..][2..][1..] == p;
    assert InSet(q[1..][2..], c, c == '0' || '0' <= c <= '9', None) == Some((IsDigit(c), p));
    assert InSet(q[1..], c, c == '0', Some('0')) == Some((IsDigit(c), p));
    assert InSet(q, c, false, None) == InSet(q[1..], c, c == '0', Some('0'));
  }

  lemma DigitMatches(p: string, s: string)
    ensures Matches("[0-9]" + p, s) <==> s != "" && IsDigit(s[0]) && Matches(p, s[1..])
  {
    var q := "[0-9]" + p;
    assert q[0] == '[' && q[1..] == "0-9]" + p;
    if s != "" {
      DigitClass(s[0], p);
    }
  }

  lemma ClosingMatches(s: string)
    ensures Matches(")", s) <==> s == ")"
  {
    assert ")"[1..] == "";
  }

  lemma ThreeDigitsMatch(s: string)
    ensures Matches("[0-9][0-9][0-9])", s)
      <==> |s| == 4 && IsDigit(s[0]) && IsDigit(s[1]) && IsDigit(s[2]) && s[3] == ')'
  {
    hide Matches, IsDigit;
    var one := "[0-9]" + ")";
    var two := "[0-9]" + one;
    assert "[0-9][0-9][0-9])" == "[0-9]" + two;
    DigitMatches(two, s);
    if s != "" {
      DigitMatches(one, s[1..]);
      if |s| > 1 {
        DigitMatches(")", s[1..][1..]);
        if |s| > 2 {
          ClosingMatches(s[1..][1..][1..]);
        }
      }
    }
  }

  /**
   * The pattern lists a name exactly when it is the item's name for some number from 0 to 999,
   * also when the item's own name had to be truncated or contains wildcards.
   */
  lemma NumberedGlobMatches(item: string, createdAt: string, name: string)
    requires NulFree(item) && NulFree(createdAt) && NulFree(name)
    ensures SqliteGlob(Escaped(NumberedPrefix(item, createdAt)) + "[0-9][0-9][0-9])", name)
      <==> exists n: nat :: n <= MAX_NUMBER && name == TrashFallbackName(item, createdAt, Some(n))
  {
    hide TrashFallbackName, NumberedPrefix, Matches, TrashNumber;
    var prefix, tail := NumberedPrefix(item, createdAt), "[0-9][0-9][0-9])";
    PrefixNulFree(item, createdAt);
    CStringEscaped(prefix, tail);
    CStringNulFree(prefix);
    CStringNulFree(tail);
    CStringNulFree(name);
    EscapedPrefixMatches(prefix, tail, name);
    if prefix <= name {
      ThreeDigitsMatch(name[|prefix|..]);
    }
    NumberedIff(item, createdAt, name);
  }

  lemma PrefixNulFree(item: string, createdAt: string)
    requires NulFree(item) && NulFree(createdAt)
    ensures NulFree(NumberedPrefix(item, createdAt))
  {
    NumberedNameShape(item, createdAt, 0);
  }

  ghost predicate NumberedTail(name: string, prefix: string) {
    && prefix <= name && |name| == |prefix| + 4
    && IsDigit(name[|prefix|]) && IsDigit(name[|prefix| + 1]) && IsDigit(name[|prefix| + 2])
    && name[|prefix| + 3] == ')'
  }

  lemma NumberedIff(item: string, createdAt: string, name: string)
    ensures NumberedTail(name, NumberedPrefix(item, createdAt))
      <==> exists n: nat :: n <= MAX_NUMBER && name == TrashFallbackName(item, createdAt, Some(n))
  {
    hide TrashFallbackName, NumberedPrefix, DigitsNumber;
    var prefix := NumberedPrefix(item, createdAt);
    if NumberedTail(name, prefix) {
      var value := name[|prefix|..];
      assert value[..3] == value[..|value| - 1];
      var n := DigitsNumber(value[..3]);
      TrashNumberIff(name, item, createdAt, n);
    }
    forall n: nat | n <= MAX_NUMBER && name == TrashFallbackName(item, createdAt, Some(n))
      ensures NumberedTail(name, prefix)
    {
      NumberedNameShape(item, createdAt, n);
      PaddedRoundTrip(n);
    }
  }

  // ----- lexicographic order is numeric order -----

  /** SQLite's default collation on names: by code point, a proper prefix first. */
  predicate Before(a: string, b: string) {
    if b == "" then false
    else if a == "" then true
    else if a[0] != b[0] then a[0] < b[0]
    else Before(a[1..], b[1..])
  }

  lemma {:induction false} BeforeAfterPrefix(prefix: string, a: string, b: string)
    ensures Before(prefix + a, prefix + b) <==> Before(a, b)
  {
    if prefix == "" {
      assert prefix + a == a && prefix + b == b;
    } else {
      assert (prefix + a)[1..] == prefix[1..] + a && (prefix + b)[1..] == prefix[1..] + b;
      BeforeAfterPrefix(prefix[1..], a, b);
    }
  }

  /** Comparing three digits from the left compares the numbers they spell. */
  lemma DigitsOrder(a: nat, b: nat, c: nat, x: nat, y: nat, z: nat)
    requires a < 10 && b < 10 && c < 10 && x < 10 && y < 10 && z < 10
    ensures (if a != x then a < x else if b != y then b < y else c < z)
      <==> 100 * a + 10 * b + c < 100 * x + 10 * y + z
  {
  }

  lemma BeforeOfFour(a: string, b: string)
    requires |a| == |b| == 4 && a[3] == b[3]
    ensures Before(a, b) <==>
      if a[0] != b[0] then a[0] < b[0] else if a[1] != b[1] then a[1] < b[1] else a[2] < b[2]
  {
    var a1, b1 := a[1..], b[1..];
    var a2, b2 := a1[1..], b1[1..];
    var a3, b3 := a2[1..], b2[1..];
    assert a3[1..] == "" && b3[1..] == "";
    assert !Before(a3, b3);
    assert Before(a2, b2) <==> a[2] < b[2];
    assert Before(a1, b1) <==> if a[1] != b[1] then a[1] < b[1] else Before(a2, b2);
  }

  lemma DigitLess(x: nat, y: nat)
    requires x < 10 && y < 10
    ensures Digit(x) < Digit(y) <==> x < y
    ensures Digit(x) == Digit(y) <==> x == y
  {
  }

  lemma ThreeDigits(n: nat)
    ensures n == 100 * (n / 100) + 10 * (n / 10 % 10) + n % 10
  {
    assert n / 10 / 10 == n / 100;
    assert n / 10 == 10 * (n / 100) + n / 10 % 10;
  }

  lemma PaddedOrder(m: nat, n: nat)
    requires m <= MAX_NUMBER && n <= MAX_NUMBER
    ensures Before(Padded(m) + ")", Padded(n) + ")") <==> m < n
  {
    hide Before, Digit;
    BeforeOfFour(Padded(m) + ")", Padded(n) + ")");
    var a, b, c := m / 100, m / 10 % 10, m % 10;
    var x, y, z := n / 100, n / 10 % 10, n % 10;
    ThreeDigits(m);
    ThreeDigits(n);
    DigitLess(a, x);
    DigitLess(b, y);
    DigitLess(c, z);
    DigitsOrder(a, b, c, x, y, z);
  }

  lemma NumberedOrder(item: string, createdAt: string, m: nat, n: nat)
    requires m <= MAX_NUMBER && n <= MAX_NUMBER
    ensures Before(TrashFallbackName(item, createdAt, Some(m)), TrashFallbackName(item, createdAt, Some(n)))
      <==> m < n
  {
    hide TrashFallbackName, NumberedPrefix, Padded;
    var prefix := NumberedPrefix(item, createdAt);
    NumberedNameShape(item, createdAt, m);
    NumberedNameShape(item, createdAt, n);
    assert prefix + Padded(m) + ")" == prefix + (Padded(m) + ")");
    assert prefix + Padded(n) + ")" == prefix + (Padded(n) + ")");
    BeforeAfterPrefix(prefix, Padded(m) + ")", Padded(n) + ")");
    PaddedOrder(m, n);
  }

  // ----- moving to the trash -----

  /** The names of the visible items in the trash, as one listing sees them. */
  ghost predicate ListedFirst(names: set<string>, pattern: string, first: Option<string>) {
    match first
    case None => forall name :: name in names ==> !SqliteGlob(pattern, name)
    case Some(f) =>
      && f in names && SqliteGlob(pattern, f)
      && forall name :: name in names && SqliteGlob(pattern, name) && name != f ==> Before(name, f)
  }

  ghost predicate HasNumber(names: set<string>, item: string, createdAt: string, n: nat) {
    n <= MAX_NUMBER && TrashFallbackName(item, createdAt, Some(n)) in names
  }

  ghost predicate Readable(names: set<string>) {
    forall name :: name in names ==> NulFree(name)
  }

  /** All numbers in use are below `n`. */
  ghost predicate NumbersBelow(names: set<string>, item: string, createdAt: string, n: nat) {
    forall k: nat :: HasNumber(names, item, createdAt, k) ==> k < n
  }

  lemma FewerNames(names: set<string>, more: set<string>, item: string, createdAt: string, n: nat)
    requires names <= more && NumbersBelow(more, item, createdAt, n)
    ensures NumbersBelow(names, item, createdAt, n)
  {
    hide TrashFallbackName;
    assert forall k: nat :: HasNumber(names, item, createdAt, k) ==> HasNumber(more, item, createdAt, k);
  }

  /**
   * The first name of a descending listing carries the largest number, so the next number is
   * free and above all numbers in use; asking for it fails only when 999 is taken.
   */
  lemma NextNumberIsFree(names: set<string>, item: string, createdAt: string, first: Option<string>)
    requires NulFree(item) && NulFree(createdAt) && Readable(names)
    requires ListedFirst(names, Escaped(NumberedPrefix(item, createdAt)) + "[0-9][0-9][0-9])", first)
    ensures
      match NextTrashNumber(first, item, createdAt)
      case Ok(next) =>
        && 1 <= next <= MAX_NUMBER
        && (forall n: nat :: HasNumber(names, item, createdAt, n) ==> n < next)
      case Err(e) => e == LimitReached && HasNumber(names, item, createdAt, MAX_NUMBER)
  {
    hide TrashFallbackName, NumberedPrefix, TrashNumber, SqliteGlob, Before;
    var pattern := Escaped(NumberedPrefix(item, createdAt)) + "[0-9][0-9][0-9])";
    forall n: nat | HasNumber(names, item, createdAt, n)
      ensures SqliteGlob(pattern, TrashFallbackName(item, createdAt, Some(n)))
    {
      NumberedGlobMatches(item, createdAt, TrashFallbackName(item, createdAt, Some(n)));
    }
    if first.Some? {
      NumberedGlobMatches(item, createdAt, first.value);
      var latest: nat :| latest <= MAX_NUMBER && first.value == TrashFallbackName(item, createdAt, Some(latest));
      TrashNumberIff(first.value, item, createdAt, latest);
      forall n: nat | HasNumber(names, item, createdAt, n)
        ensures n <= latest
      {
        NumberedOrder(item, createdAt, n, latest);
        NumberedOrder(item, createdAt, latest, n);
      }
    } else {
      forall n: nat | HasNumber(names, item, createdAt, n)
        ensures false
      {
      }
    }
  }

  datatype MoveResult = Moved | Exists | Failed

  /**
   * The agent's trash, to which other clients may add at any time but from which none deletes.
   * It remembers how many moves met a name in use, and whether one failed otherwise.
   */
  class TrashDir {
    var names: set<string>
    var conflicts: nat
    var failed: bool

    constructor ()
      ensures names == {} && conflicts == 0 && !failed
    {
      names, conflicts, failed := {}, 0, false;
    }

    method OthersAdd()
      requires Readable(names)
      modifies this`names
      ensures old(names) <= names && Readable(names)
    {
      var more: set<string> := *;
      var kept := set name | name in more && NulFree(name);
      names := names + kept;
    }

    /** One page of one entry, in descending order of names. */
    method FirstDescending(pattern: string) returns (first: Option<string>)
      ensures ListedFirst(names, pattern, first)
    {
      var left := names;
      first := None;
      while left != {}
        invariant left <= names && ListedFirst(names - left, pattern, first)
        decreases |left|
      {
        var name :| name in left;
        ghost var seen := names - left;
        if SqliteGlob(pattern, name) && (first == None || Before(first.value, name)) {
          ListedLater(seen, pattern, first, name);
          first := Some(name);
        } else {
          ListedEarlier(seen, pattern, first, name);
        }
        left := left - {name};
        assert names - left == seen + {name};
      }
      assert names - {} == names;
    }

    method MoveHere(destination: string) returns (r: MoveResult)
      requires Readable(names) && NulFree(destination)
      modifies this
      ensures Readable(names)
      ensures r == Moved ==> destination !in old(names) && names == old(names) + {destination}
      ensures r == Exists ==> destination in names && names == old(names)
      ensures r == Failed ==> names == old(names)
      ensures conflicts == old(conflicts) + if r == Exists then 1 else 0
      ensures failed == (old(failed) || r == Failed)
    {
      var broken: bool := *;
      if broken {
        failed := true;
        return Failed;
      }
      if destination in names {
        conflicts := conflicts + 1;
        return Exists;
      }
      names := names + {destination};
      r := Moved;
    }
  }

  lemma {:induction false} BeforeTotal(a: string, b: string)
    ensures a == b || Before(a, b) || Before(b, a)
  {
    if a != "" && b != "" && a[0] == b[0] {
      BeforeTotal(a[1..], b[1..]);
      assert a == [a[0]] + a[1..] && b == [b[0]] + b[1..];
    }
  }

  lemma {:induction false} BeforeTransitive(a: string, b: string, c: string)
    requires Before(a, b) && Before(b, c)
    ensures Before(a, c)
  {
    if a != "" && b[0] == a[0] && c[0] == a[0] {
      BeforeTransitive(a[1..], b[1..], c[1..]);
    }
  }

  lemma {:induction false} ListedLater(seen: set<string>, pattern: string, first: Option<string>, name: string)
    requires ListedFirst(seen, pattern, first) && SqliteGlob(pattern, name)
    requires first == None || Before(first.value, name)
    ensures ListedFirst(seen + {name}, pattern, Some(name))
  {
    hide SqliteGlob, Before;
    forall other | other in seen && SqliteGlob(pattern, other) && other != name
      ensures Before(other, name)
    {
      if other != first.value {
        BeforeTransitive(other, first.value, name);
      }
    }
  }

  lemma ListedEarlier(seen: set<string>, pattern: string, first: Option<string>, name: string)
    requires ListedFirst(seen, pattern, first)
    requires SqliteGlob(pattern, name) ==> first.Some? && !Before(first.value, name)
    ensures ListedFirst(seen + {name}, pattern, first)
  {
    hide SqliteGlob, Before;
    if first.Some? {
      BeforeTotal(first.value, name);
    }
  }

  /**
   * Moves an item to the next free number, starting over whenever another client took that
   * number first. The number it ends with is above all that were in use at the beginning. It
   * gives up only when 999 is taken or a move fails, and meets at most 999 conflicts.
   */
  method MoveItemToNumberedTrashName(trash: TrashDir, item: string, createdAt: string)
    returns (r: Result<(), TrashError>, destination: string)
    requires NulFree(item) && NulFree(createdAt) && Readable(trash.names)
    modifies trash
    ensures old(trash.conflicts) <= trash.conflicts <= old(trash.conflicts) + 999
    ensures old(trash.names) <= trash.names
    ensures r.Ok? ==> destination in trash.names && destination !in old(trash.names)
                      && exists n: nat :: 1 <= n <= MAX_NUMBER && destination == TrashFallbackName(item, createdAt, Some(n))
                                          && NumbersBelow(old(trash.names), item, createdAt, n)
    ensures r.Err? ==> r.error == LimitReached || (r.error == MoveFailed && trash.failed)
    ensures r == Err(LimitReached) ==> HasNumber(trash.names, item, createdAt, MAX_NUMBER)
  {
    hide SqliteGlob, TrashFallbackName, NumberedPrefix, TrashNumber, NextTrashNumber;
    destination := "";
    ghost var taken: nat := 0;
    while true
      invariant Readable(trash.names) && old(trash.names) <= trash.names
      invariant old(trash.conflicts) <= trash.conflicts <= old(trash.conflicts) + taken
      invariant taken <= MAX_NUMBER
      invariant taken > 0 ==> HasNumber(trash.names, item, createdAt, taken)
      decreases MAX_NUMBER - taken
    {
      trash.OthersAdd();
      var pattern := TrashNumberedGlob(item, createdAt);
      var first := trash.FirstDescending(pattern);
      NextNumberIsFree(trash.names, item, createdAt, first);
      assert taken > 0 ==> HasNumber(trash.names, item, createdAt, taken);
      var next := NextTrashNumber(first, item, createdAt);
      if next.Err? {
        return Err(next.error), destination;
      }
      destination := TrashFallbackName(item, createdAt, Some(next.value));
      NumberedNulFree(item, createdAt, next.value);
      assert !HasNumber(trash.names, item, createdAt, next.value);
      FewerNames(old(trash.names), trash.names, item, createdAt, next.value);
      trash.OthersAdd();
      var moved := trash.MoveHere(destination);
      match moved {
        case Moved =>
          return Ok(()), destination;
        case Failed =>
          return Err(MoveFailed), destination;
        case Exists =>
          taken := next.value;
      }
    }
  }

  lemma NumberedNulFree(item: string, createdAt: string, n: nat)
    requires NulFree(item) && NulFree(createdAt) && n <= MAX_NUMBER
    ensures NulFree(TrashFallbackName(item, createdAt, Some(n)))
  {
  }

  // ----- what the names look like -----

  /** The decimal digits of a number below 1000, most significant first. */
  ghost predicate ThreeDigitsOf(s: string, n: nat) {
    && |s| == 3
    && exists a: nat, b: nat, c: nat ::
         a < 10 && b < 10 && c < 10 && n == 100 * a + 10 * b + c
         && s == [("0123456789")[a], ("0123456789")[b], ("0123456789")[c]]
  }

  lemma PaddedMeans(n: nat)
    requires n <= 999
    ensures ThreeDigitsOf(Padded(n), n)
  {
    var a, b, c := n / 100, n / 10 % 10, n % 10;
    assert n == 100 * a + 10 * b + c;
    assert forall k: nat :: k < 10 ==> Digit(k) == ("0123456789")[k];
  }

  /** The item's name, cut so that 255 characters are not exceeded, and then the suffix whole. */
  ghost predicate CutBefore(name: string, item: string, suffix: string) {
    exists kept: string ::
      && name == kept + suffix && kept <= item
      && (kept != item ==> if |suffix| <= 255 then |name| == 255 else kept == "")
      && (|suffix| <= 255 ==> |name| <= 255)
  }

  lemma TruncatedMeans(item: string, suffix: string)
    ensures CutBefore(Truncated(item, suffix) + suffix, item, suffix)
  {
    var kept := Truncated(item, suffix);
    assert kept <= item;
  }

  /** A fallback name is the item's name, cut if need be, with the time and the number in parentheses. */
  lemma FallbackNameMeans(item: string, createdAt: string, number: Option<nat>)
    requires number.Some? ==> number.value <= 999
    ensures
      var name := TrashFallbackName(item, createdAt, number);
      match number
      case None => CutBefore(name, item, " (" + createdAt + ")")
      case Some(n) =>
        exists digits :: ThreeDigitsOf(digits, n) && CutBefore(name, item, " (" + createdAt + "," + digits + ")")
  {
    hide Truncated, ThreeDigitsOf, CutBefore, Padded;
    match number {
      case None => TruncatedMeans(item, " (" + createdAt + ")");
      case Some(n) =>
        PaddedMeans(n);
        TruncatedMeans(item, " (" + createdAt + "," + Padded(n) + ")");
    }
  }

  /** The first number is 1, each further one the next, and after 999 there is none. */
  lemma NextNumberMeans(item: string, createdAt: string, n: nat)
    requires n <= 999
    ensures NextTrashNumber(None, item, createdAt) == Ok(1)
    ensures NextTrashNumber(Some(TrashFallbackName(item, createdAt, Some(n))), item, createdAt) ==
      if n == 999 then Err(LimitReached) else Ok(n + 1)
  {
    TrashNumberIff(TrashFallbackName(item, createdAt, Some(n)), item, createdAt, n);
    hide TrashFallbackName, TrashNumber;
  }

  /** Any other name is an error of its own kind. */
  lemma OtherNamesRefused(name: string, item: string, createdAt: string)
    requires forall n: nat :: n <= 999 ==> name != TrashFallbackName(item, createdAt, Some(n))
    ensures TrashNumber(name, item, createdAt) == Err(InvalidSuffix)
    ensures NextTrashNumber(Some(name), item, createdAt) == Err(InvalidSuffix)
  {
    forall n: nat
      ensures TrashNumber(name, item, createdAt) != Ok(n)
    {
      TrashNumberIff(name, item, createdAt, n);
    }
    OnlyInvalidSuffix(name, item, createdAt);
    hide TrashNumber, TrashFallbackName;
  }

  lemma OnlyInvalidSuffix(name: string, item: string, createdAt: string)
    ensures match TrashNumber(name, item, createdAt)
      case Ok(_) => true
      case Err(e) => e == InvalidSuffix
  {
    hide TrashFallbackName, NumberedPrefix, DigitsNumber;
  }
}
