/**
 * SQLite's GLOB operator and the escaping that makes a pattern literal. Patterns and strings
 * end at a NUL character, as SQLite reads them.
 */
module Glob {
  import opened Wrappers

  function CString(s: string): (t: string)
    ensures |t| <= |s|
  {
    if s == "" || s[0] == '\0' then "" else [s[0]] + CString(s[1..])
  }

  predicate NulFree(s: string) {
    '\0' !in s
  }

  lemma {:induction false} CStringNulFree(s: string)
    ensures NulFree(CString(s))
    ensures NulFree(s) ==> CString(s) == s
  {
    if s != "" {
      CStringNulFree(s[1..]);
    }
  }

  /**
   * The rest of a bracket expression after its first position: whether `c` is in the set, and
   * the pattern after the closing bracket. `prior` is the possible start of a range.
   */
  function InSet(p: string, c: char, seen: bool, prior: Option<char>): (r: Option<(bool, string)>)
    ensures r.Some? ==> |r.value.1| < |p|
  {
    if p == "" then None
    else if p[0] == ']' then Some((seen, p[1..]))
    else if p[0] == '-' && |p| > 1 && p[1] != ']' && prior.Some? then
      InSet(p[2..], c, seen || prior.value <= c <= p[1], None)
    else InSet(p[1..], c, seen || c == p[0], Some(p[0]))
  }

  /** A bracket expression without its opening bracket; a leading caret inverts it. */
  function MatchSet(p: string, c: char): (r: Option<(bool, string)>)
    ensures r.Some? ==> |r.value.1| < |p|
  {
    var inverted := p != "" && p[0] == '^';
    var q := if inverted then p[1..] else p;
    var r := if q != "" && q[0] == ']' then InSet(q[1..], c, c == ']', None) else InSet(q, c, false, None);
    match r
    case None => None
    case Some((seen, rest)) => Some((seen != inverted, rest))
  }

  predicate Matches(p: string, s: string)
    decreases |p| + |s|
  {
    if p == "" then s == ""
    else if p[0] == '*' then Matches(p[1..], s) || (s != "" && Matches(p, s[1..]))
    else if s == "" then false
    else if p[0] == '?' then Matches(p[1..], s[1..])
    else if p[0] == '[' then
      match MatchSet(p[1..], s[0])
      case None => false
      case Some((matched, rest)) => matched && Matches(rest, s[1..])
    else p[0] == s[0] && Matches(p[1..], s[1..])
  }

  predicate SqliteGlob(pattern: string, s: string) {
    Matches(CString(pattern), CString(s))
  }

  // ----- escaping -----

  function EscapeChar(c: char): string {
    if c == '*' then "[*]" else if c == '?' then "[?]" else if c == '[' then "[[]" else [c]
  }

  function Escaped(s: string): string {
    if s == "" then "" else EscapeChar(s[0]) + Escaped(s[1..])
  }

  lemma {:induction false} EscapedConcat(a: string, b: string)
    ensures Escaped(a + b) == Escaped(a) + Escaped(b)
  {
    if a == "" {
      assert a + b == b;
    } else {
      assert (a + b)[1..] == a[1..] + b;
      EscapedConcat(a[1..], b);
    }
  }

  method EscapeSqliteGlob(value: string) returns (escaped: string)
    ensures escaped == Escaped(value)
  {
    escaped := "";
    for i := 0 to |value|
      invariant escaped == Escaped(value[..i])
    {
      assert value[..i + 1] == value[..i] + [value[i]];
      EscapedConcat(value[..i], [value[i]]);
      assert Escaped([value[i]]) == EscapeChar(value[i]);
      var c := value[i];
      if c == '*' {
        escaped := escaped + "[*]";
      } else if c == '?' {
        escaped := escaped + "[?]";
      } else if c == '[' {
        escaped := escaped + "[[]";
      } else {
        escaped := escaped + [c];
      }
    }
    assert value[..|value|] == value;
  }

  lemma SingletonSet(c: char, x: char, p: string)
    requires c == '*' || c == '?' || c == '['
    ensures MatchSet([c, ']'] + p, x) == Some((x == c, p))
  {
    var q := [c, ']'] + p;
    assert q[1..][0] == ']' && q[1..][1..] == p;
    assert InSet(q[1..], x, x == c, Some(c)) == Some((x == c, p));
    assert InSet(q, x, false, None) == InSet(q[1..], x, x == c, Some(c));
  }

  /** An escaped character consumes exactly itself. */
  lemma EscapedCharMatches(c: char, p: string, s: string)
    ensures Matches(EscapeChar(c) + p, s) <==> s != "" && s[0] == c && Matches(p, s[1..])
  {
    var q := EscapeChar(c) + p;
    if c == '*' || c == '?' || c == '[' {
      assert q[0] == '[' && q[1..] == [c, ']'] + p;
      if s != "" {
        SingletonSet(c, s[0], p);
      }
    } else {
      assert q[0] == c && q[1..] == p;
    }
  }

  /** An escaped prefix consumes exactly itself, whatever pattern follows. */
  lemma {:induction false} EscapedPrefixMatches(prefix: string, p: string, s: string)
    ensures Matches(Escaped(prefix) + p, s) <==> prefix <= s && Matches(p, s[|prefix|..])
  {
    if prefix == "" {
      assert Escaped(prefix) + p == p && s[0..] == s;
    } else {
      assert Escaped(prefix) + p == EscapeChar(prefix[0]) + (Escaped(prefix[1..]) + p);
      EscapedCharMatches(prefix[0], Escaped(prefix[1..]) + p, s);
      if s != "" {
        EscapedPrefixMatches(prefix[1..], p, s[1..]);
        assert s[0] == prefix[0] ==> (prefix <= s <==> prefix[1..] <= s[1..]);
        assert prefix <= s ==> s[1..][|prefix| - 1..] == s[|prefix|..];
      }
    }
  }

  lemma {:induction false} CStringEscaped(s: string, p: string)
    ensures CString(Escaped(s) + p) == Escaped(CString(s)) + (if NulFree(s) then CString(p) else "")
  {
    hide EscapeChar;
    if s == "" {
      assert Escaped(s) + p == p;
      assert Escaped(CString(s)) + CString(p) == CString(p);
    } else {
      var c, tail := EscapeChar(s[0]), Escaped(s[1..]) + p;
      var after := if NulFree(s[1..]) then CString(p) else "";
      Regroup(c, Escaped(s[1..]), p);
      CStringEscaped(s[1..], p);
      CStringOfEscapedChar(s[0], tail);
      assert NulFree(s) <==> s[0] != '\0' && NulFree(s[1..]);
      if s[0] == '\0' {
        assert CString(s) == "" && Escaped(CString(s)) + "" == "";
      } else {
        EscapedCString(s);
        Regroup(c, Escaped(CString(s[1..])), after);
      }
    }
  }

  lemma Regroup(a: string, b: string, c: string)
    ensures (a + b) + c == a + (b + c)
  {
  }

  lemma EscapedCString(s: string)
    requires s != "" && s[0] != '\0'
    ensures Escaped(CString(s)) == EscapeChar(s[0]) + Escaped(CString(s[1..]))
  {
    assert CString(s)[1..] == CString(s[1..]);
  }

  lemma CStringOfEscapedChar(c: char, p: string)
    ensures CString(EscapeChar(c) + p) == if c == '\0' then "" else EscapeChar(c) + CString(p)
  {
    var q := EscapeChar(c) + p;
    if |EscapeChar(c)| == 3 {
      assert q[1..][1..][1..] == p;
      assert q == [q[0], q[1], q[2]] + p;
      assert CString(q[1..][1..]) == [q[2]] + CString(p);
      assert CString(q[1..]) == [q[1]] + CString(q[1..][1..]);
    } else {
      assert q[1..] == p;
    }
  }

  /** An escaped name matches exactly the names that are the same as far as SQLite reads them. */
  lemma EscapedMatchesSameReading(s: string, t: string)
    ensures SqliteGlob(Escaped(s), t) <==> CString(t) == CString(s)
  {
    CStringEscaped(s, "");
    assert Escaped(s) + "" == Escaped(s);
    assert Escaped(CString(s)) + "" == Escaped(CString(s));
    EscapedPrefixMatches(CString(s), "", CString(t));
  }

  /** Among names without NUL that is the name itself. */
  lemma EscapedMatchesItself(s: string, t: string)
    requires NulFree(s) && NulFree(t)
    ensures SqliteGlob(Escaped(s), t) <==> t == s
  {
    EscapedMatchesSameReading(s, t);
    CStringNulFree(s);
    CStringNulFree(t);
  }

  // ----- the operator itself -----

  /** A character that means nothing special, in a pattern or in a bracket. */
  predicate Ordinary(c: char) {
    c != '*' && c != '?' && c != '[' && c != ']' && c != '^' && c != '-'
  }

  /** Any text, any character, a character itself. */
  lemma PatternMeans(p: string, s: string, c: char)
    requires Ordinary(c)
    ensures Matches("", s) <==> s == ""
    ensures Matches("*", s)
    ensures Matches("?" + p, s) <==> s != "" && Matches(p, s[1..])
    ensures Matches([c] + p, s) <==> s != "" && s[0] == c && Matches(p, s[1..])
  {
    StarMatches(s);
    assert ("?" + p)[1..] == p && ([c] + p)[1..] == p;
    hide MatchSet;
  }

  /** A character of a range. */
  lemma RangeMatches(p: string, s: string, low: char, high: char)
    requires Ordinary(low) && Ordinary(high) && low <= high
    ensures Matches(['[', low, '-', high, ']'] + p, s) <==> s != "" && low <= s[0] <= high && Matches(p, s[1..])
  {
    var q := ['[', low, '-', high, ']'] + p;
    assert q[1..] == [low, '-', high, ']'] + p;
    if s != "" {
      RangeSet(s[0], low, high, p);
    }
    hide MatchSet;
  }

  /** A character outside of a range. */
  lemma InvertedRangeMatches(p: string, s: string, low: char, high: char)
    requires Ordinary(low) && Ordinary(high) && low <= high
    ensures Matches(['[', '^', low, '-', high, ']'] + p, s) <==> s != "" && !(low <= s[0] <= high) && Matches(p, s[1..])
  {
    var q := ['[', '^', low, '-', high, ']'] + p;
    assert q[1..] == ['^', low, '-', high, ']'] + p;
    if s != "" {
      RangeSet(s[0], low, high, p);
    }
    hide MatchSet;
  }

  lemma {:induction false} StarMatches(s: string)
    ensures Matches("*", s)
  {
    if s != "" {
      StarMatches(s[1..]);
    }
  }

  lemma RangeSet(x: char, low: char, high: char, p: string)
    requires Ordinary(low) && Ordinary(high) && low <= high
    ensures MatchSet([low, '-', high, ']'] + p, x) == Some((low <= x <= high, p))
    ensures MatchSet(['^', low, '-', high, ']'] + p, x) == Some((!(low <= x <= high), p))
  {
    var q := [low, '-', high, ']'] + p;
    var after := q[1..];
    assert after == ['-', high, ']'] + p;
    assert after[2..] == [']'] + p;
    assert after[2..][1..] == p;
    var seen := low <= x <= high;
    assert InSet(after[2..], x, (x == low) || seen, None) == Some(((x == low) || seen, p));
    assert InSet(after, x, x == low, Some(low)) == Some((seen || x == low, p));
    assert InSet(q, x, false, None) == InSet(after, x, x == low, Some(low));
    assert (['^', low, '-', high, ']'] + p)[1..] == q;
  }

  /** A star stands for any text, and a closing bracket in first place for itself. */
  lemma {:induction false} StarMeans(p: string, s: string)
    ensures Matches("*" + p, s) <==> exists k :: 0 <= k <= |s| && Matches(p, s[k..])
  {
    var q := "*" + p;
    assert q[1..] == p && s[0..] == s;
    if s != "" {
      StarMeans(p, s[1..]);
      assert forall k :: 0 <= k <= |s| - 1 ==> s[1..][k..] == s[k + 1..];
      if Matches(q, s) && !Matches(p, s) {
        var k :| 0 <= k <= |s[1..]| && Matches(p, s[1..][k..]);
        assert Matches(p, s[k + 1..]);
      }
      if k :| 0 < k <= |s| && Matches(p, s[k..]) {
        assert s[1..][k - 1..] == s[k..];
        assert Matches(q, s[1..]);
      }
    } else {
      assert s[0..] == "";
    }
  }

  lemma BracketInBrackets(p: string, x: char)
    ensures MatchSet([']', ']'] + p, x) == Some((x == ']', p))
    ensures MatchSet(['^', ']', ']'] + p, x) == Some((x != ']', p))
    ensures MatchSet("", x) == None && MatchSet("]", x) == None
  {
    var q := [']', ']'] + p;
    assert q[1..] == [']'] + p && q[1..][1..] == p;
    assert (['^', ']', ']'] + p)[1..] == q;
  }

  /** Several characters in brackets stand for any of them. */
  lemma EitherOfTwo(p: string, a: char, b: char, x: char)
    requires Ordinary(a) && Ordinary(b)
    ensures MatchSet([a, b, ']'] + p, x) == Some((x == a || x == b, p))
  {
    var q := [a, b, ']'] + p;
    assert q[1..][1..][1..] == p;
    assert InSet(q[1..][1..], x, x == a || x == b, Some(b)) == Some((x == a || x == b, p));
    assert InSet(q[1..], x, x == a, Some(a)) == InSet(q[1..][1..], x, x == a || x == b, Some(b));
  }

  /** A hyphen before the closing bracket stands for itself. */
  lemma HyphenLast(p: string, a: char, x: char)
    requires Ordinary(a)
    ensures MatchSet([a, '-', ']'] + p, x) == Some((x == a || x == '-', p))
  {
    var q := [a, '-', ']'] + p;
    assert q[1..][1..][1..] == p;
    assert InSet(q[1..][1..], x, x == a || x == '-', Some('-')) == Some((x == a || x == '-', p));
    assert InSet(q[1..], x, x == a, Some(a)) == InSet(q[1..][1..], x, x == a || x == '-', Some('-'));
  }

  /** Brackets that are never closed match nothing. */
  lemma {:induction false} OpenBracketMatchesNothing(p: string, s: string)
    requires ']' !in p
    ensures !Matches("[" + p, s)
  {
    assert ("[" + p)[1..] == p;
    if s != "" {
      var q := if p != "" && p[0] == '^' then p[1..] else p;
      NeverClosed(q, s[0], false, None);
    }
  }

  lemma {:induction false} NeverClosed(p: string, x: char, seen: bool, prior: Option<char>)
    requires ']' !in p
    ensures InSet(p, x, seen, prior) == None
  {
    if p != "" {
      if p[0] == '-' && |p| > 1 && prior.Some? {
        NeverClosed(p[2..], x, seen || prior.value <= x <= p[1], None);
      } else {
        NeverClosed(p[1..], x, seen || x == p[0], Some(p[0]));
      }
    }
  }

  lemma OrdinaryIff(c: char)
    ensures Ordinary(c) <==> c !in ['*', '?', '[', ']', '^', '-']
  {
  }
}
