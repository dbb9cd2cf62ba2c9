/** Growing a list without duplicates, as `push_unique` and its siblings do. */
module Distinct {
  /** The elements of `s` that have not occurred before, in order. */
  function FirstOccurrences<T(==)>(s: seq<T>): (r: seq<T>)
    ensures |r| <= |s|
    ensures s != [] ==> r != []
  {
    if s == [] then []
    else
      var front := s[..|s| - 1];
      FirstOccurrences(front) + if s[|s| - 1] in front then [] else [s[|s| - 1]]
  }

  /** Where `x` occurs first; the length of `s` if it does not. */
  function FirstIndex<T(==)>(s: seq<T>, x: T): (i: nat)
    ensures i <= |s|
    ensures i < |s| ==> s[i] == x && x !in s[..i]
    ensures i == |s| <==> x !in s
  {
    if s == [] then 0 else if s[0] == x then 0 else 1 + FirstIndex(s[1..], x)
  }

  ghost predicate NoDuplicates<T>(s: seq<T>) {
    forall i, j :: 0 <= i < j < |s| ==> s[i] != s[j]
  }

  ghost predicate Ordered<T(!new)>(r: seq<T>, s: seq<T>) {
    forall i, j :: 0 <= i < j < |r| ==> FirstIndex(s, r[i]) < FirstIndex(s, r[j])
  }

  /** `r` holds each element of `s` once, ordered by where `s` has it first. */
  ghost predicate IsFirstOccurrences<T(!new)>(r: seq<T>, s: seq<T>) {
    && NoDuplicates(r)
    && (forall x :: x in r <==> x in s)
    && Ordered(r, s)
  }

  lemma {:induction false} FirstIndexOfExtended<T(!new)>(s: seq<T>, y: T, x: T)
    ensures FirstIndex(s + [y], x) == if x in s then FirstIndex(s, x) else if x == y then |s| else |s| + 1
  {
    if s == [] {
    } else {
      assert (s + [y])[1..] == s[1..] + [y];
      assert s == [s[0]] + s[1..];
      FirstIndexOfExtended(s[1..], y, x);
    }
  }

  lemma {:induction false} FirstOccurrencesMeans<T(!new)>(s: seq<T>)
    ensures IsFirstOccurrences(FirstOccurrences(s), s)
  {
    if s != [] {
      var front, last := s[..|s| - 1], s[|s| - 1];
      assert s == front + [last];
      FirstOccurrencesMeans(front);
      var r := FirstOccurrences(s);
      forall x: T
        ensures x in r <==> x in s
        ensures FirstIndex(s, x) == if x in front then FirstIndex(front, x) else if x == last then |front| else |s|
      {
        FirstIndexOfExtended(front, last, x);
      }
    }
  }

  /** There is only one such sequence. */
  lemma {:induction false} FirstOccurrencesUnique<T(!new)>(r: seq<T>, s: seq<T>)
    requires IsFirstOccurrences(r, s)
    ensures r == FirstOccurrences(s)
  {
    FirstOccurrencesMeans(s);
    SortedUnique(r, FirstOccurrences(s), s);
  }

  lemma {:induction false} SortedUnique<T(!new)>(a: seq<T>, b: seq<T>, s: seq<T>)
    requires Ordered(a, s) && Ordered(b, s)
    requires forall x :: x in a <==> x in b
    ensures a == b
  {
    if a == [] {
      HeadIsMember(b);
    } else {
      assert a[0] in b;
      SameHead(a, b, s);
      forall x
        ensures x in a[1..] <==> x in b[1..]
      {
        NotFirst(a, s, x);
        NotFirst(b, s, x);
      }
      assert Ordered(a[1..], s) && Ordered(b[1..], s);
      SortedUnique(a[1..], b[1..], s);
      assert a == [a[0]] + a[1..] && b == [b[0]] + b[1..];
    }
  }

  lemma HeadIsMember<T>(b: seq<T>)
    ensures b == [] || b[0] in b
  {
  }

  lemma NotFirst<T(!new)>(a: seq<T>, s: seq<T>, x: T)
    requires Ordered(a, s) && a != []
    ensures x in a[1..] <==> x in a && x != a[0]
  {
    assert a == [a[0]] + a[1..];
    if x in a[1..] {
      var k :| 0 <= k < |a[1..]| && a[1..][k] == x;
      assert a[k + 1] == x;
    }
  }

  lemma SameHead<T(!new)>(a: seq<T>, b: seq<T>, s: seq<T>)
    requires Ordered(a, s) && Ordered(b, s) && a != [] && b != []
    requires a[0] in b && b[0] in a
    ensures a[0] == b[0]
  {
    var i :| 0 <= i < |b| && b[i] == a[0];
    var j :| 0 <= j < |a| && a[j] == b[0];
  }

  /** Pushing one more element onto a list without duplicates. */
  lemma FirstOccurrencesStep<T>(s: seq<T>, x: T)
    ensures FirstOccurrences(s + [x]) == FirstOccurrences(s) + if x in s then [] else [x]
  {
    assert (s + [x])[..|s|] == s;
  }

  // ----- names met so far -----

  ghost function Elements<T>(s: seq<T>): set<T> {
    set x | x in s
  }

  lemma DuplicatesOfPrefix<T>(all: seq<T>, n: nat)
    requires n <= |all|
    ensures NoDuplicates(all) ==> NoDuplicates(all[..n])
  {
  }

  lemma ElementsSnoc<T>(s: seq<T>, last: T)
    ensures Elements(s + [last]) == Elements(s) + {last}
  {
  }

  /** Adding the next element keeps the list without duplicates exactly when it is not among them yet. */
  lemma ElementsGrow<T>(all: seq<T>, i: nat)
    requires i < |all| && NoDuplicates(all[..i])
    ensures Elements(all[..i + 1]) == Elements(all[..i]) + {all[i]}
    ensures NoDuplicates(all[..i + 1]) <==> all[i] !in Elements(all[..i])
    ensures all[i] in Elements(all[..i]) ==> !NoDuplicates(all)
  {
    assert all[..i + 1] == all[..i] + [all[i]];
    if all[i] in Elements(all[..i]) {
      var k :| 0 <= k < i && all[..i][k] == all[i];
      assert all[..i + 1][k] == all[..i + 1][i];
      assert all[k] == all[i];
    }
  }

  /** A list has no duplicates exactly if its parts have none and share nothing. */
  lemma ConcatNoDuplicates<T>(a: seq<T>, b: seq<T>)
    ensures NoDuplicates(a + b) <==> NoDuplicates(a) && NoDuplicates(b) && Elements(a) !! Elements(b)
  {
    if NoDuplicates(a + b) {
      PartsOfNoDuplicates(a, b);
    }
    if NoDuplicates(a) && NoDuplicates(b) && Elements(a) !! Elements(b) {
      forall i, j | 0 <= i < j < |a + b|
        ensures (a + b)[i] != (a + b)[j]
      {
        if i < |a| <= j {
          assert a[i] in Elements(a) && b[j - |a|] in Elements(b);
        }
      }
    }
  }

  lemma PartsOfNoDuplicates<T>(a: seq<T>, b: seq<T>)
    requires NoDuplicates(a + b)
    ensures NoDuplicates(a) && NoDuplicates(b) && Elements(a) !! Elements(b)
  {
    forall i, j | 0 <= i < |a| && 0 <= j < |b|
      ensures a[i] != b[j]
    {
      assert (a + b)[i] != (a + b)[|a| + j];
    }
    forall i, j | 0 <= i < j < |b|
      ensures b[i] != b[j]
    {
      assert (a + b)[|a| + i] != (a + b)[|a| + j];
    }
    forall i, j | 0 <= i < j < |a|
      ensures a[i] != a[j]
    {
      assert (a + b)[i] != (a + b)[j];
    }
  }
}
