/** The stable sorts the services run on copies of their lists. */
module Sorting {
  /** x goes before the first element it may precede, so equal elements keep their order. */
  function InsertBy<T>(before: (T, T) -> bool, x: T, s: seq<T>): (r: seq<T>)
    ensures multiset(r) == multiset(s) + multiset{x}
    ensures |r| == |s| + 1
  {
    if s == [] || before(x, s[0]) then
      [x] + s
    else
      assert s == [s[0]] + s[1..];
      [s[0]] + InsertBy(before, x, s[1..])
  }

  function SortBy<T>(before: (T, T) -> bool, s: seq<T>): (r: seq<T>)
    ensures multiset(r) == multiset(s)
    ensures |r| == |s|
  {
    if s == [] then []
    else
      assert s == [s[0]] + s[1..];
      InsertBy(before, s[0], SortBy(before, s[1..]))
  }

  ghost predicate TotalPreorder<T(!new)>(before: (T, T) -> bool)
  {
    && (forall x, y :: before(x, y) || before(y, x))
    && (forall x, y, z :: before(x, y) && before(y, z) ==> before(x, z))
  }

  ghost predicate SortedBy<T>(before: (T, T) -> bool, s: seq<T>)
  {
    forall i, j :: 0 <= i < j < |s| ==> before(s[i], s[j])
  }

  lemma {:induction false} InsertKeepsSorted<T(!new)>(before: (T, T) -> bool, x: T, s: seq<T>)
    requires TotalPreorder(before) && SortedBy(before, s)
    ensures SortedBy(before, InsertBy(before, x, s))
  {
    if s != [] && !before(x, s[0]) {
      InsertKeepsSorted(before, x, s[1..]);
      var r := InsertBy(before, x, s[1..]);
      forall y | y in r ensures before(s[0], y) {
        assert y in multiset(r);
      }
    }
  }

  lemma {:induction false} SortIsSorted<T(!new)>(before: (T, T) -> bool, s: seq<T>)
    requires TotalPreorder(before)
    ensures SortedBy(before, SortBy(before, s))
  {
    if s != [] {
      SortIsSorted(before, s[1..]);
      InsertKeepsSorted(before, s[0], SortBy(before, s[1..]));
    }
  }

  lemma {:induction false} SortedStays<T>(before: (T, T) -> bool, s: seq<T>)
    requires SortedBy(before, s)
    ensures SortBy(before, s) == s
  {
    if s != [] {
      SortedStays(before, s[1..]);
    }
  }

  predicate Tie<T>(before: (T, T) -> bool, x: T, y: T) { before(x, y) && before(y, x) }

  /** The elements that tie with x, in order. */
  function Ties<T>(before: (T, T) -> bool, x: T, s: seq<T>): seq<T>
  {
    if s == [] then [] else TieOf(before, x, s[0]) + Ties(before, x, s[1..])
  }

  function TieOf<T>(before: (T, T) -> bool, x: T, y: T): seq<T> { if Tie(before, x, y) then [y] else [] }

  lemma LaterIsNoTie<T(!new)>(before: (T, T) -> bool, x: T, y: T, head: T)
    requires TotalPreorder(before) && !before(y, head)
    ensures TieOf(before, x, y) == [] || TieOf(before, x, head) == []
  {
    assert before(y, x) && before(x, head) ==> before(y, head);
  }

  lemma {:induction false} InsertKeepsTies<T(!new)>(before: (T, T) -> bool, x: T, y: T, s: seq<T>)
    requires TotalPreorder(before)
    ensures Ties(before, x, InsertBy(before, y, s)) == TieOf(before, x, y) + Ties(before, x, s)
  {
    hide TotalPreorder, TieOf;
    if s == [] || before(y, s[0]) {
      assert ([y] + s)[1..] == s;
    } else {
      var head, rest := s[0], s[1..];
      InsertKeepsTies(before, x, y, rest);
      LaterIsNoTie(before, x, y, head);
      assert ([head] + InsertBy(before, y, rest))[1..] == InsertBy(before, y, rest);
      var a, b, c := TieOf(before, x, head), TieOf(before, x, y), Ties(before, x, rest);
      assert a + (b + c) == b + (a + c);
    }
  }

  /** Sorting is stable. */
  lemma {:induction false} SortKeepsTies<T(!new)>(before: (T, T) -> bool, x: T, s: seq<T>)
    requires TotalPreorder(before)
    ensures Ties(before, x, SortBy(before, s)) == Ties(before, x, s)
  {
    hide TotalPreorder, TieOf;
    if s != [] {
      SortKeepsTies(before, x, s[1..]);
      InsertKeepsTies(before, x, s[0], SortBy(before, s[1..]));
    }
  }

  /** A sorted list has the same members as the original. */
  lemma SameMembers<T>(before: (T, T) -> bool, s: seq<T>)
    ensures forall x :: x in SortBy(before, s) <==> x in s
  {
    forall x ensures x in SortBy(before, s) <==> x in s {
      assert x in multiset(SortBy(before, s)) <==> x in multiset(s);
    }
  }
}
