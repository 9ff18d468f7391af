/** Lists without repetition, and what they have to do with sets and multisets. */
module Sequences {

  ghost predicate Distinct<T(!new)>(s: seq<T>) {
    forall i, j :: 0 <= i < j < |s| ==> s[i] != s[j]
  }

  ghost function SetOf<T(!new)>(s: seq<T>): set<T> {
    set x | x in s
  }

  function Last<T>(s: seq<T>): T
    requires s != []
  {
    s[|s| - 1]
  }

  ghost function Repeat<T(!new)>(n: nat, x: T): (s: seq<T>)
    ensures |s| == n && forall j :: 0 <= j < n ==> s[j] == x
  {
    seq(n, _ => x)
  }

  lemma DistinctCardinality<T(!new)>(s: seq<T>)
    requires Distinct(s)
    ensures |SetOf(s)| == |s|
  {
    if s == [] {
      assert SetOf(s) == {};
    } else {
      var front := s[..|s| - 1];
      DistinctCardinality(front);
      assert SetOf(s) == SetOf(front) + {Last(s)};
    }
  }

  lemma DistinctMultiset<T(!new)>(s: seq<T>)
    requires Distinct(s)
    ensures multiset(s) == multiset(SetOf(s))
  {
    forall x ensures multiset(s)[x] == multiset(SetOf(s))[x] {
      if x in s { DistinctOccursOnce(s, x); }
    }
  }

  lemma DistinctOccursOnce<T(!new)>(s: seq<T>, x: T)
    requires Distinct(s) && x in s
    ensures multiset(s)[x] == 1
  {
    var front := s[..|s| - 1];
    assert s == front + [Last(s)];
    if x in front { DistinctOccursOnce(front, x); }
  }
}
