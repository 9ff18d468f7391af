/** permutations of bindings/python/rad_util.py. */
module Permutations {
  import opened Sequences

  function Factorial(n: nat): nat { if n == 0 then 1 else n * Factorial(n - 1) }

  /** list.insert(i, x) */
  function Insert<T>(s: seq<T>, i: nat, x: T): seq<T>
    requires i <= |s|
  {
    s[..i] + [x] + s[i..]
  }

  lemma InsertRearranges<T(!new)>(s: seq<T>, i: nat, x: T)
    requires i <= |s|
    ensures multiset(Insert(s, i, x)) == multiset([x] + s)
  {
    assert s == s[..i] + s[i..];
  }

  /** Two insertions of a new item agree only if they insert at the same place into
      the same list. */
  lemma InsertInjective<T(!new)>(s: seq<T>, i: nat, t: seq<T>, j: nat, x: T)
    requires i <= |s| && j <= |t| && x !in s && x !in t
    requires Insert(s, i, x) == Insert(t, j, x)
    ensures i == j && s == t
  {
    var r := Insert(s, i, x);
    assert forall k :: 0 <= k < |r| && r[k] == x ==> k == i;
    assert r[j] == x;
    assert s == r[..i] + r[i + 1..];
    assert t == r[..j] + r[j + 1..];
  }

  /** Any rearrangement of [x] + rest comes from inserting x into one of rest. */
  lemma RemoveItem<T(!new)>(p: seq<T>, x: T, rest: seq<T>) returns (q: seq<T>, i: nat)
    requires multiset(p) == multiset([x] + rest)
    ensures i <= |q| && p == Insert(q, i, x) && multiset(q) == multiset(rest) && |q| == |rest|
  {
    assert x in multiset(p);
    i :| 0 <= i < |p| && p[i] == x;
    q := p[..i] + p[i + 1..];
    assert p == p[..i] + [x] + p[i + 1..];
    assert multiset(q) == multiset(p) - multiset{x};
    assert |multiset(p)| == |p| && |multiset([x] + rest)| == |rest| + 1;
  }

  ghost predicate Rearrangements<T(!new)>(input: seq<T>, out: seq<seq<T>>) {
    && (forall i :: 0 <= i < |out| ==> multiset(out[i]) == multiset(input))
    && (forall p :: multiset(p) == multiset(input) ==> p in out)
  }

  /** The inner loop: the item inserted at every position of one list. */
  method InsertEverywhere<T(!new)>(sub: seq<T>, item: T) returns (lists: seq<seq<T>>)
    ensures |lists| == |sub| + 1
    ensures forall i :: 0 <= i < |lists| ==> lists[i] == Insert(sub, i, item)
  {
    lists := [];
    for i := 0 to |sub| + 1
      invariant |lists| == i && forall k :: 0 <= k < i ==> lists[k] == Insert(sub, k, item)
    {
      lists := lists + [Insert(sub, i, item)];
    }
  }

  /** p is the item inserted somewhere into one of the lists. */
  ghost predicate FromOne<T(!new)>(p: seq<T>, subs: seq<seq<T>>, item: T) {
    exists j, i :: 0 <= j < |subs| && 0 <= i <= |subs[j]| && p == Insert(subs[j], i, item)
  }

  method Permute<T(!new)>(input: seq<T>) returns (out: seq<seq<T>>)
    ensures |out| == Factorial(|input|)
    ensures Rearrangements(input, out)
    ensures Distinct(input) ==> Distinct(out)
    decreases |input|
  {
    hide Factorial, Insert;
    if |input| > 1 {
      var item := input[0];
      var subs := Permute(input[1..]);
      out := [];
      for k := 0 to |subs|
        invariant |out| == k * |input|
        invariant forall m :: 0 <= m < |out| ==> FromOne(out[m], subs[..k], item)
        invariant forall j, i :: 0 <= j < k && 0 <= i <= |subs[j]| ==> Insert(subs[j], i, item) in out
        invariant Distinct(input) ==> Distinct(out)
      {
        SameSize(subs[k], input[1..]);
        var lists := InsertEverywhere(subs[k], item);
        AddBlock(input, subs, k, out, lists);
        out := out + lists;
      }
      assert subs[..|subs|] == subs;
      AllInserted(input, subs, out);
      FactorialStep(|input|);
    } else {
      out := [input];
      SmallInput(input);
    }
  }

  lemma SameSize<T(!new)>(p: seq<T>, q: seq<T>)
    requires multiset(p) == multiset(q)
    ensures |p| == |q|
  {
    assert |multiset(p)| == |p| && |multiset(q)| == |q|;
  }

  lemma FactorialStep(n: nat)
    requires n > 0
    ensures Factorial(n) == Factorial(n - 1) * n
  {
  }

  lemma SmallInput<T(!new)>(input: seq<T>)
    requires |input| <= 1
    ensures Rearrangements(input, [input]) && Factorial(|input|) == 1
  {
    assert Factorial(0) == 1;
    forall p ensures multiset(p) == multiset(input) ==> p in [input] {
      if multiset(p) == multiset(input) { SmallRearrangement(input, p); }
    }
  }

  lemma SmallRearrangement<T(!new)>(input: seq<T>, p: seq<T>)
    requires |input| <= 1 && multiset(p) == multiset(input)
    ensures p == input
  {
    SameSize(p, input);
    if |input| == 1 {
      assert p[0] in multiset(p);
      assert input == [input[0]] && p == [p[0]];
    }
  }

  /** One more list worked off: the new block repeats nothing. */
  lemma AddBlock<T(!new)>(input: seq<T>, subs: seq<seq<T>>, k: nat, out: seq<seq<T>>, lists: seq<seq<T>>)
    requires |input| > 1 && Rearrangements(input[1..], subs) && k < |subs|
    requires Distinct(input) ==> Distinct(subs) && Distinct(out)
    requires |lists| == |subs[k]| + 1 == |input|
    requires forall i :: 0 <= i < |lists| ==> lists[i] == Insert(subs[k], i, input[0])
    requires forall m :: 0 <= m < |out| ==> FromOne(out[m], subs[..k], input[0])
    ensures forall m :: 0 <= m < |out + lists| ==> FromOne((out + lists)[m], subs[..k + 1], input[0])
    ensures forall i :: 0 <= i <= |subs[k]| ==> Insert(subs[k], i, input[0]) in lists
    ensures Distinct(input) ==> Distinct(out + lists)
  {
    hide Insert;
    var item, more := input[0], out + lists;
    forall m | 0 <= m < |more| ensures FromOne(more[m], subs[..k + 1], item) {
      if m < |out| {
        var j, i :| 0 <= j < |subs[..k]| && 0 <= i <= |subs[..k][j]| && out[m] == Insert(subs[..k][j], i, item);
        assert subs[..k + 1][j] == subs[..k][j];
      } else {
        assert subs[..k + 1][k] == subs[k];
      }
    }
    forall i | 0 <= i <= |subs[k]| ensures Insert(subs[k], i, item) in lists { assert lists[i] in lists; }
    if Distinct(input) {
      forall j | 0 <= j < |subs| ensures item !in subs[j] { NotInside(input, subs[j]); }
      forall x, y | 0 <= x < y < |more| ensures more[x] != more[y] {
        if x < |out| <= y {
          var j, i :| 0 <= j < |subs[..k]| && 0 <= i <= |subs[..k][j]| && out[x] == Insert(subs[..k][j], i, item);
          if more[x] == more[y] { InsertInjective(subs[j], i, subs[k], y - |out|, item); }
        } else if |out| <= x {
          if more[x] == more[y] { InsertInjective(subs[k], x - |out|, subs[k], y - |out|, item); }
        }
      }
    }
  }

  lemma NotInside<T(!new)>(input: seq<T>, p: seq<T>)
    requires |input| > 0 && Distinct(input) && multiset(p) == multiset(input[1..])
    ensures input[0] !in p
  {
    assert input == [input[0]] + input[1..];
    DistinctOccursOnce(input, input[0]);
    assert multiset(p)[input[0]] == 0;
  }

  lemma AllInserted<T(!new)>(input: seq<T>, subs: seq<seq<T>>, out: seq<seq<T>>)
    requires |input| > 1 && Rearrangements(input[1..], subs)
    requires forall m :: 0 <= m < |out| ==> FromOne(out[m], subs, input[0])
    requires forall j, i :: 0 <= j < |subs| && 0 <= i <= |subs[j]| ==> Insert(subs[j], i, input[0]) in out
    ensures Rearrangements(input, out)
  {
    hide Insert;
    var item, rest := input[0], input[1..];
    assert input == [item] + rest;
    forall m | 0 <= m < |out| ensures multiset(out[m]) == multiset(input) {
      assert FromOne(out[m], subs, item);
      var j, i :| 0 <= j < |subs| && 0 <= i <= |subs[j]| && out[m] == Insert(subs[j], i, item);
      InsertRearranges(subs[j], i, item);
    }
    forall p | multiset(p) == multiset(input) ensures p in out {
      var q, i := RemoveItem(p, item, rest);
      assert q in subs;
      var j :| 0 <= j < |subs| && subs[j] == q;
    }
  }
}
