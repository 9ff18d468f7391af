/** topsort, topsort_levels and topsort_levels_core of bindings/python/topsort.py.
    Dictionary iteration order is arbitrary, so every result holds for all orders. */
module TopSort {
  import opened Sequences
  import opened Digraph

  type Pairs<T> = seq<(T, T)>

  /** What topsort returns, or the CycleError it raises with its three details. */
  datatype Outcome<T> =
    | Sorted(answer: seq<T>)
    | CycleError(answer: seq<T>, numParents: map<T, nat>, children: Adjacency<T>)

  /** What exhausting the level generator gives: the yielded levels, then either
      the end of the generator or a CycleError with its two details. */
  datatype LevelOutcome<T> =
    | Finished(levels: seq<seq<T>>)
    | LevelCycleError(levels: seq<seq<T>>, numParents: map<T, nat>, children: Adjacency<T>)

  // ---------- The graph described by a pair list ----------

  ghost function Elements<T(!new)>(pairs: Pairs<T>): set<T> {
    (set e | e in pairs :: e.0) + (set e | e in pairs :: e.1)
  }

  /** The children of p in the order in which the pairs list them. */
  ghost function ChildrenOf<T(!new)>(pairs: Pairs<T>, p: T): seq<T> {
    if pairs == [] then []
    else ChildrenOf(pairs[..|pairs| - 1], p)
         + (if Last(pairs).0 == p then [Last(pairs).1] else [])
  }

  /** The number of pairs whose child is x and whose parent is outside `done`. */
  ghost function InCount<T(!new)>(pairs: Pairs<T>, x: T, done: set<T>): nat {
    if pairs == [] then 0
    else InCount(pairs[..|pairs| - 1], x, done)
         + (if Last(pairs).1 == x && Last(pairs).0 !in done then 1 else 0)
  }

  /** The adjacency of the pairs: each parent with its children in pair order. */
  ghost function GraphOf<T(!new)>(pairs: Pairs<T>): Adjacency<T> {
    map p | p in (set e | e in pairs :: e.0) :: ChildrenOf(pairs, p)
  }

  /** `adj` lists, for each parent, its children in `pairs` with multiplicity;
      keys without children and isolated nodes are allowed. */
  ghost predicate Describes<T(!new)>(pairs: Pairs<T>, nodes: set<T>, adj: Adjacency<T>) {
    && Closed(nodes, adj)
    && forall p :: multiset(ChildrenOf(pairs, p)) == if p in adj then multiset(adj[p]) else multiset{}
  }

  /** The two dictionaries once the nodes in `done` have been taken out. */
  ghost predicate Remaining<T(!new)>(pairs: Pairs<T>, nodes: set<T>, adj: Adjacency<T>, done: set<T>,
                                     num: map<T, nat>, ch: Adjacency<T>) {
    && done <= nodes
    && num.Keys == nodes - done
    && (forall x :: x in num ==> num[x] == InCount(pairs, x, done))
    && ch == adj - done
  }

  /** The counts and lists, said in terms of the pairs alone. */
  lemma {:induction false} CountIsSize<T(!new)>(pairs: Pairs<T>, x: T, done: set<T>)
    ensures InCount(pairs, x, done) == |(set i | 0 <= i < |pairs| && pairs[i].1 == x && pairs[i].0 !in done)|
  {
    var all := set i | 0 <= i < |pairs| && pairs[i].1 == x && pairs[i].0 !in done;
    if pairs == [] {
      assert all == {};
    } else {
      var n := |pairs| - 1;
      var front := pairs[..n];
      CountIsSize(front, x, done);
      assert all == (set i | 0 <= i < |front| && front[i].1 == x && front[i].0 !in done)
                    + if pairs[n].1 == x && pairs[n].0 !in done then {n} else {};
    }
  }

  ghost function Listings<T(!new)>(pairs: Pairs<T>, p: T, c: T): set<int> {
    set i | 0 <= i < |pairs| && pairs[i] == (p, c)
  }

  lemma {:induction false} ListingsAreSize<T(!new)>(pairs: Pairs<T>, p: T, c: T)
    ensures multiset(ChildrenOf(pairs, p))[c] == |Listings(pairs, p, c)|
  {
    hide Listings;
    ListingsStep(pairs, p, c);
    if pairs != [] {
      var front, last := pairs[..|pairs| - 1], Last(pairs);
      ListingsAreSize(front, p, c);
      assert ChildrenOf(pairs, p) == ChildrenOf(front, p) + if last.0 == p then [last.1] else [];
    }
  }

  lemma ListingsStep<T(!new)>(pairs: Pairs<T>, p: T, c: T)
    ensures |Listings(pairs, p, c)| ==
            if pairs == [] then 0
            else |Listings(pairs[..|pairs| - 1], p, c)| + if Last(pairs).0 == p && Last(pairs).1 == c then 1 else 0
  {
    var n := |pairs| - 1;
    if pairs == [] {
      assert Listings(pairs, p, c) == {};
    } else {
      assert Listings(pairs, p, c) == Listings(pairs[..n], p, c) + if pairs[n] == (p, c) then {n} else {};
    }
  }

  lemma PairsAreEdges<T(!new)>(pairs: Pairs<T>, p: T, c: T)
    ensures c in ChildrenOf(pairs, p) <==> (p, c) in pairs
  {
    if pairs != [] {
      PairsAreEdges(pairs[..|pairs| - 1], p, c);
      assert pairs == pairs[..|pairs| - 1] + [Last(pairs)];
    }
  }

  lemma EdgeIffPair<T(!new)>(pairs: Pairs<T>, nodes: set<T>, adj: Adjacency<T>, p: T, c: T)
    requires Describes(pairs, nodes, adj)
    ensures Edge(adj, p, c) <==> (p, c) in pairs
  {
    PairsAreEdges(pairs, p, c);
    assert c in ChildrenOf(pairs, p) <==> c in multiset(ChildrenOf(pairs, p));
  }

  lemma InCountZero<T(!new)>(pairs: Pairs<T>, x: T, done: set<T>)
    ensures InCount(pairs, x, done) == 0 <==> forall p :: (p, x) in pairs ==> p in done
  {
    if pairs != [] {
      InCountZero(pairs[..|pairs| - 1], x, done);
      assert pairs == pairs[..|pairs| - 1] + [Last(pairs)];
      assert Last(pairs) in pairs;
    }
  }

  /** Zero count: every parent has been taken out. */
  lemma CountZeroIffParentsDone<T(!new)>(pairs: Pairs<T>, nodes: set<T>, adj: Adjacency<T>, x: T, done: set<T>)
    requires Describes(pairs, nodes, adj)
    ensures InCount(pairs, x, done) == 0 <==> forall p :: Edge(adj, p, x) ==> p in done
  {
    InCountZero(pairs, x, done);
    forall p ensures Edge(adj, p, x) <==> (p, x) in pairs { EdgeIffPair(pairs, nodes, adj, p, x); }
  }

  /** Taking out p lowers the count of x by the number of times p lists x. */
  lemma InCountStep<T(!new)>(pairs: Pairs<T>, x: T, done: set<T>, p: T)
    requires p !in done
    ensures InCount(pairs, x, done) == InCount(pairs, x, done + {p}) + multiset(ChildrenOf(pairs, p))[x]
  {
    if pairs != [] {
      InCountStep(pairs[..|pairs| - 1], x, done, p);
    }
  }

  /** Lines 77-90, and again 157-170: the two dictionaries built from the pairs. */
  method BuildGraph<T(==, !new)>(pairs: Pairs<T>) returns (numParents: map<T, nat>, children: Adjacency<T>)
    ensures children == GraphOf(pairs) && Describes(pairs, Elements(pairs), children)
    ensures numParents.Keys == Elements(pairs)
    ensures forall x :: x in numParents ==> numParents[x] == InCount(pairs, x, {})
  {
    numParents, children := map[], map[];
    for i := 0 to |pairs|
      invariant numParents.Keys == Elements(pairs[..i])
      invariant forall x :: x in numParents ==> numParents[x] == InCount(pairs[..i], x, {})
      invariant children.Keys <= numParents.Keys
      invariant forall p :: p in children ==> children[p] != []
      invariant forall p :: ChildrenOf(pairs[..i], p) == if p in children then children[p] else []
    {
      var (parent, child) := pairs[i];
      var before := numParents;
      if parent !in numParents { numParents := numParents[parent := 0]; }
      if child !in numParents { numParents := numParents[child := 0]; }
      numParents := numParents[child := numParents[child] + 1];
      children := children[parent := (if parent in children then children[parent] else []) + [child]];

      BuildStep(pairs, i, before, numParents);
    }
    assert pairs[..|pairs|] == pairs;
    BuiltGraph(pairs, children);
  }

  lemma BuildStep<T(!new)>(pairs: Pairs<T>, i: nat, before: map<T, nat>, num: map<T, nat>)
    requires i < |pairs| && before.Keys == Elements(pairs[..i])
    requires forall x :: x in before ==> before[x] == InCount(pairs[..i], x, {})
    requires num.Keys == before.Keys + {pairs[i].0, pairs[i].1}
    requires forall x :: x in num ==>
               num[x] == (if x in before then before[x] else 0) + (if x == pairs[i].1 then 1 else 0)
    ensures pairs[..i + 1][..i] == pairs[..i] && Last(pairs[..i + 1]) == pairs[i]
    ensures num.Keys == Elements(pairs[..i + 1])
    ensures forall x :: x in num ==> num[x] == InCount(pairs[..i + 1], x, {})
  {
    assert pairs[..i + 1] == pairs[..i] + [pairs[i]];
    assert Elements(pairs[..i + 1]) == Elements(pairs[..i]) + {pairs[i].0, pairs[i].1};
    forall x | x in num ensures num[x] == InCount(pairs[..i + 1], x, {}) {
      if x !in before { InCountOutside(pairs[..i], x); }
    }
  }

  lemma BuiltGraph<T(!new)>(pairs: Pairs<T>, children: Adjacency<T>)
    requires forall p :: ChildrenOf(pairs, p) == if p in children then children[p] else []
    requires forall p :: p in children ==> children[p] != []
    ensures children == GraphOf(pairs) && Describes(pairs, Elements(pairs), children)
  {
    forall p, c | Edge(children, p, c) ensures p in Elements(pairs) && c in Elements(pairs) {
      PairsAreEdges(pairs, p, c);
    }
    forall p ensures p in children <==> p in GraphOf(pairs) {
      if p in children {
        PairsAreEdges(pairs, p, children[p][0]);
        assert Edge(children, p, children[p][0]);
      }
      if p in GraphOf(pairs) {
        var e :| e in pairs && e.0 == p;
        PairsAreEdges(pairs, p, e.1);
      }
    }
  }

  lemma InCountOutside<T(!new)>(pairs: Pairs<T>, x: T)
    requires x !in Elements(pairs)
    ensures InCount(pairs, x, {}) == 0
  {
    InCountZero(pairs, x, {});
  }

  /** Lines 93 and 205: the keys whose count is zero, in any order. */
  method WithoutParents<T(==, !new)>(num: map<T, nat>) returns (zeros: seq<T>)
    ensures Distinct(zeros)
    ensures forall x :: x in zeros <==> x in num && num[x] == 0
  {
    zeros := [];
    var todo := num.Keys;
    while todo != {}
      invariant todo <= num.Keys && Distinct(zeros)
      invariant forall x :: x in zeros <==> x in num.Keys - todo && num[x] == 0
      decreases todo
    {
      var x :| x in todo;
      if num[x] == 0 { zeros := zeros + [x]; }
      todo := todo - {x};
    }
  }

  lemma NextKid<T(!new)>(kids: seq<T>, i: nat)
    requires i < |kids|
    ensures multiset(kids[..i + 1]) == multiset(kids[..i]) + multiset{kids[i]}
    ensures forall x :: x in kids[..i + 1] <==> x in kids[..i] || x == kids[i]
    ensures multiset(kids)[kids[i]] >= multiset(kids[..i])[kids[i]] + 1
  {
    assert kids[..i + 1] == kids[..i] + [kids[i]];
    assert kids == kids[..i + 1] + kids[i + 1..];
  }

  /** Lines 100-103: knock down the counts of the children and pick up those
      that reach zero. */
  method KnockDown<T(==, !new)>(num: map<T, nat>, kids: seq<T>) returns (num': map<T, nat>, ready: seq<T>)
    requires forall c :: c in kids ==> c in num && num[c] >= multiset(kids)[c]
    ensures num'.Keys == num.Keys
    ensures forall x :: x in num ==> num'[x] + multiset(kids)[x] == num[x]
    ensures Distinct(ready)
    ensures forall x :: x in ready <==> x in kids && num'[x] == 0
    // in the order of their last listings
    ensures InListingOrder(kids, ready)
  {
    hide Knocked;
    num', ready := num, [];
    NothingKnocked(num, kids);
    for i := 0 to |kids|
      invariant Knocked(num, kids, i, num', ready)
    {
      var child := kids[i];
      KnockStep(num, kids, i, num', ready);
      num' := num'[child := num'[child] - 1];
      if num'[child] == 0 { ready := ready + [child]; }
    }
    AllKnocked(num, kids, num', ready);
  }

  /** The first i listings have been worked off. */
  ghost predicate Knocked<T(!new)>(num: map<T, nat>, kids: seq<T>, i: nat, num': map<T, nat>, ready: seq<T>) {
    && i <= |kids| && num'.Keys == num.Keys
    && (forall x :: x in num ==> num'[x] + multiset(kids[..i])[x] == num[x])
    && Distinct(ready)
    && (forall x :: x in ready <==> x in kids[..i] && x in num' && num'[x] == 0)
    && InListingOrder(kids, ready)
    && (forall x :: x in ready ==> LastListed(kids, x) < i)
  }

  lemma NothingKnocked<T(!new)>(num: map<T, nat>, kids: seq<T>)
    ensures Knocked(num, kids, 0, num, [])
  {
  }

  lemma KnockStep<T(!new)>(num: map<T, nat>, kids: seq<T>, i: nat, num': map<T, nat>, ready: seq<T>)
    requires i < |kids| && kids[i] in num && num[kids[i]] >= multiset(kids)[kids[i]]
    requires Knocked(num, kids, i, num', ready)
    ensures kids[i] in num' && num'[kids[i]] > 0
    ensures var next := num'[kids[i] := num'[kids[i]] - 1];
            Knocked(num, kids, i + 1, next, if next[kids[i]] == 0 then ready + [kids[i]] else ready)
  {
    hide LastListed, InListingOrder;
    NextKid(kids, i);
    if num'[kids[i]] == 1 { ListedLast(kids, i, ready); }
  }

  lemma AllKnocked<T(!new)>(num: map<T, nat>, kids: seq<T>, num': map<T, nat>, ready: seq<T>)
    requires Knocked(num, kids, |kids|, num', ready) && forall c :: c in kids ==> c in num
    ensures num'.Keys == num.Keys && Distinct(ready) && InListingOrder(kids, ready)
    ensures forall x :: x in num ==> num'[x] + multiset(kids)[x] == num[x]
    ensures forall x :: x in ready <==> x in kids && num'[x] == 0
  {
    hide LastListed, InListingOrder;
    assert kids[..|kids|] == kids;
  }

  /** Where x stands last in the list; -1 if it does not. */
  ghost function LastListed<T(!new)>(kids: seq<T>, x: T): int {
    if kids == [] then -1 else if Last(kids) == x then |kids| - 1 else LastListed(kids[..|kids| - 1], x)
  }

  ghost predicate InListingOrder<T(!new)>(kids: seq<T>, ready: seq<T>) {
    forall m, n :: 0 <= m < n < |ready| ==> LastListed(kids, ready[m]) < LastListed(kids, ready[n])
  }

  lemma {:induction false} LastListedIs<T(!new)>(kids: seq<T>, x: T, i: nat)
    requires i < |kids|
    ensures LastListed(kids, x) == i <==> kids[i] == x && x !in kids[i + 1..]
  {
    var front := kids[..|kids| - 1];
    if i < |front| {
      LastListedIs(front, x, i);
      assert kids[i + 1..] == front[i + 1..] + [Last(kids)];
      LastListedBelow(front, x);
    } else {
      LastListedBelow(front, x);
    }
  }

  lemma LastListedBelow<T(!new)>(kids: seq<T>, x: T)
    ensures LastListed(kids, x) < |kids|
  {
  }

  lemma NothingListed<T(!new)>(kids: seq<T>)
    ensures InListingOrder(kids, []) && Distinct<T>([])
  {
  }

  /** A child whose listings are all worked off at i stands there last. */
  lemma ListedLast<T(!new)>(kids: seq<T>, i: nat, ready: seq<T>)
    requires i < |kids| && multiset(kids[..i + 1])[kids[i]] >= multiset(kids)[kids[i]]
    requires InListingOrder(kids, ready) && forall x :: x in ready ==> LastListed(kids, x) < i
    ensures LastListed(kids, kids[i]) == i && InListingOrder(kids, ready + [kids[i]])
  {
    hide LastListed;
    assert kids == kids[..i + 1] + kids[i + 1..];
    assert multiset(kids) == multiset(kids[..i + 1]) + multiset(kids[i + 1..]);
    LastListedIs(kids, kids[i], i);
  }

  /** Lines 222-223: the level version only knocks down the counts. */
  method Decrement<T(==, !new)>(num: map<T, nat>, kids: seq<T>) returns (num': map<T, nat>)
    requires forall c :: c in kids ==> c in num && num[c] >= multiset(kids)[c]
    ensures num'.Keys == num.Keys
    ensures forall x :: x in num ==> num'[x] + multiset(kids)[x] == num[x]
  {
    num' := num;
    for i := 0 to |kids|
      invariant num'.Keys == num.Keys
      invariant forall x :: x in num ==> num'[x] + multiset(kids[..i])[x] == num[x]
    {
      var child := kids[i];
      NextKid(kids, i);
      num' := num'[child := num'[child] - 1];
    }
    assert kids[..|kids|] == kids;
  }

  ghost function Kids<T(!new)>(ch: Adjacency<T>, p: T): seq<T> {
    if p in ch then ch[p] else []
  }

  /** Every member's parents are members. */
  ghost predicate ParentsIn<T(!new)>(adj: Adjacency<T>, done: set<T>) {
    forall x, q :: x in done && Edge(adj, q, x) ==> q in done
  }

  /** No key is ever missed: the children of the node p being taken out still
      have their entries, large enough for all the decrements to come. */
  lemma KidsAreCounted<T(!new)>(pairs: Pairs<T>, nodes: set<T>, adj: Adjacency<T>, done: set<T>,
                                num: map<T, nat>, ch: Adjacency<T>, p: T, c: T)
    requires Describes(pairs, nodes, adj) && Remaining(pairs, nodes, adj, done, num, ch)
    requires ParentsIn(adj, done)
    requires p in num && num[p] == 0 && c in Kids(ch, p)
    ensures c in num && c != p && num[c] >= multiset(Kids(ch, p))[c]
  {
    assert Edge(adj, p, c);
    CountZeroIffParentsDone(pairs, nodes, adj, p, done);
    InCountStep(pairs, c, done, p);
  }

  /** Taking out p: the dictionaries keep describing what remains. */
  lemma TakeOut<T(!new)>(pairs: Pairs<T>, nodes: set<T>, adj: Adjacency<T>, done: set<T>,
                         num: map<T, nat>, ch: Adjacency<T>, p: T, num': map<T, nat>)
    requires Describes(pairs, nodes, adj) && Remaining(pairs, nodes, adj, done, num, ch)
    requires p in num
    requires num'.Keys == num.Keys - {p}
    requires forall x :: x in num' ==> num'[x] + multiset(Kids(ch, p))[x] == num[x]
    ensures Remaining(pairs, nodes, adj, done + {p}, num', ch - {p})
  {
    hide InCount, ChildrenOf, Kids, Describes;
    KidsMatch(pairs, nodes, adj, done, num, ch, p);
    forall x | x in num' ensures num'[x] == InCount(pairs, x, done + {p}) {
      InCountStep(pairs, x, done, p);
    }
    assert ch - {p} == adj - (done + {p});
  }

  lemma KidsMatch<T(!new)>(pairs: Pairs<T>, nodes: set<T>, adj: Adjacency<T>, done: set<T>,
                           num: map<T, nat>, ch: Adjacency<T>, p: T)
    requires Describes(pairs, nodes, adj) && Remaining(pairs, nodes, adj, done, num, ch) && p in num
    ensures multiset(Kids(ch, p)) == multiset(ChildrenOf(pairs, p))
  {
    hide InCount, ChildrenOf;
    assert p !in done;
  }

  // ---------- topsort ----------

  /** `order` lists each of its nodes once, by nondecreasing longest-walk depth;
      `depth[j]` is the depth of `order[j]`. */
  ghost predicate ByDepth<T(!new)>(nodes: set<T>, adj: Adjacency<T>, order: seq<T>, depth: seq<nat>) {
    && |depth| == |order|
    && Distinct(order)
    && (forall j :: 0 <= j < |order| ==> order[j] in Level(nodes, adj, depth[j]))
    && (forall i, j :: 0 <= i < j < |order| ==> depth[i] <= depth[j])
  }

  lemma RootDepth<T(!new)>(pairs: Pairs<T>, nodes: set<T>, adj: Adjacency<T>, x: T)
    requires Describes(pairs, nodes, adj) && x in nodes && InCount(pairs, x, {}) == 0
    ensures x in Level(nodes, adj, 0)
  {
    CountZeroIffParentsDone(pairs, nodes, adj, x, {});
  }

  /** A node whose parents all have depth at most d, one of them exactly d, has depth d + 1. */
  lemma FreshDepth<T(!new)>(nodes: set<T>, adj: Adjacency<T>, p: T, d: nat, c: T)
    requires Closed(nodes, adj) && Edge(adj, p, c) && p in Deep(nodes, adj, d)
    requires forall q :: Edge(adj, q, c) ==> q !in Deep(nodes, adj, d + 1)
    ensures c in Level(nodes, adj, d + 1)
  {
    assert HasParentIn(adj, Deep(nodes, adj, d), c);
    assert !HasParentIn(adj, Deep(nodes, adj, d + 1), c);
  }

  lemma EarlierIsNoDeeper<T(!new)>(nodes: set<T>, adj: Adjacency<T>, order: seq<T>, depth: seq<nat>, i: nat, q: T)
    requires ByDepth(nodes, adj, order, depth) && i < |order| && q in order[..i + 1]
    ensures q !in Deep(nodes, adj, depth[i] + 1)
  {
    var j :| 0 <= j < i + 1 && order[j] == q;
    assert order[j] in Level(nodes, adj, depth[j]);
    DeepShrinks(nodes, adj, depth[j] + 1, depth[i] + 1);
  }

  ghost predicate SortedByDepth<T(!new)>(nodes: set<T>, adj: Adjacency<T>, order: seq<T>) {
    exists depth :: ByDepth(nodes, adj, order, depth)
  }

  /** The loop invariant of topsort's main loop: answer[..i] has been taken out,
      answer[i..] is the queue of nodes whose count has reached zero. */
  ghost predicate Queued<T(!new)>(pairs: Pairs<T>, nodes: set<T>, adj: Adjacency<T>,
                                  answer: seq<T>, depth: seq<nat>, i: nat,
                                  num: map<T, nat>, ch: Adjacency<T>)
    requires i <= |answer|
  {
    && Remaining(pairs, nodes, adj, SetOf(answer[..i]), num, ch)
    && ParentsIn(adj, SetOf(answer[..i]))
    && (forall x :: x in answer[i..] <==> x in num && num[x] == 0)
    && ByDepth(nodes, adj, answer, depth)
    && (i < |answer| ==> forall j :: 0 <= j < |answer| ==> depth[j] <= depth[i] + 1)
  }

  lemma TakenOutParentsIn<T(!new)>(pairs: Pairs<T>, nodes: set<T>, adj: Adjacency<T>, done: set<T>,
                                   num: map<T, nat>, ch: Adjacency<T>, p: T)
    requires Describes(pairs, nodes, adj) && Remaining(pairs, nodes, adj, done, num, ch)
    requires ParentsIn(adj, done) && p in num && num[p] == 0
    ensures ParentsIn(adj, done + {p})
  {
    CountZeroIffParentsDone(pairs, nodes, adj, p, done);
  }

  /** One turn of the main loop: the queue invariant moves from i to i + 1. */
  lemma QueueStep<T(!new)>(pairs: Pairs<T>, nodes: set<T>, adj: Adjacency<T>,
                           answer: seq<T>, depth: seq<nat>, i: nat,
                           num: map<T, nat>, ch: Adjacency<T>, num': map<T, nat>, ready: seq<T>)
    requires i < |answer| && Describes(pairs, nodes, adj)
    requires Queued(pairs, nodes, adj, answer, depth, i, num, ch)
    requires num'.Keys == num.Keys - {answer[i]}
    requires forall x :: x in num' ==> num'[x] + multiset(Kids(ch, answer[i]))[x] == num[x]
    requires Distinct(ready)
    requires forall x :: x in ready <==> x in Kids(ch, answer[i]) && x in num' && num'[x] == 0
    ensures Queued(pairs, nodes, adj, answer + ready, depth + Repeat<nat>(|ready|, depth[i] + 1),
                   i + 1, num', ch - {answer[i]})
  {
    hide InCount, ChildrenOf, Deep, Level, Describes, ParentsIn, ByDepth;
    ByDepthDistinct(nodes, adj, answer, depth);
    var p := answer[i];
    var done := SetOf(answer[..i]);
    var answer', depth' := answer + ready, depth + Repeat<nat>(|ready|, depth[i] + 1);
    assert p in answer[i..];
    assert answer'[..i + 1] == answer[..i] + [p];
    assert SetOf(answer'[..i + 1]) == done + {p};
    TakeOut(pairs, nodes, adj, done, num, ch, p, num');
    TakenOutParentsIn(pairs, nodes, adj, done, num, ch, p);
    forall x ensures x in answer'[i + 1..] <==> x in num' && num'[x] == 0 {
      QueueStepMember(answer, i, num, ch, num', ready, x);
    }
    forall x | x in ready ensures x in Level(nodes, adj, depth[i] + 1) && x !in answer {
      ReadyDepth(pairs, nodes, adj, answer, depth, i, num, ch, num', x);
    }
    QueueStepDepth(nodes, adj, answer, depth, i, ready);
  }

  lemma ReadyDepth<T(!new)>(pairs: Pairs<T>, nodes: set<T>, adj: Adjacency<T>,
                            answer: seq<T>, depth: seq<nat>, i: nat,
                            num: map<T, nat>, ch: Adjacency<T>, num': map<T, nat>, x: T)
    requires i < |answer| && Describes(pairs, nodes, adj)
    requires Queued(pairs, nodes, adj, answer, depth, i, num, ch)
    requires Remaining(pairs, nodes, adj, SetOf(answer[..i]) + {answer[i]}, num', ch - {answer[i]})
    requires x in Kids(ch, answer[i]) && x in num' && num'[x] == 0
    requires num[x] > 0
    ensures x in Level(nodes, adj, depth[i] + 1) && x !in answer
  {
    hide InCount, ChildrenOf, Deep, Describes;
    CountZeroIffParentsDone(pairs, nodes, adj, x, SetOf(answer[..i]) + {answer[i]});
    DescribesClosed(pairs, nodes, adj);
    forall q | Edge(adj, q, x) ensures q !in Deep(nodes, adj, depth[i] + 1) {
      assert q in answer[..i + 1];
      EarlierIsNoDeeper(nodes, adj, answer, depth, i, q);
    }
    assert Edge(adj, answer[i], x);
    assert answer[i] in Level(nodes, adj, depth[i]);
    FreshDepth(nodes, adj, answer[i], depth[i], x);
    assert answer == answer[..i] + answer[i..];
  }

  lemma ByDepthDistinct<T(!new)>(nodes: set<T>, adj: Adjacency<T>, answer: seq<T>, depth: seq<nat>)
    requires ByDepth(nodes, adj, answer, depth)
    ensures Distinct(answer) && |depth| == |answer|
  {
  }

  lemma DescribesClosed<T(!new)>(pairs: Pairs<T>, nodes: set<T>, adj: Adjacency<T>)
    requires Describes(pairs, nodes, adj)
    ensures Closed(nodes, adj)
  {
  }

  lemma QueueStepMember<T(!new)>(answer: seq<T>, i: nat, num: map<T, nat>, ch: Adjacency<T>,
                                 num': map<T, nat>, ready: seq<T>, x: T)
    requires i < |answer| && Distinct(answer)
    requires forall x :: x in answer[i..] <==> x in num && num[x] == 0
    requires num'.Keys == num.Keys - {answer[i]}
    requires forall x :: x in num' ==> num'[x] + multiset(Kids(ch, answer[i]))[x] == num[x]
    requires forall x :: x in ready <==> x in Kids(ch, answer[i]) && x in num' && num'[x] == 0
    ensures x in (answer + ready)[i + 1..] <==> x in num' && num'[x] == 0
  {
    assert (answer + ready)[i + 1..] == answer[i + 1..] + ready;
    assert answer[i..] == [answer[i]] + answer[i + 1..];
    assert x in Kids(ch, answer[i]) <==> multiset(Kids(ch, answer[i]))[x] > 0;
  }

  lemma QueueStepDepth<T(!new)>(nodes: set<T>, adj: Adjacency<T>, answer: seq<T>, depth: seq<nat>, i: nat, ready: seq<T>)
    requires i < |answer| && ByDepth(nodes, adj, answer, depth) && Distinct(ready)
    requires forall j :: 0 <= j < |answer| ==> depth[j] <= depth[i] + 1
    requires forall x :: x in ready ==> x in Level(nodes, adj, depth[i] + 1) && x !in answer
    ensures ByDepth(nodes, adj, answer + ready, depth + Repeat<nat>(|ready|, depth[i] + 1))
    ensures i + 1 < |answer + ready| ==>
              var depth' := depth + Repeat<nat>(|ready|, depth[i] + 1);
              forall j :: 0 <= j < |answer + ready| ==> depth'[j] <= depth'[i + 1] + 1
  {
    var order', depth' := answer + ready, depth + Repeat<nat>(|ready|, depth[i] + 1);
    forall j | 0 <= j < |order'| ensures order'[j] in Level(nodes, adj, depth'[j]) {
      if j < |answer| {
        assert order'[j] == answer[j] && depth'[j] == depth[j];
      } else {
        assert order'[j] in ready && depth'[j] == depth[i] + 1;
      }
    }
    forall i, j | 0 <= i < |answer| <= j < |order'| ensures order'[i] != order'[j] {
      assert order'[i] in answer && order'[j] in ready;
    }
  }

  ghost predicate HasLevel<T(!new)>(nodes: set<T>, adj: Adjacency<T>, x: T) {
    exists k: nat :: x in Level(nodes, adj, k)
  }

  lemma HasLevelNotFromCycle<T(!new)>(nodes: set<T>, adj: Adjacency<T>, x: T)
    requires Closed(nodes, adj) && HasLevel(nodes, adj, x)
    ensures !FromCycle(adj, x)
  {
    var k: nat :| x in Level(nodes, adj, k);
    if FromCycle(adj, x) { FromCycleIsDeep(nodes, adj, x, k + 1); }
  }

  lemma LeftoverHasParent<T(!new)>(pairs: Pairs<T>, nodes: set<T>, adj: Adjacency<T>, done: set<T>, x: T)
    requires Describes(pairs, nodes, adj) && done <= nodes && InCount(pairs, x, done) > 0
    ensures HasParentIn(adj, nodes - done, x)
  {
    CountZeroIffParentsDone(pairs, nodes, adj, x, done);
  }

  lemma LeftoverFromCycle<T(!new)>(pairs: Pairs<T>, nodes: set<T>, adj: Adjacency<T>, done: set<T>,
                                   num: map<T, nat>, ch: Adjacency<T>, x: T)
    requires Describes(pairs, nodes, adj) && Remaining(pairs, nodes, adj, done, num, ch)
    requires forall x :: x in num ==> num[x] > 0
    requires x in num
    ensures FromCycle(adj, x)
  {
    hide InCount, ChildrenOf, FromCycle, HasParentIn;
    forall y | y in num ensures HasParentIn(adj, num.Keys, y) {
      LeftoverHasParent(pairs, nodes, adj, done, y);
    }
    BackwardClosedFromCycle(adj, num.Keys, [x]);
  }

  /** When the queue runs dry, what is left is what comes from a cycle. */
  lemma LeftoverComesFromCycles<T(!new)>(pairs: Pairs<T>, nodes: set<T>, adj: Adjacency<T>, done: set<T>,
                                         num: map<T, nat>, ch: Adjacency<T>)
    requires Describes(pairs, nodes, adj) && Remaining(pairs, nodes, adj, done, num, ch)
    requires forall x :: x in num ==> num[x] > 0
    requires forall x :: x in done ==> HasLevel(nodes, adj, x)
    ensures forall x :: x in nodes ==> (x in num <==> FromCycle(adj, x))
    ensures num != map[] <==> HasCycle(adj)
  {
    hide InCount, ChildrenOf, FromCycle, HasLevel;
    forall x | x in num ensures FromCycle(adj, x) {
      LeftoverFromCycle(pairs, nodes, adj, done, num, ch, x);
    }
    forall x | x in done ensures !FromCycle(adj, x) {
      HasLevelNotFromCycle(nodes, adj, x);
    }
    assert forall x :: x in nodes ==> (x in num <==> FromCycle(adj, x));
    FromCycleIffHasCycle(nodes, adj);
    assert num.Keys == set x | x in nodes && FromCycle(adj, x);
  }

  lemma QueueStart<T(!new)>(pairs: Pairs<T>, nodes: set<T>, adj: Adjacency<T>, num: map<T, nat>, answer: seq<T>)
    requires Describes(pairs, nodes, adj) && num.Keys == nodes
    requires forall x :: x in num ==> num[x] == InCount(pairs, x, {})
    requires Distinct(answer) && forall x :: x in answer <==> x in num && num[x] == 0
    ensures Queued(pairs, nodes, adj, answer, Repeat<nat>(|answer|, 0), 0, num, adj)
  {
    hide InCount, ChildrenOf, Deep, Level, Describes;
    forall j | 0 <= j < |answer| ensures answer[j] in Level(nodes, adj, 0) {
      RootDepth(pairs, nodes, adj, answer[j]);
    }
    assert SetOf(answer[..0]) == {} && adj - {} == adj;
  }

  /** No key is ever missed while the head of the queue is taken out. */
  lemma QueueHead<T(!new)>(pairs: Pairs<T>, nodes: set<T>, adj: Adjacency<T>,
                           answer: seq<T>, depth: seq<nat>, i: nat, num: map<T, nat>, ch: Adjacency<T>)
    requires i < |answer| && Describes(pairs, nodes, adj)
    requires Queued(pairs, nodes, adj, answer, depth, i, num, ch)
    ensures answer[i] in num
    ensures forall c :: c in Kids(ch, answer[i]) ==>
                          c in num && c != answer[i] && num[c] >= multiset(Kids(ch, answer[i]))[c]
  {
    hide InCount, ChildrenOf, Deep, Describes;
    assert answer[i] in answer[i..];
    forall c | c in Kids(ch, answer[i])
      ensures c in num && c != answer[i] && num[c] >= multiset(Kids(ch, answer[i]))[c]
    {
      KidsAreCounted(pairs, nodes, adj, SetOf(answer[..i]), num, ch, answer[i], c);
    }
  }

  lemma QueueEmpty<T(!new)>(pairs: Pairs<T>, nodes: set<T>, adj: Adjacency<T>,
                            answer: seq<T>, depth: seq<nat>, num: map<T, nat>, ch: Adjacency<T>)
    requires Describes(pairs, nodes, adj)
    requires Queued(pairs, nodes, adj, answer, depth, |answer|, num, ch)
    ensures SortedByDepth(nodes, adj, answer)
    ensures forall x :: x in answer <==> x in nodes && !FromCycle(adj, x)
    ensures num != map[] <==> HasCycle(adj)
    ensures forall x :: x in num <==> x in nodes && FromCycle(adj, x)
    ensures forall x :: x in num ==> num[x] == InCount(pairs, x, SetOf(answer)) > 0
    ensures ch == adj - SetOf(answer)
  {
    hide InCount, ChildrenOf, Deep, Describes, FromCycle, HasCycle, Level;
    assert answer[|answer|..] == [] && answer[..|answer|] == answer;
    forall x | x in SetOf(answer) ensures HasLevel(nodes, adj, x) {
      var j :| 0 <= j < |answer| && answer[j] == x;
      assert answer[j] in Level(nodes, adj, depth[j]);
    }
    LeftoverComesFromCycles(pairs, nodes, adj, SetOf(answer), num, ch);
    assert forall x :: x in answer <==> x in SetOf(answer);
  }

  // ---------- First come, first served ----------

  /** picks[k] says at whose turn answer[k] came up: -1 for an element without
      parents, otherwise the place in the answer of the last of its parents. Turns
      are taken in order, and within a turn in the order of the last listings. */
  ghost predicate Served<T(!new)>(adj: Adjacency<T>, answer: seq<T>, picks: seq<int>) {
    && |picks| == |answer|
    && (forall k :: 0 <= k < |answer| ==> -1 <= picks[k] < k && LastParentAt(adj, answer, picks[k], answer[k]))
    && (forall k, l :: 0 <= k < l < |answer| ==> picks[k] <= picks[l])
    && (forall k, l :: 0 <= k < l < |answer| && 0 <= picks[k] == picks[l] ==>
          ListedBefore(adj, answer[picks[k]], answer[k], answer[l]))
  }

  ghost predicate LastParentAt<T(!new)>(adj: Adjacency<T>, answer: seq<T>, p: int, x: T)
    requires -1 <= p < |answer|
  {
    && (p >= 0 ==> Edge(adj, answer[p], x))
    && forall q :: Edge(adj, q, x) ==> q in answer[..p + 1]
  }

  ghost predicate ListedBefore<T(!new)>(adj: Adjacency<T>, p: T, x: T, y: T) {
    LastListed(Kids(adj, p), x) < LastListed(Kids(adj, p), y)
  }

  ghost predicate FirstComeFirstServed<T(!new)>(adj: Adjacency<T>, answer: seq<T>) {
    exists picks :: Served(adj, answer, picks)
  }

  /** The turns up to i have been taken. */
  ghost predicate ServedBy<T(!new)>(adj: Adjacency<T>, answer: seq<T>, picks: seq<int>, i: nat) {
    Served(adj, answer, picks) && forall k :: 0 <= k < |picks| ==> picks[k] < i
  }

  lemma AllServed<T(!new)>(adj: Adjacency<T>, answer: seq<T>, picks: seq<int>, i: nat)
    requires ServedBy(adj, answer, picks, i)
    ensures FirstComeFirstServed(adj, answer)
  {
    hide Served;
  }

  lemma ServedStart<T(!new)>(pairs: Pairs<T>, nodes: set<T>, adj: Adjacency<T>, num: map<T, nat>, answer: seq<T>)
    requires Describes(pairs, nodes, adj)
    requires forall x :: x in num ==> num[x] == InCount(pairs, x, {})
    requires forall x :: x in answer ==> x in num && num[x] == 0
    ensures ServedBy(adj, answer, Repeat<int>(|answer|, -1), 0)
  {
    hide InCount, Describes, Edge;
    forall k | 0 <= k < |answer| ensures LastParentAt(adj, answer, -1, answer[k]) {
      CountZeroIffParentsDone(pairs, nodes, adj, answer[k], {});
    }
  }

  /** The children that come up at turn i have all their parents in answer[..i + 1]. */
  lemma ServedNow<T(!new)>(pairs: Pairs<T>, nodes: set<T>, adj: Adjacency<T>, answer: seq<T>, i: nat,
                           ch: Adjacency<T>, num': map<T, nat>, x: T)
    requires Describes(pairs, nodes, adj) && i < |answer| && Distinct(answer)
    requires ch == adj - SetOf(answer[..i])
    requires Remaining(pairs, nodes, adj, SetOf(answer[..i + 1]), num', ch - {answer[i]})
    requires x in Kids(ch, answer[i]) && x in num' && num'[x] == 0
    ensures LastParentAt(adj, answer, i, x) && Kids(ch, answer[i]) == Kids(adj, answer[i])
  {
    hide InCount, Describes;
    CountZeroIffParentsDone(pairs, nodes, adj, x, SetOf(answer[..i + 1]));
    assert answer[i] in ch;
  }

  lemma ReadyIsServed<T(!new)>(pairs: Pairs<T>, nodes: set<T>, adj: Adjacency<T>, answer: seq<T>, depth: seq<nat>, i: nat,
                               num: map<T, nat>, ch: Adjacency<T>, num': map<T, nat>, ready: seq<T>)
    requires Describes(pairs, nodes, adj) && i < |answer| && |depth| == |answer|
    requires Queued(pairs, nodes, adj, answer, depth, i, num, ch)
    requires Queued(pairs, nodes, adj, answer + ready, depth + Repeat<nat>(|ready|, depth[i] + 1), i + 1, num', ch - {answer[i]})
    requires forall x :: x in ready ==> x in Kids(ch, answer[i]) && x in num' && num'[x] == 0
    requires InListingOrder(Kids(ch, answer[i]), ready)
    ensures forall x :: x in ready ==> LastParentAt(adj, answer, i, x)
    ensures InListingOrder(Kids(adj, answer[i]), ready)
  {
    hide InCount, Describes, Level, ParentsIn, LastParentAt, LastListed;
    assert (answer + ready)[..i + 1] == answer[..i + 1];
    forall x | x in ready ensures LastParentAt(adj, answer, i, x) && Kids(ch, answer[i]) == Kids(adj, answer[i]) {
      ServedNow(pairs, nodes, adj, answer, i, ch, num', x);
    }
    if ready != [] { assert ready[0] in ready; }
  }

  lemma ServedStep<T(!new)>(adj: Adjacency<T>, answer: seq<T>, picks: seq<int>, i: nat, ready: seq<T>)
    requires i < |answer| && ServedBy(adj, answer, picks, i)
    requires forall x :: x in ready ==> LastParentAt(adj, answer, i, x)
    requires InListingOrder(Kids(adj, answer[i]), ready)
    ensures ServedBy(adj, answer + ready, picks + Repeat<int>(|ready|, i), i + 1)
  {
    hide LastParentAt, Kids, LastListed;
    var answer', picks' := answer + ready, picks + Repeat<int>(|ready|, i);
    forall k | 0 <= k < |answer'| ensures -1 <= picks'[k] < k && LastParentAt(adj, answer', picks'[k], answer'[k]) {
      LastParentStays(adj, answer, ready, picks'[k], answer'[k]);
      if k >= |answer| { assert answer'[k] in ready; }
    }
    forall k, l | 0 <= k < l < |answer'| && 0 <= picks'[k] == picks'[l]
      ensures ListedBefore(adj, answer'[picks'[k]], answer'[k], answer'[l])
    {
      if l < |answer| {
        assert ListedBefore(adj, answer[picks[k]], answer[k], answer[l]);
      } else {
        assert answer'[k] == ready[k - |answer|] && answer'[l] == ready[l - |answer|];
      }
    }
  }

  lemma TurnTaken<T(!new)>(pairs: Pairs<T>, nodes: set<T>, adj: Adjacency<T>, answer: seq<T>, depth: seq<nat>, picks: seq<int>,
                           i: nat, num: map<T, nat>, ch: Adjacency<T>, num': map<T, nat>, ready: seq<T>)
    requires Describes(pairs, nodes, adj) && i < |answer| && |depth| == |answer| && ServedBy(adj, answer, picks, i)
    requires Queued(pairs, nodes, adj, answer, depth, i, num, ch)
    requires Queued(pairs, nodes, adj, answer + ready, depth + Repeat<nat>(|ready|, depth[i] + 1), i + 1, num', ch - {answer[i]})
    requires forall x :: x in ready ==> x in Kids(ch, answer[i]) && x in num' && num'[x] == 0
    requires InListingOrder(Kids(ch, answer[i]), ready)
    ensures ServedBy(adj, answer + ready, picks + Repeat<int>(|ready|, i), i + 1)
  {
    hide Describes, Queued, ServedBy, InListingOrder, Kids, LastParentAt;
    ReadyIsServed(pairs, nodes, adj, answer, depth, i, num, ch, num', ready);
    ServedStep(adj, answer, picks, i, ready);
  }

  lemma LastParentStays<T(!new)>(adj: Adjacency<T>, answer: seq<T>, ready: seq<T>, p: int, x: T)
    requires -1 <= p < |answer|
    ensures LastParentAt(adj, answer + ready, p, x) <==> LastParentAt(adj, answer, p, x)
  {
    hide Edge;
    assert (answer + ready)[..p + 1] == answer[..p + 1];
  }

  /** Where the last parent stands does not depend on what comes after it. */
  lemma SameLastParent<T(!new)>(adj: Adjacency<T>, a: seq<T>, b: seq<T>, k: nat, p: int, q: int, x: T)
    requires k <= |a| && k <= |b| && a[..k] == b[..k] && Distinct(b)
    requires -1 <= p < k && LastParentAt(adj, a, p, x)
    requires -1 <= q < |b| && LastParentAt(adj, b, q, x)
    ensures p == q
  {
    hide Edge;
    assert a[..p + 1] == a[..k][..p + 1] == b[..k][..p + 1] == b[..p + 1];
    if p >= 0 { assert a[p] == a[..k][p] == b[..k][p] == b[p]; }
  }

  /** The next element is forced, once the answers agree so far. */
  lemma SameNext<T(!new)>(adj: Adjacency<T>, a: seq<T>, b: seq<T>, pa: seq<int>, pb: seq<int>, k: nat, m: nat, l: nat)
    requires Served(adj, a, pa) && Served(adj, b, pb) && Distinct(a) && Distinct(b)
    requires k < |a| && k < |b| && a[..k] == b[..k] && pa[k] >= 0 && pb[k] >= 0
    requires k <= m < |a| && a[m] == b[k] && k <= l < |b| && b[l] == a[k]
    ensures a[k] == b[k]
  {
    hide LastParentAt, LastListed, Kids;
    var p := pa[k];
    assert a[p] == a[..k][p] == b[..k][p] == b[p];
    SameLastParent(adj, a, b, k, pa[k], pb[l], a[k]);
    SameLastParent(adj, b, a, k, pb[k], pa[m], b[k]);
  }

  /** The only freedom that topsort's answer has is the order of the elements
      without parents: two answers on the same graph that agree on these are equal. */
  lemma {:induction false} OnlyRootsAreFree<T(!new)>(adj: Adjacency<T>, a: seq<T>, b: seq<T>, pa: seq<int>, pb: seq<int>, k: nat)
    requires Served(adj, a, pa) && Served(adj, b, pb) && Distinct(a) && Distinct(b)
    requires forall x :: x in a <==> x in b
    requires forall j :: 0 <= j < |a| && pa[j] == -1 ==> j < |b| && b[j] == a[j]
    requires forall j :: 0 <= j < |b| && pb[j] == -1 ==> j < |a| && a[j] == b[j]
    requires k <= |a|
    ensures k <= |b| && a[..k] == b[..k]
  {
    hide Served;
    if k > 0 {
      var n := k - 1;
      OnlyRootsAreFree(adj, a, b, pa, pb, n);
      ServedSizes(adj, a, pa);
      ServedSizes(adj, b, pb);
      assert a[..k] == a[..n] + [a[n]];
      var l := PlaceOf(b, a[n], a[..n], b[..n]);
      if pa[n] >= 0 && pb[n] >= 0 {
        var m := PlaceOf(a, b[n], b[..n], a[..n]);
        SameNext(adj, a, b, pa, pb, n, m, l);
      }
      assert b[..k] == b[..n] + [b[n]];
    }
  }

  lemma ServedSizes<T(!new)>(adj: Adjacency<T>, a: seq<T>, pa: seq<int>)
    requires Served(adj, a, pa)
    ensures |pa| == |a| && forall k :: 0 <= k < |a| ==> pa[k] >= -1
  {
  }

  lemma PlaceOf<T(!new)>(b: seq<T>, x: T, before: seq<T>, prefix: seq<T>) returns (l: nat)
    requires x in b && prefix <= b && before == prefix && x !in before
    ensures |prefix| <= l < |b| && b[l] == x
  {
    var rest := b[|prefix|..];
    assert b == prefix + rest;
    var j :| 0 <= j < |rest| && rest[j] == x;
    l := |prefix| + j;
  }

  method Topsort<T(==, !new)>(pairs: Pairs<T>) returns (r: Outcome<T>)
    // the answer goes by nondecreasing longest-walk depth
    ensures SortedByDepth(Elements(pairs), GraphOf(pairs), r.answer)
    // and first come, first served
    ensures FirstComeFirstServed(GraphOf(pairs), r.answer)
    // it holds exactly the elements that do not come from a cycle
    ensures forall x :: x in r.answer <==> x in Elements(pairs) && !FromCycle(GraphOf(pairs), x)
    // CycleError exactly when the graph has an elementary cycle
    ensures r.CycleError? <==> HasCycle(GraphOf(pairs))
    // what a CycleError reports: the elements that come from a cycle, each with
    // the number of pairs from parents that are left over as well, and their children
    ensures r.CycleError? ==>
              && (forall x :: x in r.numParents <==> x in Elements(pairs) && FromCycle(GraphOf(pairs), x))
              && (forall x :: x in r.numParents ==>
                    r.numParents[x] == InCount(pairs, x, SetOf(r.answer)) > 0)
              && r.children == GraphOf(pairs) - SetOf(r.answer)
  {
    hide InCount, ChildrenOf, Closed, Deep, Level, Describes, ParentsIn, FromCycle, HasCycle, Remaining, Queued, ByDepth,
      SortedByDepth, SetOf, ServedBy, FirstComeFirstServed, InListingOrder, Distinct, GraphOf, Elements;
    ghost var nodes, adj := Elements(pairs), GraphOf(pairs);
    var num, ch := BuildGraph(pairs);
    var answer := WithoutParents(num);
    ghost var depth := Repeat<nat>(|answer|, 0);
    ghost var picks := Repeat<int>(|answer|, -1);
    QueueStart(pairs, nodes, adj, num, answer);
    ServedStart(pairs, nodes, adj, num, answer);
    var i := 0;
    while i < |answer|
      invariant 0 <= i <= |answer|
      invariant |depth| == |answer|
      invariant Queued(pairs, nodes, adj, answer, depth, i, num, ch)
      invariant ServedBy(adj, answer, picks, i)
      decreases num.Keys
    {
      var parent := answer[i];
      ghost var num0, ch0 := num, ch;
      QueueHead(pairs, nodes, adj, answer, depth, i, num, ch);
      num := num - {parent};
      var ready := [];
      NothingListed(Kids(ch, parent));
      if parent in ch {
        num, ready := KnockDown(num, ch[parent]);
        ch := ch - {parent};
      }
      assert ch == ch0 - {parent};
      QueueStep(pairs, nodes, adj, answer, depth, i, num0, ch0, num, ready);
      TurnTaken(pairs, nodes, adj, answer, depth, picks, i, num0, ch0, num, ready);
      picks := picks + Repeat<int>(|ready|, i);
      answer, depth := answer + ready, depth + Repeat<nat>(|ready|, depth[i] + 1);
      i := i + 1;
    }
    QueueEmpty(pairs, nodes, adj, answer, depth, num, ch);
    AllServed(adj, answer, picks, i);
    if num != map[] {
      r := CycleError(answer, num, ch);
    } else {
      r := Sorted(answer);
    }
  }

  // ---------- topsort_levels ----------

  lemma InCountMonotone<T(!new)>(pairs: Pairs<T>, x: T, done: set<T>, more: set<T>)
    requires done <= more
    ensures InCount(pairs, x, more) <= InCount(pairs, x, done)
  {
    if pairs != [] { InCountMonotone(pairs[..|pairs| - 1], x, done, more); }
  }

  lemma ShallowParentsIn<T(!new)>(nodes: set<T>, adj: Adjacency<T>, k: nat)
    requires Closed(nodes, adj)
    ensures ParentsIn(adj, nodes - Deep(nodes, adj, k))
  {
    forall x, q | x in nodes - Deep(nodes, adj, k) && Edge(adj, q, x) ensures q in nodes - Deep(nodes, adj, k) {
      DeepShrinks(nodes, adj, k, k + 1);
      if q in Deep(nodes, adj, k) { assert HasParentIn(adj, Deep(nodes, adj, k), x); }
    }
  }

  /** After k levels have been peeled off, the zero counts are level k. */
  lemma ZerosAreLevel<T(!new)>(pairs: Pairs<T>, nodes: set<T>, adj: Adjacency<T>, k: nat, x: T)
    requires Describes(pairs, nodes, adj) && x in Deep(nodes, adj, k)
    ensures InCount(pairs, x, nodes - Deep(nodes, adj, k)) == 0 <==> x in Level(nodes, adj, k)
  {
    var deep := Deep(nodes, adj, k);
    DeepShrinks(nodes, adj, 0, k);
    CountZeroIffParentsDone(pairs, nodes, adj, x, nodes - deep);
    assert x in Deep(nodes, adj, k + 1) <==> HasParentIn(adj, deep, x);
  }

  lemma ShallowHasLevel<T(!new)>(nodes: set<T>, adj: Adjacency<T>, k: nat, x: T)
    requires x in nodes && x !in Deep(nodes, adj, k)
    ensures exists j: nat :: j < k && x in Level(nodes, adj, j)
  {
    if x in Deep(nodes, adj, k - 1) {
      assert x in Level(nodes, adj, k - 1);
    } else {
      ShallowHasLevel(nodes, adj, k - 1, x);
    }
  }

  /** Lines 217-224: take out the nodes of one level. */
  method PeelLevel<T(==, !new)>(ghost pairs: Pairs<T>, ghost nodes: set<T>, ghost adj: Adjacency<T>, ghost done: set<T>,
                                num0: map<T, nat>, ch0: Adjacency<T>, level: seq<T>)
    returns (num: map<T, nat>, ch: Adjacency<T>)
    requires Describes(pairs, nodes, adj) && Remaining(pairs, nodes, adj, done, num0, ch0)
    requires ParentsIn(adj, done) && Distinct(level)
    requires forall x :: x in level ==> x in num0 && num0[x] == 0
    ensures Remaining(pairs, nodes, adj, done + SetOf(level), num, ch)
    ensures num.Keys == num0.Keys - SetOf(level)
  {
    hide InCount, ChildrenOf, Describes, ParentsIn;
    num, ch := num0, ch0;
    ghost var out := done;
    for j := 0 to |level|
      invariant out == done + SetOf(level[..j])
      invariant Remaining(pairs, nodes, adj, out, num, ch)
      invariant ParentsIn(adj, out)
    {
      var parent := level[j];
      assert level[..j + 1] == level[..j] + [parent];
      assert parent in level && parent !in level[..j];
      InCountMonotone(pairs, parent, done, out);
      ghost var num1, ch1 := num, ch;
      num := num - {parent};
      if parent in ch {
        forall c | c in ch[parent] ensures c in num && num[c] >= multiset(ch[parent])[c] {
          KidsAreCounted(pairs, nodes, adj, out, num1, ch, parent, c);
        }
        num := Decrement(num, ch[parent]);
        ch := ch - {parent};
      }
      TakeOut(pairs, nodes, adj, out, num1, ch1, parent, num);
      TakenOutParentsIn(pairs, nodes, adj, out, num1, ch1, parent);
      assert ch == ch1 - {parent};
      out := out + {parent};
    }
    assert level[..|level|] == level;
  }

  /** Level k of `levels` lists, once each, the nodes of depth k. */
  ghost predicate PeeledLevels<T(!new)>(nodes: set<T>, adj: Adjacency<T>, levels: seq<seq<T>>) {
    forall k :: 0 <= k < |levels| ==>
                  levels[k] != [] && Distinct(levels[k]) && SetOf(levels[k]) == Level(nodes, adj, k)
  }

  /** No element is in two levels. */
  ghost predicate LevelsApart<T(!new)>(levels: seq<seq<T>>) {
    forall j, k, x :: 0 <= j < k < |levels| && x in levels[j] ==> x !in levels[k]
  }

  lemma PeeledApart<T(!new)>(nodes: set<T>, adj: Adjacency<T>, levels: seq<seq<T>>)
    requires PeeledLevels(nodes, adj, levels)
    ensures LevelsApart(levels)
  {
    hide Level;
    forall j, k, x | 0 <= j < k < |levels| && x in levels[j] && x in levels[k] ensures false {
      assert x in SetOf(levels[j]) && x in SetOf(levels[k]);
      LevelsDisjoint(nodes, adj, x, j, k);
    }
  }

  /** |levels| levels have been peeled off; the dictionaries describe the rest. */
  ghost predicate Peeling<T(!new)>(pairs: Pairs<T>, nodes: set<T>, adj: Adjacency<T>, levels: seq<seq<T>>,
                                   num: map<T, nat>, ch: Adjacency<T>) {
    && Remaining(pairs, nodes, adj, nodes - Deep(nodes, adj, |levels|), num, ch)
    && PeeledLevels(nodes, adj, levels)
  }

  lemma PeelStart<T(!new)>(pairs: Pairs<T>, adj: Adjacency<T>, num: map<T, nat>)
    requires forall x :: x in num ==> num[x] == InCount(pairs, x, {})
    ensures Peeling(pairs, num.Keys, adj, [], num, adj)
  {
    DeepZero(num.Keys, adj);
  }

  lemma ZerosAre<T(!new)>(pairs: Pairs<T>, nodes: set<T>, adj: Adjacency<T>, levels: seq<seq<T>>,
                          num: map<T, nat>, ch: Adjacency<T>, level: seq<T>)
    requires Describes(pairs, nodes, adj) && Peeling(pairs, nodes, adj, levels, num, ch)
    requires forall x :: x in level <==> x in num && num[x] == 0
    ensures SetOf(level) == Level(nodes, adj, |levels|)
    ensures Remaining(pairs, nodes, adj, nodes - Deep(nodes, adj, |levels|), num, ch)
    ensures ParentsIn(adj, nodes - Deep(nodes, adj, |levels|))
  {
    var k := |levels|;
    ShallowParentsIn(nodes, adj, k);
    hide InCount, ChildrenOf, Deep, Describes, ParentsIn;
    DeepShrinks(nodes, adj, 0, k);
    DeepZero(nodes, adj);
    forall x | x in Deep(nodes, adj, k) ensures x in level <==> x in Level(nodes, adj, k) {
      ZerosAreLevel(pairs, nodes, adj, k, x);
    }
  }

  lemma PeelNext<T(!new)>(pairs: Pairs<T>, nodes: set<T>, adj: Adjacency<T>, levels: seq<seq<T>>, level: seq<T>,
                          num: map<T, nat>, ch: Adjacency<T>)
    requires PeeledLevels(nodes, adj, levels) && Distinct(level) && level != []
    requires SetOf(level) == Level(nodes, adj, |levels|)
    requires Remaining(pairs, nodes, adj, nodes - Deep(nodes, adj, |levels|) + SetOf(level), num, ch)
    ensures Peeling(pairs, nodes, adj, levels + [level], num, ch)
  {
    hide Deep;
    DeepShrinks(nodes, adj, |levels|, |levels| + 1);
    DeepShrinks(nodes, adj, 0, |levels|);
    DeepZero(nodes, adj);
    assert nodes - Deep(nodes, adj, |levels| + 1) == nodes - Deep(nodes, adj, |levels|) + SetOf(level);
  }

  lemma PeelEnd<T(!new)>(pairs: Pairs<T>, nodes: set<T>, adj: Adjacency<T>, levels: seq<seq<T>>,
                         num: map<T, nat>, ch: Adjacency<T>)
    requires Describes(pairs, nodes, adj) && Peeling(pairs, nodes, adj, levels, num, ch)
    requires forall x :: x in num ==> num[x] > 0
    ensures forall x :: (exists k :: 0 <= k < |levels| && x in levels[k]) <==> x in nodes && !FromCycle(adj, x)
    ensures num != map[] <==> HasCycle(adj)
    ensures forall x :: x in num <==> x in nodes && FromCycle(adj, x)
    ensures forall x :: x in num ==> num[x] == InCount(pairs, x, nodes - num.Keys)
    ensures ch == adj - (nodes - num.Keys)
  {
    hide InCount, ChildrenOf, Deep, Describes, FromCycle, HasCycle, HasLevel;
    var done := nodes - Deep(nodes, adj, |levels|);
    PeeledCover(nodes, adj, levels);
    LeftoverComesFromCycles(pairs, nodes, adj, done, num, ch);
    assert nodes - num.Keys == done;
  }

  /** The two dictionaries are the caller's: `pairs` is any edge list with which
      they are consistent. */
  method TopsortLevelsCore<T(==, !new)>(ghost pairs: Pairs<T>, numParents: map<T, nat>, children: Adjacency<T>)
    returns (r: LevelOutcome<T>)
    requires Describes(pairs, numParents.Keys, children)
    requires forall x :: x in numParents ==> numParents[x] == InCount(pairs, x, {})
    ensures PeeledLevels(numParents.Keys, children, r.levels) && LevelsApart(r.levels)
    ensures forall x :: (exists k :: 0 <= k < |r.levels| && x in r.levels[k]) <==>
                        x in numParents && !FromCycle(children, x)
    ensures r.LevelCycleError? <==> HasCycle(children)
    ensures r.LevelCycleError? ==>
              && (forall x :: x in r.numParents <==> x in numParents && FromCycle(children, x))
              && (forall x :: x in r.numParents ==>
                    r.numParents[x] == InCount(pairs, x, numParents.Keys - r.numParents.Keys) > 0)
              && r.children == children - (numParents.Keys - r.numParents.Keys)
  {
    hide InCount, ChildrenOf, Closed, Deep, Level, Describes, ParentsIn, FromCycle, HasCycle, Remaining, Peeling, PeeledLevels,
      LevelsApart;
    ghost var nodes, adj := numParents.Keys, children;
    var num, ch := numParents, children;
    var levels: seq<seq<T>> := [];
    PeelStart(pairs, adj, num);
    while true
      invariant Peeling(pairs, nodes, adj, levels, num, ch)
      decreases num.Keys
    {
      var level := WithoutParents(num);
      ZerosAre(pairs, nodes, adj, levels, num, ch, level);
      if level == [] {
        assert forall x :: x in num && num[x] == 0 ==> x in level;
        break;
      }
      assert level[0] in SetOf(level);
      PeeledSoFar(pairs, nodes, adj, levels, num, ch);
      num, ch := PeelLevel(pairs, nodes, adj, nodes - Deep(nodes, adj, |levels|), num, ch, level);
      PeelNext(pairs, nodes, adj, levels, level, num, ch);
      levels := levels + [level];
    }
    PeelEnd(pairs, nodes, adj, levels, num, ch);
    PeeledSoFar(pairs, nodes, adj, levels, num, ch);
    PeeledApart(nodes, adj, levels);
    if num != map[] {
      r := LevelCycleError(levels, num, ch);
    } else {
      r := Finished(levels);
    }
  }

  lemma PeeledSoFar<T(!new)>(pairs: Pairs<T>, nodes: set<T>, adj: Adjacency<T>, levels: seq<seq<T>>,
                             num: map<T, nat>, ch: Adjacency<T>)
    requires Peeling(pairs, nodes, adj, levels, num, ch)
    ensures PeeledLevels(nodes, adj, levels)
  {
  }

  lemma DeepZero<T(!new)>(nodes: set<T>, adj: Adjacency<T>)
    ensures Deep(nodes, adj, 0) == nodes && nodes - Deep(nodes, adj, 0) == {} && adj - {} == adj
  {
  }

  lemma PeeledCover<T(!new)>(nodes: set<T>, adj: Adjacency<T>, levels: seq<seq<T>>)
    requires PeeledLevels(nodes, adj, levels)
    ensures forall x :: (exists k :: 0 <= k < |levels| && x in levels[k]) <==> x in nodes - Deep(nodes, adj, |levels|)
    ensures forall x :: x in nodes - Deep(nodes, adj, |levels|) ==> HasLevel(nodes, adj, x)
  {
    hide Deep;
    forall x | x in nodes - Deep(nodes, adj, |levels|)
      ensures HasLevel(nodes, adj, x) && exists k :: 0 <= k < |levels| && x in levels[k]
    {
      ShallowHasLevel(nodes, adj, |levels|, x);
      var j: nat :| j < |levels| && x in Level(nodes, adj, j);
      assert x in SetOf(levels[j]);
    }
    forall x, k | 0 <= k < |levels| && x in levels[k] ensures x in nodes - Deep(nodes, adj, |levels|) {
      assert x in SetOf(levels[k]);
      DeepShrinks(nodes, adj, k + 1, |levels|);
      DeepShrinks(nodes, adj, 0, k);
      DeepZero(nodes, adj);
    }
  }

  method TopsortLevels<T(==, !new)>(pairs: Pairs<T>) returns (r: LevelOutcome<T>)
    ensures PeeledLevels(Elements(pairs), GraphOf(pairs), r.levels) && LevelsApart(r.levels)
    ensures forall x :: (exists k :: 0 <= k < |r.levels| && x in r.levels[k]) <==>
                        x in Elements(pairs) && !FromCycle(GraphOf(pairs), x)
    ensures r.LevelCycleError? <==> HasCycle(GraphOf(pairs))
    ensures r.LevelCycleError? ==>
              && (forall x :: x in r.numParents <==> x in Elements(pairs) && FromCycle(GraphOf(pairs), x))
              && (forall x :: x in r.numParents ==>
                    r.numParents[x] == InCount(pairs, x, Elements(pairs) - r.numParents.Keys) > 0)
              && r.children == GraphOf(pairs) - (Elements(pairs) - r.numParents.Keys)
  {
    hide *;
    var num, ch := BuildGraph(pairs);
    r := TopsortLevelsCore(pairs, num, ch);
  }

  // ---------- The two sorts agree ----------

  /** In an order that goes by depth, every parent precedes each of its children. */
  lemma ParentsFirst<T(!new)>(nodes: set<T>, adj: Adjacency<T>, order: seq<T>, i: nat, j: nat)
    requires Closed(nodes, adj) && SortedByDepth(nodes, adj, order)
    requires i < |order| && j < |order| && Edge(adj, order[i], order[j])
    ensures i < j
  {
    hide Deep, Level;
    var depth :| ByDepth(nodes, adj, order, depth);
    EdgeClimbs(nodes, adj, order[i], order[j], depth[i], depth[j]);
  }

  /** The first |nodes - Deep(k)| items of topsort's answer are the nodes of depth below k. */
  lemma PrefixIsShallow<T(!new)>(nodes: set<T>, adj: Adjacency<T>, order: seq<T>, k: nat)
    requires Closed(nodes, adj) && SortedByDepth(nodes, adj, order)
    requires forall x :: x in order <==> x in nodes && !FromCycle(adj, x)
    ensures |nodes - Deep(nodes, adj, k)| <= |order|
    ensures SetOf(order[..|nodes - Deep(nodes, adj, k)|]) == nodes - Deep(nodes, adj, k)
  {
    hide Deep, Level, FromCycle;
    var depth :| ByDepth(nodes, adj, order, depth);
    var m := 0;
    while m < |order| && depth[m] < k
      invariant 0 <= m <= |order|
      invariant forall j :: 0 <= j < m ==> depth[j] < k
    {
      m := m + 1;
    }
    var shallow := nodes - Deep(nodes, adj, k);
    forall j | 0 <= j < |order| ensures order[j] in shallow <==> j < m {
      assert depth[j] < k <==> j < m;
      DepthBelow(nodes, adj, order[j], depth[j], k);
    }
    forall x | x in shallow ensures x in order {
      ShallowHasLevel(nodes, adj, k, x);
      assert HasLevel(nodes, adj, x);
      HasLevelNotFromCycle(nodes, adj, x);
    }
    assert SetOf(order[..m]) == shallow;
    DistinctCardinality(order[..m]);
  }

  lemma DepthBelow<T(!new)>(nodes: set<T>, adj: Adjacency<T>, x: T, d: nat, k: nat)
    requires x in nodes && x in Level(nodes, adj, d)
    ensures x in nodes - Deep(nodes, adj, k) <==> d < k
  {
    if d < k { DeepShrinks(nodes, adj, d + 1, k); } else { DeepShrinks(nodes, adj, k, d); }
  }

  /** Where level k starts in topsort's answer. */
  ghost function Cut<T(!new)>(levels: seq<seq<T>>, k: nat): nat
    requires k <= |levels|
  {
    if k == 0 then 0 else Cut(levels, k - 1) + |levels[k - 1]|
  }

  lemma CutCounts<T(!new)>(nodes: set<T>, adj: Adjacency<T>, levels: seq<seq<T>>, k: nat)
    requires PeeledLevels(nodes, adj, levels) && k <= |levels|
    ensures Cut(levels, k) == |nodes - Deep(nodes, adj, k)|
  {
    hide Deep;
    if k == 0 {
      DeepZero(nodes, adj);
    } else {
      CutCounts(nodes, adj, levels, k - 1);
      DistinctCardinality(levels[k - 1]);
      ShallowGrows(nodes, adj, k - 1);
    }
  }

  lemma ShallowGrows<T(!new)>(nodes: set<T>, adj: Adjacency<T>, k: nat)
    ensures |nodes - Deep(nodes, adj, k + 1)| == |nodes - Deep(nodes, adj, k)| + |Level(nodes, adj, k)|
  {
    hide Deep;
    DeepShrinks(nodes, adj, k, k + 1);
    DeepShrinks(nodes, adj, 0, k);
    DeepZero(nodes, adj);
    assert nodes - Deep(nodes, adj, k + 1) == (nodes - Deep(nodes, adj, k)) + Level(nodes, adj, k);
  }

  /** Cutting topsort's answer at the level sizes gives a permutation of each
      level that topsort_levels yields on the same pairs, cyclic or not. */
  lemma LevelsCutTheAnswer<T(!new)>(nodes: set<T>, adj: Adjacency<T>, order: seq<T>, levels: seq<seq<T>>, k: nat)
    requires Closed(nodes, adj) && SortedByDepth(nodes, adj, order) && PeeledLevels(nodes, adj, levels)
    requires forall x :: x in order <==> x in nodes && !FromCycle(adj, x)
    requires k < |levels|
    ensures Cut(levels, k + 1) <= |order|
    ensures multiset(order[Cut(levels, k)..Cut(levels, k + 1)]) == multiset(levels[k])
  {
    hide Deep, FromCycle, SortedByDepth;
    CutCounts(nodes, adj, levels, k);
    CutCounts(nodes, adj, levels, k + 1);
    PrefixIsShallow(nodes, adj, order, k);
    PrefixIsShallow(nodes, adj, order, k + 1);
    var a, b := Cut(levels, k), Cut(levels, k + 1);
    SegmentIsLevel(nodes, adj, order, a, b, k);
    DistinctMultiset(order[a..b]);
    DistinctMultiset(levels[k]);
  }

  lemma SegmentIsLevel<T(!new)>(nodes: set<T>, adj: Adjacency<T>, order: seq<T>, a: nat, b: nat, k: nat)
    requires SortedByDepth(nodes, adj, order) && a <= b <= |order|
    requires SetOf(order[..a]) == nodes - Deep(nodes, adj, k)
    requires SetOf(order[..b]) == nodes - Deep(nodes, adj, k + 1)
    ensures Distinct(order[a..b]) && SetOf(order[a..b]) == Level(nodes, adj, k)
  {
    hide Deep;
    DeepShrinks(nodes, adj, 0, k);
    DeepZero(nodes, adj);
    assert order[..b] == order[..a] + order[a..b];
    forall x | x in order[a..b] ensures x !in order[..a] {
      var j :| a <= j < b && order[j] == x;
    }
    assert SetOf(order[..b]) == SetOf(order[..a]) + SetOf(order[a..b]);
  }
}
