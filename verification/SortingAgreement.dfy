/** What topsort, topsort_levels and find_cycles say about the same pairs. */
module SortingAgreement {
  import opened Sequences
  import opened Digraph
  import opened TopSort
  import FC = FindCycles

  lemma YieldsIffHasCycle<T(!new)>(adj: Adjacency<T>, cycles: seq<seq<T>>)
    requires FC.CleanYield(adj, cycles)
    requires forall c :: SimpleCycle(adj, c) ==> FC.Found(cycles, c)
    ensures cycles != [] <==> HasCycle(adj)
  {
    hide SimpleCycle;
    if cycles != [] { assert SimpleCycle(adj, cycles[0]); }
  }

  lemma PairsAreClosed<T(!new)>(pairs: Pairs<T>)
    ensures Closed(Elements(pairs), GraphOf(pairs))
    ensures forall p, c :: (p, c) in pairs ==> Edge(GraphOf(pairs), p, c)
  {
    forall p, c | Edge(GraphOf(pairs), p, c) ensures c in Elements(pairs) { PairsAreEdges(pairs, p, c); }
    forall p, c | (p, c) in pairs ensures Edge(GraphOf(pairs), p, c) { PairsAreEdges(pairs, p, c); }
  }

  /** Every element once, each parent before each of its children. */
  ghost predicate DependencyOrder<T(!new)>(pairs: Pairs<T>, order: seq<T>) {
    && Distinct(order)
    && SetOf(order) == Elements(pairs)
    && forall i, j :: 0 <= i < |order| && 0 <= j < |order| && (order[i], order[j]) in pairs ==> i < j
  }

  /** The stretch of the answer where level k is due is a permutation of level k. */
  ghost predicate CutIsLevel<T(!new)>(order: seq<T>, levels: seq<seq<T>>, k: nat)
    requires k < |levels|
  {
    && Cut(levels, k) <= Cut(levels, k + 1) <= |order|
    && multiset(order[Cut(levels, k)..Cut(levels, k + 1)]) == multiset(levels[k])
  }

  /** Run all three on the same pairs. */
  method SortBothWays<T(==, !new)>(pairs: Pairs<T>)
    returns (r: Outcome<T>, l: LevelOutcome<T>, cycles: seq<seq<T>>)
    // both sorts raise exactly when find_cycles has a cycle to show
    ensures r.CycleError? <==> cycles != []
    ensures l.LevelCycleError? <==> cycles != []
    // they leave the same dictionaries behind
    ensures r.CycleError? ==> r.numParents == l.numParents && r.children == l.children
    // the answer, cut at the level sizes, is a permutation of each level
    ensures Cut(l.levels, |l.levels|) == |r.answer|
    ensures forall k :: 0 <= k < |l.levels| ==> CutIsLevel(r.answer, l.levels, k)
    // an acyclic answer lists every element once, parents before children
    ensures cycles == [] ==> DependencyOrder(pairs, r.answer)
  {
    hide FC.CleanYield, FC.Found, SimpleCycle, HasCycle, FromCycle, SortedByDepth, PeeledLevels, Closed, InCount, Edge,
      ChildrenOf, Elements, Deep, DependencyOrder, Describes, SetOf;
    r := Topsort(pairs);
    l := TopsortLevels(pairs);
    ghost var nodes, adj := Elements(pairs), GraphOf(pairs);
    PairsAreClosed(pairs);
    var num, children := BuildGraph(pairs);
    cycles := FC.FindCycles(children);
    YieldsIffHasCycle(adj, cycles);
    if r.CycleError? {
      SameLeftover(pairs, nodes, adj, r, l);
    } else {
      AcyclicAnswer(pairs, r.answer);
    }
    forall k | 0 <= k < |l.levels| ensures CutIsLevel(r.answer, l.levels, k) {
      LevelsCutTheAnswer(nodes, adj, r.answer, l.levels, k);
    }
    LevelsExhaustTheAnswer(nodes, adj, r.answer, l.levels);
  }

  lemma SameLeftover<T(!new)>(pairs: Pairs<T>, nodes: set<T>, adj: Adjacency<T>, r: Outcome<T>, l: LevelOutcome<T>)
    requires r.CycleError? && l.LevelCycleError?
    requires forall x :: x in r.answer <==> x in nodes && !FromCycle(adj, x)
    requires forall x :: x in r.numParents <==> x in nodes && FromCycle(adj, x)
    requires forall x :: x in l.numParents <==> x in nodes && FromCycle(adj, x)
    requires forall x :: x in r.numParents ==> r.numParents[x] == InCount(pairs, x, SetOf(r.answer))
    requires forall x :: x in l.numParents ==> l.numParents[x] == InCount(pairs, x, nodes - l.numParents.Keys)
    requires r.children == adj - SetOf(r.answer) && l.children == adj - (nodes - l.numParents.Keys)
    ensures r.numParents == l.numParents && r.children == l.children
  {
    hide FromCycle, InCount;
    assert r.numParents.Keys == l.numParents.Keys;
    assert SetOf(r.answer) == nodes - l.numParents.Keys;
  }

  lemma AcyclicAnswer<T(!new)>(pairs: Pairs<T>, order: seq<T>)
    requires SortedByDepth(Elements(pairs), GraphOf(pairs), order) && !HasCycle(GraphOf(pairs))
    requires forall x :: x in order <==> x in Elements(pairs) && !FromCycle(GraphOf(pairs), x)
    ensures DependencyOrder(pairs, order)
  {
    hide FromCycle, SortedByDepth, HasCycle, GraphOf;
    var nodes, adj := Elements(pairs), GraphOf(pairs);
    PairsAreClosed(pairs);
    FromCycleIffHasCycle(nodes, adj);
    SortedIsDistinct(nodes, adj, order);
    forall i, j | 0 <= i < |order| && 0 <= j < |order| && (order[i], order[j]) in pairs ensures i < j {
      ParentsFirst(nodes, adj, order, i, j);
    }
    assert forall x :: x in order <==> x in nodes;
  }

  lemma SortedIsDistinct<T(!new)>(nodes: set<T>, adj: Adjacency<T>, order: seq<T>)
    requires SortedByDepth(nodes, adj, order)
    ensures Distinct(order)
  {
  }

  lemma LevelsExhaustTheAnswer<T(!new)>(nodes: set<T>, adj: Adjacency<T>, order: seq<T>, levels: seq<seq<T>>)
    requires Closed(nodes, adj) && SortedByDepth(nodes, adj, order) && PeeledLevels(nodes, adj, levels)
    requires forall x :: x in order <==> x in nodes && !FromCycle(adj, x)
    requires forall x :: (exists k :: 0 <= k < |levels| && x in levels[k]) <==> x in nodes && !FromCycle(adj, x)
    ensures Cut(levels, |levels|) == |order|
  {
    hide Deep, FromCycle, SortedByDepth, PeeledLevels, Closed;
    CutCounts(nodes, adj, levels, |levels|);
    PeeledCover(nodes, adj, levels);
    assert SetOf(order) == nodes - Deep(nodes, adj, |levels|);
    SortedIsDistinct(nodes, adj, order);
    DistinctCardinality(order);
  }
}
