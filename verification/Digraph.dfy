/** Finite directed graphs given by a parent-to-children dictionary, as the
    functions of bindings/python/topsort.py see them: walks, elementary cycles,
    rotations of a cycle, and longest-walk depth. */
module Digraph {
  import opened Sequences

  type Adjacency<T> = map<T, seq<T>>

  ghost predicate Edge<T(!new)>(adj: Adjacency<T>, p: T, c: T) {
    p in adj && c in adj[p]
  }

  /** Every endpoint of an edge, and every key, is a node. */
  ghost predicate Closed<T(!new)>(nodes: set<T>, adj: Adjacency<T>) {
    && adj.Keys <= nodes
    && forall p, c :: Edge(adj, p, c) ==> c in nodes
  }

  ghost function Nodes<T(!new)>(adj: Adjacency<T>): (ns: set<T>)
    ensures Closed(ns, adj)
  {
    adj.Keys + (set p, c | p in adj && c in adj[p] :: c)
  }

  ghost predicate Walk<T(!new)>(adj: Adjacency<T>, w: seq<T>) {
    && w != []
    && forall i :: 0 <= i < |w| - 1 ==> Edge(adj, w[i], w[i + 1])
  }

  ghost predicate SimplePath<T(!new)>(adj: Adjacency<T>, p: seq<T>) {
    Walk(adj, p) && Distinct(p)
  }

  /** An elementary cycle, written the way find_cycles yields it: the last item
      is a parent of the first. */
  ghost predicate SimpleCycle<T(!new)>(adj: Adjacency<T>, c: seq<T>) {
    SimplePath(adj, c) && Edge(adj, Last(c), c[0])
  }

  ghost predicate HasCycle<T(!new)>(adj: Adjacency<T>) {
    exists c :: SimpleCycle(adj, c)
  }

  /** Some walk leads from a node of an elementary cycle to x (x may be on it). */
  ghost predicate FromCycle<T(!new)>(adj: Adjacency<T>, x: T) {
    exists c, w :: SimpleCycle(adj, c) && Walk(adj, w) && w[0] in c && Last(w) == x
  }

  // ---------- Longest-walk depth ----------

  ghost predicate HasParentIn<T(!new)>(adj: Adjacency<T>, s: set<T>, x: T) {
    exists p :: p in s && Edge(adj, p, x)
  }

  /** The nodes at which some walk of k edges ends. */
  ghost function Deep<T(!new)>(nodes: set<T>, adj: Adjacency<T>, k: nat): set<T> {
    if k == 0 then nodes
    else set x | x in nodes && HasParentIn(adj, Deep(nodes, adj, k - 1), x)
  }

  /** The nodes whose longest incoming walk has exactly k edges. */
  ghost function Level<T(!new)>(nodes: set<T>, adj: Adjacency<T>, k: nat): set<T> {
    Deep(nodes, adj, k) - Deep(nodes, adj, k + 1)
  }

  lemma TrivialWalk<T(!new)>(adj: Adjacency<T>, x: T)
    ensures Walk(adj, [x]) && Last([x]) == x
  {
  }

  lemma ExtendWalk<T(!new)>(adj: Adjacency<T>, w: seq<T>, x: T)
    requires Walk(adj, w) && Edge(adj, Last(w), x)
    ensures Walk(adj, w + [x]) && Last(w + [x]) == x
  {
  }

  lemma CutWalk<T(!new)>(adj: Adjacency<T>, w: seq<T>)
    requires Walk(adj, w) && |w| > 1
    ensures Walk(adj, w[..|w| - 1]) && Edge(adj, Last(w[..|w| - 1]), Last(w))
  {
    var i := |w| - 2;
    assert Edge(adj, w[i], w[i + 1]);
  }

  /** The definition of Deep, in terms of walks. */
  lemma DeepIsWalkLength<T(!new)>(nodes: set<T>, adj: Adjacency<T>, k: nat, x: T)
    requires Closed(nodes, adj)
    ensures x in Deep(nodes, adj, k) <==>
            x in nodes && exists w :: Walk(adj, w) && |w| == k + 1 && Last(w) == x
  {
    hide Walk, Edge;
    if k == 0 {
      TrivialWalk(adj, x);
    } else {
      if x in Deep(nodes, adj, k) {
        var p :| p in Deep(nodes, adj, k - 1) && Edge(adj, p, x);
        DeepIsWalkLength(nodes, adj, k - 1, p);
        var w :| Walk(adj, w) && |w| == k && Last(w) == p;
        ExtendWalk(adj, w, x);
      }
      if x in nodes && exists w :: Walk(adj, w) && |w| == k + 1 && Last(w) == x {
        var w :| Walk(adj, w) && |w| == k + 1 && Last(w) == x;
        CutWalk(adj, w);
        DeepIsWalkLength(nodes, adj, k - 1, Last(w[..k]));
      }
    }
  }

  /** x is in level k exactly when k is the length of the longest walk ending at x. */
  lemma LevelIsLongestWalk<T(!new)>(nodes: set<T>, adj: Adjacency<T>, k: nat, x: T)
    requires Closed(nodes, adj) && x in nodes
    ensures x in Level(nodes, adj, k) <==>
            && (exists w :: Walk(adj, w) && Last(w) == x && |w| == k + 1)
            && (forall w :: Walk(adj, w) && Last(w) == x ==> |w| <= k + 1)
  {
    DeepIsWalkLength(nodes, adj, k, x);
    DeepIsWalkLength(nodes, adj, k + 1, x);
    if x in Level(nodes, adj, k) {
      forall w | Walk(adj, w) && Last(w) == x ensures |w| <= k + 1 {
        DeepIsWalkLength(nodes, adj, |w| - 1, x);
        if |w| > k + 1 { DeepShrinks(nodes, adj, k + 1, |w| - 1); }
      }
    }
  }

  lemma DeepShrinks<T(!new)>(nodes: set<T>, adj: Adjacency<T>, j: nat, k: nat)
    requires j <= k
    ensures Deep(nodes, adj, k) <= Deep(nodes, adj, j)
    decreases j, k
  {
    if j > 0 { DeepShrinks(nodes, adj, j - 1, k - 1); }
  }

  /** An edge climbs at least one level. */
  lemma EdgeClimbs<T(!new)>(nodes: set<T>, adj: Adjacency<T>, p: T, c: T, i: nat, j: nat)
    requires Closed(nodes, adj) && Edge(adj, p, c)
    requires p in Level(nodes, adj, i) && c in Level(nodes, adj, j)
    ensures i < j
  {
    assert c in Deep(nodes, adj, i + 1);
    if j <= i { DeepShrinks(nodes, adj, j + 1, i + 1); }
  }

  lemma LevelsDisjoint<T(!new)>(nodes: set<T>, adj: Adjacency<T>, x: T, i: nat, j: nat)
    requires x in Level(nodes, adj, i) && x in Level(nodes, adj, j)
    ensures i == j
  {
    if i < j { DeepShrinks(nodes, adj, i + 1, j); }
    if j < i { DeepShrinks(nodes, adj, j + 1, i); }
  }

  // ---------- Cycles and depth ----------

  /** Nodes on a cycle end walks of every length. */
  lemma CycleNodesAreDeep<T(!new)>(nodes: set<T>, adj: Adjacency<T>, c: seq<T>, k: nat)
    requires Closed(nodes, adj) && SimpleCycle(adj, c)
    ensures forall i :: 0 <= i < |c| ==> c[i] in Deep(nodes, adj, k)
  {
    forall i | 0 <= i < |c| ensures c[i] in Deep(nodes, adj, k) {
      var p := if i == 0 then Last(c) else c[i - 1];
      assert i > 0 ==> Edge(adj, c[i - 1], c[i - 1 + 1]);
      assert Edge(adj, p, c[i]);
      if k > 0 { CycleNodesAreDeep(nodes, adj, c, k - 1); }
    }
  }

  lemma WalkStaysDeep<T(!new)>(nodes: set<T>, adj: Adjacency<T>, w: seq<T>, k: nat)
    requires Closed(nodes, adj) && Walk(adj, w)
    requires forall m: nat :: w[0] in Deep(nodes, adj, m)
    ensures Last(w) in Deep(nodes, adj, k)
  {
    if |w| > 1 {
      assert Edge(adj, w[0], w[0 + 1]);
      forall m: nat ensures w[1] in Deep(nodes, adj, m) {
        assert w[0] in Deep(nodes, adj, m + 1 - 1);
        assert w[1] in Deep(nodes, adj, m + 1);
        DeepShrinks(nodes, adj, m, m + 1);
      }
      WalkStaysDeep(nodes, adj, w[1..], k);
    }
  }

  lemma FromCycleIsDeep<T(!new)>(nodes: set<T>, adj: Adjacency<T>, x: T, k: nat)
    requires Closed(nodes, adj) && FromCycle(adj, x)
    ensures x in Deep(nodes, adj, k)
  {
    var c, w :| SimpleCycle(adj, c) && Walk(adj, w) && w[0] in c && Last(w) == x;
    forall m: nat ensures w[0] in Deep(nodes, adj, m) {
      CycleNodesAreDeep(nodes, adj, c, m);
    }
    WalkStaysDeep(nodes, adj, w, k);
  }

  lemma PrependToPath<T(!new)>(adj: Adjacency<T>, p: T, w: seq<T>)
    requires SimplePath(adj, w) && Edge(adj, p, w[0]) && p !in w
    ensures SimplePath(adj, [p] + w) && SetOf([p] + w) == SetOf(w) + {p}
    ensures Last([p] + w) == Last(w)
  {
    var w' := [p] + w;
    forall i | 0 <= i < |w'| - 1 ensures Edge(adj, w'[i], w'[i + 1]) {
      if i > 0 { assert Edge(adj, w[i - 1], w[i - 1 + 1]); }
    }
  }

  /** An edge from a node of a path back to its head closes a cycle. */
  lemma CloseCycle<T(!new)>(adj: Adjacency<T>, w: seq<T>, i: nat)
    requires SimplePath(adj, w) && i < |w| && Edge(adj, w[i], w[0])
    ensures FromCycle(adj, Last(w))
  {
    hide Edge;
    var c := w[..i + 1];
    forall j | 0 <= j < |c| - 1 ensures Edge(adj, c[j], c[j + 1]) {
      assert Edge(adj, w[j], w[j + 1]);
    }
    assert SimpleCycle(adj, c) && w[0] in c;
  }

  /** A set in which everybody has a parent: each member comes from a cycle.
      The proof walks backwards from the head of w until it meets w again. */
  lemma {:induction false} BackwardClosedFromCycle<T(!new)>(adj: Adjacency<T>, s: set<T>, w: seq<T>)
    requires forall x :: x in s ==> HasParentIn(adj, s, x)
    requires SimplePath(adj, w) && SetOf(w) <= s
    ensures FromCycle(adj, Last(w))
    decreases s - SetOf(w)
  {
    hide Edge, FromCycle;
    assert w[0] in SetOf(w);
    assert HasParentIn(adj, s, w[0]);
    var p :| p in s && Edge(adj, p, w[0]);
    if p in w {
      var i :| 0 <= i < |w| && w[i] == p;
      CloseCycle(adj, w, i);
    } else {
      PrependToPath(adj, p, w);
      BackwardClosedFromCycle(adj, s, [p] + w);
    }
  }

  lemma FromCycleIffHasCycle<T(!new)>(nodes: set<T>, adj: Adjacency<T>)
    requires Closed(nodes, adj)
    ensures HasCycle(adj) <==> exists x :: x in nodes && FromCycle(adj, x)
  {
    if HasCycle(adj) {
      var c :| SimpleCycle(adj, c);
      var x := c[0];
      assert Edge(adj, Last(c), x);
      assert Walk(adj, [x]) && Last([x]) == x && [x][0] in c;
      assert x in nodes && FromCycle(adj, x);
    }
  }
}
