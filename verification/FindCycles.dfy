/** find_cycles of bindings/python/topsort.py, with is_rotated of
    bindings/python/rad_util.py. The generator is run to exhaustion: the result
    is the list of everything it yields. */
module FindCycles {
  import opened Sequences
  import opened Digraph

  // ---------- Rotations ----------

  function Rotate<T>(s: seq<T>, k: nat): seq<T>
    requires k <= |s|
  {
    s[k..] + s[..k]
  }

  ghost predicate Rotation<T(!new)>(a: seq<T>, b: seq<T>) {
    exists k :: 0 <= k < |a| && b == Rotate(a, k)
  }

  lemma RotateBack<T(!new)>(a: seq<T>, k: nat)
    requires k <= |a|
    ensures Rotate(Rotate(a, k), |a| - k) == a
  {
  }

  lemma RotateTwice<T(!new)>(a: seq<T>, j: nat, k: nat)
    requires j <= |a| && k <= |a|
    ensures Rotate(Rotate(a, j), k) == if j + k <= |a| then Rotate(a, j + k) else Rotate(a, j + k - |a|)
  {
  }

  lemma RotateFull<T(!new)>(a: seq<T>, k: nat)
    requires k <= |a|
    ensures |Rotate(a, k)| == |a| && Rotate(a, |a|) == Rotate(a, 0)
  {
  }

  lemma RotationSymmetric<T(!new)>(a: seq<T>, b: seq<T>)
    requires Rotation(a, b)
    ensures Rotation(b, a)
  {
    var k :| 0 <= k < |a| && b == Rotate(a, k);
    RotateBack(a, k);
    assert a == Rotate(b, if k == 0 then 0 else |a| - k);
  }

  lemma RotationTransitive<T(!new)>(a: seq<T>, b: seq<T>, c: seq<T>)
    requires Rotation(a, b) && Rotation(b, c)
    ensures Rotation(a, c)
  {
    var j :| 0 <= j < |a| && b == Rotate(a, j);
    var k :| 0 <= k < |b| && c == Rotate(b, k);
    hide Rotate;
    RotateFull(a, j);
    RotateTwice(a, j, k);
    var m := if j + k < |a| then j + k else j + k - |a|;
    assert c == Rotate(a, m);
  }

  /** is_rotated indexes the head of its second argument, so two empty sequences
      raise an IndexError. */
  datatype RotatedAnswer = Answer(value: bool) | IndexError

  method IsRotated<T(==, !new)>(seq1: seq<T>, seq2: seq<T>) returns (r: RotatedAnswer)
    ensures r.IndexError? <==> seq1 == [] && seq2 == []
    ensures r.Answer? ==> (r.value <==> Rotation(seq1, seq2))
  {
    if |seq1| != |seq2| { return Answer(false); }
    if seq2 == [] { return IndexError; }
    var starts: seq<nat> := [];
    for index1 := 0 to |seq1|
      invariant forall i :: 0 <= i < |starts| ==> starts[i] < |seq1|
      invariant forall k :: 0 <= k < index1 && seq1[k] == seq2[0] ==> k in starts
    {
      if seq1[index1] == seq2[0] { starts := starts + [index1]; }
    }
    var double := seq1 + seq1;
    for j := 0 to |starts|
      invariant forall i :: 0 <= i < j ==> seq2 != Rotate(seq1, starts[i])
    {
      var index1 := starts[j];
      assert double[index1..index1 + |seq1|] == Rotate(seq1, index1);
      if double[index1..index1 + |seq1|] == seq2 { return Answer(true); }
    }
    forall k | 0 <= k < |seq1| ensures seq2 != Rotate(seq1, k) {
      assert Rotate(seq1, k)[0] == seq1[k];
    }
    r := Answer(false);
  }

  // ---------- The search ----------

  function IndexOf<T(==)>(s: seq<T>, x: T): (i: nat)
    requires x in s
    ensures i < |s| && s[i] == x && x !in s[..i]
  {
    if s[0] == x then 0 else 1 + IndexOf(s[1..], x)
  }

  /** Some yielded cycle is a rotation of c. */
  ghost predicate Found<T(!new)>(cycles: seq<seq<T>>, c: seq<T>) {
    exists i :: 0 <= i < |cycles| && Rotation(cycles[i], c)
  }

  /** Elementary cycles, no two of them rotations of each other. */
  ghost predicate CleanYield<T(!new)>(adj: Adjacency<T>, cycles: seq<seq<T>>) {
    && (forall i :: 0 <= i < |cycles| ==> SimpleCycle(adj, cycles[i]))
    && (forall i, j :: 0 <= i < j < |cycles| ==> !Rotation(cycles[i], cycles[j]))
  }

  /** Every child that closes a cycle on path q has had its cycle yielded. */
  ghost predicate Expanded<T(!new)>(adj: Adjacency<T>, cycles: seq<seq<T>>, q: seq<T>) {
    && q != []
    && forall c :: Edge(adj, Last(q), c) && c in q ==> Found(cycles, q[IndexOf(q, c)..])
  }

  ghost predicate PathFrom<T(!new)>(adj: Adjacency<T>, start: T, q: seq<T>) {
    SimplePath(adj, q) && q[0] == start
  }

  ghost predicate Reaches<T(!new)>(adj: Adjacency<T>, start: T, x: T) {
    exists q :: PathFrom(adj, start, q) && Last(q) == x
  }

  ghost predicate HasPrefixOnStack<T(!new)>(paths: seq<seq<T>>, q: seq<T>) {
    exists i :: 0 <= i < |paths| && paths[i] <= q
  }

  lemma FoundGrows<T(!new)>(cycles: seq<seq<T>>, more: seq<seq<T>>, c: seq<T>)
    requires cycles <= more && Found(cycles, c)
    ensures Found(more, c)
  {
    var i :| 0 <= i < |cycles| && Rotation(cycles[i], c);
    assert more[i] == cycles[i];
  }

  lemma ExpandedGrows<T(!new)>(adj: Adjacency<T>, cycles: seq<seq<T>>, more: seq<seq<T>>, q: seq<T>)
    requires cycles <= more && Expanded(adj, cycles, q)
    ensures Expanded(adj, more, q)
  {
    forall c | Edge(adj, Last(q), c) && c in q ensures Found(more, q[IndexOf(q, c)..]) {
      FoundGrows(cycles, more, q[IndexOf(q, c)..]);
    }
  }

  /** The stretch of a path from a child of its last node is an elementary cycle. */
  lemma ClosingChild<T(!new)>(adj: Adjacency<T>, path: seq<T>, child: T)
    requires SimplePath(adj, path) && child in path && Edge(adj, Last(path), child)
    ensures SimpleCycle(adj, path[IndexOf(path, child)..])
  {
    var k := IndexOf(path, child);
    var c := path[k..];
    forall i | 0 <= i < |c| - 1 ensures Edge(adj, c[i], c[i + 1]) {
      assert Edge(adj, path[k + i], path[k + i + 1]);
    }
  }

  lemma ExtendPath<T(!new)>(adj: Adjacency<T>, path: seq<T>, child: T)
    requires SimplePath(adj, path) && child !in path && Edge(adj, Last(path), child)
    ensures SimplePath(adj, path + [child])
  {
    var q := path + [child];
    forall i | 0 <= i < |q| - 1 ensures Edge(adj, q[i], q[i + 1]) {
      if i < |path| - 1 { assert Edge(adj, path[i], path[i + 1]); }
    }
  }

  // ---------- Termination: the size of the search tree below a path ----------

  /** The number of loop turns that a path on the stack still stands for. */
  ghost function TreeSize<T(!new)>(nodes: set<T>, adj: Adjacency<T>, path: seq<T>): nat
    requires Closed(nodes, adj) && path != [] && SetOf(path) <= nodes
    decreases nodes - SetOf(path), 1, 0
  {
    1 + if Last(path) in adj then BranchSize(nodes, adj, path, |adj[Last(path)]|) else 0
  }

  /** The turns due to the first n children of the last node of the path. */
  ghost function BranchSize<T(!new)>(nodes: set<T>, adj: Adjacency<T>, path: seq<T>, n: nat): nat
    requires Closed(nodes, adj) && path != [] && SetOf(path) <= nodes
    requires Last(path) in adj && n <= |adj[Last(path)]|
    decreases nodes - SetOf(path), 0, n
  {
    if n == 0 then 0
    else
      var c := adj[Last(path)][n - 1];
      assert SetOf(path + [c]) == SetOf(path) + {c};
      assert Edge(adj, Last(path), c);
      BranchSize(nodes, adj, path, n - 1)
      + if c in path then 0 else TreeSize(nodes, adj, path + [c])
  }

  ghost predicate OnStack<T(!new)>(nodes: set<T>, paths: seq<seq<T>>) {
    forall i :: 0 <= i < |paths| ==> paths[i] != [] && SetOf(paths[i]) <= nodes
  }

  ghost function StackSize<T(!new)>(nodes: set<T>, adj: Adjacency<T>, paths: seq<seq<T>>): nat
    requires Closed(nodes, adj) && OnStack(nodes, paths)
  {
    if paths == [] then 0
    else StackSize(nodes, adj, paths[..|paths| - 1]) + TreeSize(nodes, adj, Last(paths))
  }

  lemma StackSizeAppend<T(!new)>(nodes: set<T>, adj: Adjacency<T>, paths: seq<seq<T>>, more: seq<seq<T>>)
    requires Closed(nodes, adj) && OnStack(nodes, paths) && OnStack(nodes, more)
    ensures OnStack(nodes, paths + more)
    ensures StackSize(nodes, adj, paths + more) == StackSize(nodes, adj, paths) + StackSize(nodes, adj, more)
  {
    hide TreeSize;
    if more == [] {
      assert paths + more == paths;
    } else {
      var front := more[..|more| - 1];
      assert (paths + more)[..|paths + more| - 1] == paths + front;
      StackSizeAppend(nodes, adj, paths, front);
    }
  }

  // ---------- find_cycles ----------

  /** Lines 371-375: has this cycle been yielded already, up to rotation? */
  method IsDuplicate<T(==, !new)>(cycles: seq<seq<T>>, cycle: seq<T>) returns (dup: bool)
    requires cycle != []
    ensures dup <==> Found(cycles, cycle)
  {
    for i := 0 to |cycles|
      invariant forall j :: 0 <= j < i ==> !Rotation(cycles[j], cycle)
    {
      var r := IsRotated(cycles[i], cycle);
      if r.value { return true; }
    }
    dup := false;
  }

  ghost predicate PathsFrom<T(!new)>(adj: Adjacency<T>, start: T, paths: seq<seq<T>>) {
    forall i :: 0 <= i < |paths| ==> PathFrom(adj, start, paths[i])
  }

  /** Each of these children has closed a yielded cycle or extended the path. */
  ghost predicate Handled<T(!new)>(path: seq<T>, kids: seq<T>, cycles: seq<seq<T>>, pushed: seq<seq<T>>) {
    forall c :: c in kids ==> if c in path then Found(cycles, path[IndexOf(path, c)..]) else path + [c] in pushed
  }

  /** Lines 362-385: yield the cycles that the children of the last node close,
      and push the paths that they extend. */
  method Expand<T(==, !new)>(ghost nodes: set<T>, adj: Adjacency<T>, path: seq<T>, cycles0: seq<seq<T>>, visited0: set<T>)
    returns (cycles: seq<seq<T>>, pushed: seq<seq<T>>, visited: set<T>)
    requires Closed(nodes, adj) && SimplePath(adj, path) && SetOf(path) <= nodes && Last(path) in adj
    requires CleanYield(adj, cycles0)
    ensures cycles0 <= cycles && CleanYield(adj, cycles) && Expanded(adj, cycles, path)
    ensures forall c :: Edge(adj, Last(path), c) && c !in path ==> path + [c] in pushed
    ensures PathsFrom(adj, path[0], pushed) && OnStack(nodes, pushed)
    ensures StackSize(nodes, adj, pushed) == TreeSize(nodes, adj, path) - 1
    ensures forall v :: v in visited ==> v in visited0 || Reaches(adj, path[0], v)
  {
    assert path != [];
    hide Handled, TreeSize, BranchSize, StackSize, Reaches, Found, CleanYield, Expanded, SimpleCycle, Closed, OnStack, PathsFrom,
      Edge, SimplePath;
    cycles, pushed, visited := cycles0, [], visited0;
    var kids := adj[Last(path)];
    ExpandStart(nodes, adj, path);
    for i := 0 to |kids|
      invariant cycles0 <= cycles && CleanYield(adj, cycles)
      invariant Handled(path, kids[..i], cycles, pushed)
      invariant PathsFrom(adj, path[0], pushed) && OnStack(nodes, pushed)
      invariant StackSize(nodes, adj, pushed) == BranchSize(nodes, adj, path, i)
      invariant forall v :: v in visited ==> v in visited0 || Reaches(adj, path[0], v)
    {
      var child := kids[i];
      if child in path {
        var cycle := path[IndexOf(path, child)..];
        CloseStep(nodes, adj, path, i);
        ghost var before := cycles;
        var dup := IsDuplicate(cycles, cycle);
        if !dup { cycles := cycles + [cycle]; }
        YieldStep(adj, before, cycle, cycles);
        HandledStep(path, kids, i, before, cycles, pushed, pushed);
      } else {
        PushStep(nodes, adj, path, i, pushed);
        HandledStep(path, kids, i, cycles, cycles, pushed, pushed + [path + [child]]);
        pushed := pushed + [path + [child]];
        visited := visited + {child};
      }
    }
    assert kids[..|kids|] == kids;
    ExpandEnd(nodes, adj, path, cycles, pushed);
  }

  lemma ExpandStart<T(!new)>(nodes: set<T>, adj: Adjacency<T>, path: seq<T>)
    requires Closed(nodes, adj) && path != [] && SetOf(path) <= nodes && Last(path) in adj
    ensures PathsFrom(adj, path[0], []) && OnStack<T>(nodes, [])
    ensures StackSize(nodes, adj, []) == BranchSize(nodes, adj, path, 0)
    ensures Handled<T>(path, [], [], [])
  {
  }

  lemma CloseStep<T(!new)>(nodes: set<T>, adj: Adjacency<T>, path: seq<T>, i: nat)
    requires Closed(nodes, adj) && SimplePath(adj, path) && SetOf(path) <= nodes && Last(path) in adj
    requires i < |adj[Last(path)]| && adj[Last(path)][i] in path
    ensures SimpleCycle(adj, path[IndexOf(path, adj[Last(path)][i])..])
    ensures BranchSize(nodes, adj, path, i + 1) == BranchSize(nodes, adj, path, i)
  {
    assert path != [];
    hide SimplePath, SimpleCycle;
    ClosingChild(adj, path, adj[Last(path)][i]);
  }

  lemma PushStep<T(!new)>(nodes: set<T>, adj: Adjacency<T>, path: seq<T>, i: nat, pushed: seq<seq<T>>)
    requires Closed(nodes, adj) && SimplePath(adj, path) && SetOf(path) <= nodes && Last(path) in adj
    requires i < |adj[Last(path)]| && adj[Last(path)][i] !in path
    requires PathsFrom(adj, path[0], pushed) && OnStack(nodes, pushed)
    requires StackSize(nodes, adj, pushed) == BranchSize(nodes, adj, path, i)
    ensures var more := pushed + [path + [adj[Last(path)][i]]];
            && PathsFrom(adj, path[0], more) && OnStack(nodes, more)
            && StackSize(nodes, adj, more) == BranchSize(nodes, adj, path, i + 1)
    ensures Reaches(adj, path[0], adj[Last(path)][i])
  {
    assert path != [];
    hide TreeSize, SimplePath;
    var child := adj[Last(path)][i];
    var more := pushed + [path + [child]];
    assert Edge(adj, Last(path), child);
    ExtendPath(adj, path, child);
    ReachesChild(adj, path[0], path + [child], child);
    assert SetOf(path + [child]) == SetOf(path) + {child};
    assert more[..|more| - 1] == pushed;
  }

  lemma ExpandEnd<T(!new)>(nodes: set<T>, adj: Adjacency<T>, path: seq<T>, cycles: seq<seq<T>>, pushed: seq<seq<T>>)
    requires Closed(nodes, adj) && path != [] && SetOf(path) <= nodes && Last(path) in adj
    requires Handled(path, adj[Last(path)], cycles, pushed)
    ensures Expanded(adj, cycles, path)
    ensures forall c :: Edge(adj, Last(path), c) && c !in path ==> path + [c] in pushed
    ensures BranchSize(nodes, adj, path, |adj[Last(path)]|) == TreeSize(nodes, adj, path) - 1
  {
    hide Found;
  }

  lemma HandledStep<T(!new)>(path: seq<T>, kids: seq<T>, i: nat, cycles: seq<seq<T>>, cycles': seq<seq<T>>,
                             pushed: seq<seq<T>>, pushed': seq<seq<T>>)
    requires i < |kids| && Handled(path, kids[..i], cycles, pushed)
    requires cycles <= cycles' && pushed <= pushed'
    requires if kids[i] in path then Found(cycles', path[IndexOf(path, kids[i])..]) else path + [kids[i]] in pushed'
    ensures Handled(path, kids[..i + 1], cycles', pushed')
  {
    hide Found;
    forall c | c in kids[..i + 1]
      ensures if c in path then Found(cycles', path[IndexOf(path, c)..]) else path + [c] in pushed'
    {
      if c != kids[i] {
        assert c in kids[..i];
        if c in path { FoundGrows(cycles, cycles', path[IndexOf(path, c)..]); }
      }
    }
  }

  lemma ReachesChild<T(!new)>(adj: Adjacency<T>, start: T, q: seq<T>, x: T)
    requires PathFrom(adj, start, q) && Last(q) == x
    ensures Reaches(adj, start, x)
  {
  }

  lemma YieldStep<T(!new)>(adj: Adjacency<T>, before: seq<seq<T>>, cycle: seq<T>, cycles: seq<seq<T>>)
    requires CleanYield(adj, before) && SimpleCycle(adj, cycle)
    requires cycles == if Found(before, cycle) then before else before + [cycle]
    ensures before <= cycles && CleanYield(adj, cycles) && Found(cycles, cycle)
  {
    if !Found(before, cycle) {
      assert cycle == Rotate(cycle, 0);
      assert Rotation(cycles[|before|], cycle);
    }
  }

  /** One turn of the while loop: every path from the start is still on its way. */
  lemma SearchStep<T(!new)>(nodes: set<T>, adj: Adjacency<T>, start: T, rest: seq<seq<T>>, path: seq<T>,
                            pushed: seq<seq<T>>, before: seq<seq<T>>, cycles: seq<seq<T>>, q: seq<T>)
    requires PathFrom(adj, start, path) && before <= cycles && Expanded(adj, cycles, path)
    requires forall c :: Edge(adj, Last(path), c) && c !in path ==> path + [c] in pushed
    requires PathFrom(adj, start, q)
    requires HasPrefixOnStack(rest + [path], q) || Expanded(adj, before, q)
    ensures HasPrefixOnStack(rest + pushed, q) || Expanded(adj, cycles, q)
  {
    hide Expanded, Edge;
    if Expanded(adj, before, q) {
      ExpandedGrows(adj, before, cycles, q);
    } else {
      var i :| 0 <= i < |rest| + 1 && (rest + [path])[i] <= q;
      if i < |rest| {
        assert (rest + pushed)[i] <= q;
      } else if path != q {
        var c := q[|path|];
        assert Edge(adj, q[|path| - 1], q[|path| - 1 + 1]);
        assert path + [c] <= q;
        var j :| 0 <= j < |pushed| && pushed[j] == path + [c];
        assert (rest + pushed)[|rest| + j] <= q;
      }
    }
  }

  lemma PopSize<T(!new)>(nodes: set<T>, adj: Adjacency<T>, paths: seq<seq<T>>, pushed: seq<seq<T>>)
    requires Closed(nodes, adj) && OnStack(nodes, paths) && paths != [] && OnStack(nodes, pushed)
    requires StackSize(nodes, adj, pushed) < TreeSize(nodes, adj, Last(paths))
    ensures OnStack(nodes, paths[..|paths| - 1] + pushed)
    ensures StackSize(nodes, adj, paths[..|paths| - 1] + pushed) < StackSize(nodes, adj, paths)
  {
    hide TreeSize;
    StackSizeAppend(nodes, adj, paths[..|paths| - 1], pushed);
  }

  /** Lines 351-385: explore every elementary path from one start node. */
  method Search<T(==, !new)>(ghost nodes: set<T>, adj: Adjacency<T>, start: T, cycles0: seq<seq<T>>, visited0: set<T>)
    returns (cycles: seq<seq<T>>, visited: set<T>)
    requires Closed(nodes, adj) && start in nodes && CleanYield(adj, cycles0)
    ensures cycles0 <= cycles && CleanYield(adj, cycles)
    ensures forall q :: PathFrom(adj, start, q) ==> Expanded(adj, cycles, q)
    ensures forall v :: v in visited ==> v in visited0 || Reaches(adj, start, v)
  {
    hide TreeSize, BranchSize, Expanded, Reaches, Edge, CleanYield, StackSize;
    cycles, visited := cycles0, visited0;
    var paths := [[start]];
    forall q | PathFrom(adj, start, q) ensures HasPrefixOnStack(paths, q) { assert paths[0] <= q; }
    while paths != []
      invariant cycles0 <= cycles && CleanYield(adj, cycles)
      invariant PathsFrom(adj, start, paths) && OnStack(nodes, paths)
      invariant forall q :: PathFrom(adj, start, q) ==> HasPrefixOnStack(paths, q) || Expanded(adj, cycles, q)
      invariant forall v :: v in visited ==> v in visited0 || Reaches(adj, start, v)
      decreases StackSize(nodes, adj, paths)
    {
      ghost var paths0, before := paths, cycles;
      var path := Last(paths);
      paths := paths[..|paths| - 1];
      ghost var rest := paths;
      ghost var pushed: seq<seq<T>> := [];
      if Last(path) in adj {
        var more;
        cycles, more, visited := Expand(nodes, adj, path, cycles, visited);
        paths := paths + more;
        pushed := more;
      } else {
        NoChildren(nodes, adj, cycles, path);
        assert paths + pushed == paths;
      }
      PopSize(nodes, adj, paths0, pushed);
      assert paths0 == rest + [path];
      forall q | PathFrom(adj, start, q) ensures HasPrefixOnStack(paths, q) || Expanded(adj, cycles, q) {
        SearchStep(nodes, adj, start, rest, path, pushed, before, cycles, q);
      }
    }
  }

  lemma NoChildren<T(!new)>(nodes: set<T>, adj: Adjacency<T>, cycles: seq<seq<T>>, path: seq<T>)
    requires Closed(nodes, adj) && path != [] && Last(path) !in adj && SetOf(path) <= nodes
    ensures Expanded(adj, cycles, path) && forall c :: !Edge(adj, Last(path), c)
    ensures OnStack<T>(nodes, []) && StackSize(nodes, adj, []) < TreeSize(nodes, adj, path)
  {
  }

  // ---------- Completeness ----------

  /** A rotation of an elementary cycle is an elementary cycle. */
  lemma RotatedCycle<T(!new)>(adj: Adjacency<T>, c: seq<T>, k: nat)
    requires SimpleCycle(adj, c) && k < |c|
    ensures SimpleCycle(adj, Rotate(c, k))
  {
    var r := Rotate(c, k);
    forall i | 0 <= i < |r| - 1 ensures Edge(adj, r[i], r[i + 1]) {
      if i < |c| - k - 1 { assert Edge(adj, c[k + i], c[k + i + 1]); }
      else if i > |c| - k - 1 { var m := i - (|c| - k); assert Edge(adj, c[m], c[m + 1]); }
    }
    if k > 0 { assert Edge(adj, c[k - 1], c[k - 1 + 1]); }
  }

  /** The first node of q that lies on the cycle. */
  lemma FirstOnCycle<T(!new)>(q: seq<T>, c: seq<T>) returns (i: nat)
    requires q != [] && Last(q) in c
    ensures i < |q| && q[i] in c && forall j :: 0 <= j < i ==> q[j] !in c
  {
    i := 0;
    while q[i] !in c
      invariant i < |q| && forall j :: 0 <= j < i ==> q[j] !in c
      decreases |q| - i
    {
      i := i + 1;
    }
  }

  /** Following q up to the cycle and then once around it is an elementary path. */
  lemma Lasso<T(!new)>(adj: Adjacency<T>, q: seq<T>, i: nat, r: seq<T>)
    requires SimplePath(adj, q) && SimpleCycle(adj, r) && i < |q| && q[i] == r[0]
    requires forall j :: 0 <= j < i ==> q[j] !in r
    ensures SimplePath(adj, q[..i] + r)
  {
    var w := q[..i] + r;
    forall j | 0 <= j < |w| - 1 ensures Edge(adj, w[j], w[j + 1]) {
      if j < i { assert Edge(adj, q[j], q[j + 1]); }
      else { assert Edge(adj, r[j - i], r[j - i + 1]); }
    }
    forall a, b | 0 <= a < b < |w| ensures w[a] != w[b] {
      if a < i <= b { assert w[b] in r; }
    }
  }

  /** A start from which some node of the cycle can be reached finds the cycle. */
  lemma ReachedCycleIsFound<T(!new)>(adj: Adjacency<T>, start: T, cycles: seq<seq<T>>, c: seq<T>)
    requires SimpleCycle(adj, c) && Reaches(adj, start, c[0])
    requires forall q :: PathFrom(adj, start, q) ==> Expanded(adj, cycles, q)
    ensures Found(cycles, c)
  {
    hide SimplePath, Walk, Distinct, Edge;
    CycleHeadIsKey(adj, c);
    var q :| PathFrom(adj, start, q) && Last(q) == c[0];
    var i := FirstOnCycle(q, c);
    var k :| 0 <= k < |c| && c[k] == q[i];
    var r := Rotate(c, k);
    RotatedCycle(adj, c, k);
    assert forall x :: x in r <==> x in c;
    Lasso(adj, q, i, r);
    var w := q[..i] + r;
    LassoCloses(adj, q, i, r);
    assert PathFrom(adj, start, w);
    assert Expanded(adj, cycles, w);
    assert w[IndexOf(w, r[0])..] == r;
    var m :| 0 <= m < |cycles| && Rotation(cycles[m], r);
    assert Rotation(c, r);
    RotationSymmetric(c, r);
    RotationTransitive(cycles[m], r, c);
  }

  lemma CycleHeadIsKey<T(!new)>(adj: Adjacency<T>, c: seq<T>)
    requires SimpleCycle(adj, c)
    ensures c != [] && c[0] in adj
  {
    if |c| > 1 { assert Edge(adj, c[0], c[0 + 1]); }
  }

  lemma LassoCloses<T(!new)>(adj: Adjacency<T>, q: seq<T>, i: nat, r: seq<T>)
    requires i < |q| && SimplePath(adj, q[..i] + r) && SimpleCycle(adj, r)
    ensures Edge(adj, Last(q[..i] + r), r[0]) && r[0] in q[..i] + r
    ensures IndexOf(q[..i] + r, r[0]) == i
  {
    var w := q[..i] + r;
    assert w[i] == r[0];
    var k := IndexOf(w, r[0]);
    assert w[k] == w[i];
  }

  lemma StartIsReached<T(!new)>(adj: Adjacency<T>, start: T)
    ensures Reaches(adj, start, start)
  {
    ReachesChild(adj, start, [start], start);
  }

  lemma NothingYielded<T(!new)>(adj: Adjacency<T>)
    ensures CleanYield<T>(adj, [])
  {
  }

  ghost predicate Started<T(!new)>(adj: Adjacency<T>, started: set<T>, x: T) {
    exists s :: s in started && Reaches(adj, s, x)
  }

  lemma StartedCycleIsFound<T(!new)>(adj: Adjacency<T>, started: set<T>, cycles: seq<seq<T>>, c: seq<T>)
    requires SimpleCycle(adj, c) && Started(adj, started, c[0])
    requires forall s, q :: s in started && PathFrom(adj, s, q) ==> Expanded(adj, cycles, q)
    ensures Found(cycles, c)
  {
    hide Reaches, Expanded, PathFrom, SimpleCycle, Found;
    CycleHeadIsKey(adj, c);
    var s :| s in started && Reaches(adj, s, c[0]);
    ReachedCycleIsFound(adj, s, cycles, c);
  }

  lemma StartedGrows<T(!new)>(adj: Adjacency<T>, started: set<T>, s: T, x: T)
    requires Started(adj, started, x) || Reaches(adj, s, x)
    ensures Started(adj, started + {s}, x)
  {
    hide Reaches;
    if Reaches(adj, s, x) {
      assert s in started + {s};
    } else {
      var t :| t in started && Reaches(adj, t, x);
      assert t in started + {s};
    }
  }

  method FindCycles<T(==, !new)>(adj: Adjacency<T>) returns (cycles: seq<seq<T>>)
    // every result is an elementary cycle, and no two are rotations of each other
    ensures CleanYield(adj, cycles)
    // no elementary cycle is missed
    ensures forall c :: SimpleCycle(adj, c) ==> Found(cycles, c)
  {
    hide Expanded, Reaches, SimpleCycle, Found, CleanYield, PathFrom, Started, Edge;
    ghost var nodes := Nodes(adj);
    cycles := [];
    assert CleanYield(adj, cycles) by { NothingYielded(adj); }
    var visited: set<T> := {};
    var todo := adj.Keys;
    ghost var started: set<T> := {};
    while todo != {}
      invariant todo <= adj.Keys && CleanYield(adj, cycles)
      invariant forall s, q :: s in started && PathFrom(adj, s, q) ==> Expanded(adj, cycles, q)
      invariant forall v :: v in visited ==> Started(adj, started, v)
      invariant forall x :: x in adj.Keys - todo ==> Started(adj, started, x)
      decreases todo
    {
      var parent :| parent in todo;
      todo := todo - {parent};
      if parent !in visited {
        ghost var before := cycles;
        cycles, visited := Search(nodes, adj, parent, cycles, visited);
        StartIsReached(adj, parent);
        forall s, q | s in started && PathFrom(adj, s, q) ensures Expanded(adj, cycles, q) {
          ExpandedGrows(adj, before, cycles, q);
        }
        ghost var more := started + {parent};
        forall x | Started(adj, started, x) || Reaches(adj, parent, x) ensures Started(adj, more, x) {
          StartedGrows(adj, started, parent, x);
        }
        started := more;
      }
    }
    forall c | SimpleCycle(adj, c) ensures Found(cycles, c) {
      CycleHeadIsKey(adj, c);
      StartedCycleIsFound(adj, started, cycles, c);
    }
  }
}
