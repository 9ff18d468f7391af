/** StaticInformation of utils/print-introspected-doxygen.cc: the recursive
    gathering of configuration paths. The TypeId database is a finite labelled
    graph; each entry of m_output stands for one path through it. */
module TypeGather {
  import opened Sequences

  type TypeId = nat

  datatype Checker = OtherChecker | PointerTo(pointee: TypeId) | ContainerOf(item: TypeId)
  datatype Attribute = Attribute(name: string, checker: Checker)

  /** What TypeId answers: the registered types, their names, attributes and
      ancestors, and the type of Object. */
  datatype Database = Database(
    registered: seq<TypeId>, names: map<TypeId, string>, attributes: map<TypeId, seq<Attribute>>,
    childOf: set<(TypeId, TypeId)>, objectType: TypeId)

  datatype Entry = Entry(tid: TypeId, path: string)

  datatype Hop = Hop(tag: string, to: TypeId)

  ghost predicate Mentions(types: set<TypeId>, a: Attribute) {
    match a.checker
    case PointerTo(p) => p in types
    case ContainerOf(p) => p in types
    case OtherChecker => true
  }

  /** Every type that is mentioned is registered. */
  ghost predicate Valid(db: Database, aggregates: seq<(TypeId, TypeId)>) {
    && db.names.Keys == db.attributes.Keys == Types(db)
    && (forall i :: 0 <= i < |db.registered| ==> db.registered[i] in db.names)
    && (forall t, i :: t in db.attributes && 0 <= i < |db.attributes[t]| ==> Mentions(Types(db), db.attributes[t][i]))
    && (forall i :: 0 <= i < |aggregates| ==> aggregates[i].0 in db.names && aggregates[i].1 in db.names)
  }

  ghost function Types(db: Database): set<TypeId> { set t | t in db.registered }

  // ---------- The labelled graph ----------

  /** The hop an attribute offers, if any: a pointer to a plain Object offers none. */
  function AttributeHop(db: Database, a: Attribute): seq<Hop> {
    match a.checker
    case PointerTo(p) => if p == db.objectType then [] else [Hop(a.name, p)]
    case ContainerOf(p) => [Hop(a.name + "/[i]", p)]
    case OtherChecker => []
  }

  function NameHop(db: Database, to: TypeId): Hop
    requires to in db.names
  {
    Hop("$" + db.names[to], to)
  }

  function ChildHop(db: Database, tid: TypeId, t: TypeId): seq<Hop>
    requires t in db.names
  {
    if (t, tid) in db.childOf then [NameHop(db, t)] else []
  }

  function AggregateHop(db: Database, tid: TypeId, pair: (TypeId, TypeId)): seq<Hop>
    requires pair.0 in db.names && pair.1 in db.names
  {
    if pair.1 == tid then [NameHop(db, pair.0)]
    else if pair.0 == tid then [NameHop(db, pair.1)]
    else []
  }

  /** What a list of steps offers, one after the other. */
  function Concat(offers: seq<seq<Hop>>): seq<Hop> {
    if offers == [] then [] else Concat(offers[..|offers| - 1]) + offers[|offers| - 1]
  }

  lemma ConcatSplit(offers: seq<seq<Hop>>, i: nat)
    requires i < |offers|
    ensures Concat(offers[..i + 1]) == Concat(offers[..i]) + offers[i] <= Concat(offers)
  {
    hide Concat;
    ConcatSnoc(offers, i);
    ConcatPrefix(offers, i + 1);
  }

  lemma ConcatSnoc(offers: seq<seq<Hop>>, i: nat)
    requires i < |offers|
    ensures Concat(offers[..i + 1]) == Concat(offers[..i]) + offers[i]
  {
    assert offers[..i + 1][..i] == offers[..i];
  }

  lemma ConcatPrefix(offers: seq<seq<Hop>>, i: nat)
    requires i <= |offers|
    ensures Concat(offers[..i]) <= Concat(offers)
    decreases |offers| - i
  {
    hide Concat;
    if i < |offers| {
      ConcatSnoc(offers, i);
      ConcatPrefix(offers, i + 1);
    } else {
      assert offers[..i] == offers;
    }
  }

  function AttributeOffers(db: Database, attributes: seq<Attribute>): (r: seq<seq<Hop>>)
    ensures |r| == |attributes| && forall i :: 0 <= i < |r| ==> r[i] == AttributeHop(db, attributes[i])
  {
    seq(|attributes|, i requires 0 <= i < |attributes| => AttributeHop(db, attributes[i]))
  }

  function ChildOffers(db: Database, tid: TypeId, types: seq<TypeId>): (r: seq<seq<Hop>>)
    requires forall i :: 0 <= i < |types| ==> types[i] in db.names
    ensures |r| == |types| && forall i :: 0 <= i < |r| ==> r[i] == ChildHop(db, tid, types[i])
  {
    seq(|types|, i requires 0 <= i < |types| => ChildHop(db, tid, types[i]))
  }

  function AggregateOffers(db: Database, tid: TypeId, pairs: seq<(TypeId, TypeId)>): (r: seq<seq<Hop>>)
    requires forall i :: 0 <= i < |pairs| ==> pairs[i].0 in db.names && pairs[i].1 in db.names
    ensures |r| == |pairs| && forall i :: 0 <= i < |r| ==> r[i] == AggregateHop(db, tid, pairs[i])
  {
    seq(|pairs|, i requires 0 <= i < |pairs| => AggregateHop(db, tid, pairs[i]))
  }

  function AttributeHops(db: Database, attributes: seq<Attribute>): seq<Hop> {
    Concat(AttributeOffers(db, attributes))
  }

  function ChildHops(db: Database, tid: TypeId, types: seq<TypeId>): seq<Hop>
    requires forall i :: 0 <= i < |types| ==> types[i] in db.names
  {
    Concat(ChildOffers(db, tid, types))
  }

  function AggregateHops(db: Database, tid: TypeId, pairs: seq<(TypeId, TypeId)>): seq<Hop>
    requires forall i :: 0 <= i < |pairs| ==> pairs[i].0 in db.names && pairs[i].1 in db.names
  {
    Concat(AggregateOffers(db, tid, pairs))
  }

  /** A finite labelled graph: the edges that leave each type, in order. */
  datatype Graph = Graph(hops: map<TypeId, seq<Hop>>)

  ghost predicate Ok(g: Graph) {
    forall t :: t in g.hops ==> Inside(g.hops.Keys, g.hops[t])
  }

  ghost predicate Inside(types: set<TypeId>, hops: seq<Hop>) {
    forall j :: 0 <= j < |hops| ==> hops[j].to in types
  }

  /** The graph that DoGather walks: from each type, through its attributes, to
      its registered descendants, and along the aggregations. */
  ghost function GraphOf(db: Database, aggregates: seq<(TypeId, TypeId)>): Graph
    requires Valid(db, aggregates)
  {
    Graph(map t | t in Types(db) ::
      AttributeHops(db, db.attributes[t]) + ChildHops(db, t, db.registered) + AggregateHops(db, t, aggregates))
  }

  lemma GraphIsOk(db: Database, aggregates: seq<(TypeId, TypeId)>)
    requires Valid(db, aggregates)
    ensures Ok(GraphOf(db, aggregates)) && GraphOf(db, aggregates).hops.Keys == Types(db)
  {
    hide Inside, AttributeHops, ChildHops, AggregateHops;
    var g := GraphOf(db, aggregates);
    assert g.hops.Keys == Types(db);
    forall t | t in g.hops ensures Inside(g.hops.Keys, g.hops[t]) {
      HopsInside(db, aggregates, t);
    }
  }

  lemma HopsInside(db: Database, aggregates: seq<(TypeId, TypeId)>, t: TypeId)
    requires Valid(db, aggregates) && t in Types(db)
    ensures Inside(Types(db), AttributeHops(db, db.attributes[t]) + ChildHops(db, t, db.registered)
                              + AggregateHops(db, t, aggregates))
  {
    hide Inside, Concat, AttributeHop, ChildHop, AggregateHop;
    OffersInside(db, aggregates, t);
    ConcatInside(Types(db), AttributeOffers(db, db.attributes[t]));
    ConcatInside(Types(db), ChildOffers(db, t, db.registered));
    ConcatInside(Types(db), AggregateOffers(db, t, aggregates));
    InsideAppend(Types(db), AttributeHops(db, db.attributes[t]), ChildHops(db, t, db.registered));
    InsideAppend(Types(db), AttributeHops(db, db.attributes[t]) + ChildHops(db, t, db.registered),
                 AggregateHops(db, t, aggregates));
  }

  lemma OffersInside(db: Database, aggregates: seq<(TypeId, TypeId)>, t: TypeId)
    requires Valid(db, aggregates) && t in Types(db)
    ensures forall i :: 0 <= i < |db.attributes[t]| ==> Inside(Types(db), AttributeHop(db, db.attributes[t][i]))
    ensures forall i :: 0 <= i < |db.registered| ==> Inside(Types(db), ChildHop(db, t, db.registered[i]))
    ensures forall i :: 0 <= i < |aggregates| ==> Inside(Types(db), AggregateHop(db, t, aggregates[i]))
  {
    assert forall i :: 0 <= i < |db.attributes[t]| ==> Mentions(Types(db), db.attributes[t][i]);
  }

  lemma InsideAppend(types: set<TypeId>, a: seq<Hop>, b: seq<Hop>)
    requires Inside(types, a) && Inside(types, b)
    ensures Inside(types, a + b)
  {
  }

  lemma ConcatInside(types: set<TypeId>, offers: seq<seq<Hop>>)
    requires forall i :: 0 <= i < |offers| ==> Inside(types, offers[i])
    ensures Inside(types, Concat(offers))
  {
    if offers != [] {
      ConcatInside(types, offers[..|offers| - 1]);
      InsideAppend(types, Concat(offers[..|offers| - 1]), offers[|offers| - 1]);
    }
  }

  // ---------- The edges, said without the functions that make them ----------

  /** An attribute of t leads to h: a pointer, unless it is to Object itself, under
      its name; a container under its name and "/[i]". */
  ghost predicate ThroughAttribute(db: Database, a: Attribute, h: Hop) {
    || (a.checker == PointerTo(h.to) && h.to != db.objectType && h.tag == a.name)
    || (a.checker == ContainerOf(h.to) && h.tag == a.name + "/[i]")
  }

  ghost predicate IsEdge(db: Database, aggregates: seq<(TypeId, TypeId)>, t: TypeId, h: Hop)
    requires Valid(db, aggregates) && t in Types(db)
  {
    || (exists a :: a in db.attributes[t] && ThroughAttribute(db, a, h))
    || (&& h.to in Types(db) && h.tag == "$" + db.names[h.to]
        && ((h.to, t) in db.childOf || (h.to, t) in aggregates || (t, h.to) in aggregates))
  }

  ghost predicate Offered(offers: seq<seq<Hop>>, h: Hop) {
    exists i :: 0 <= i < |offers| && h in offers[i]
  }

  lemma {:induction false} ConcatMember(offers: seq<seq<Hop>>, h: Hop)
    ensures h in Concat(offers) <==> Offered(offers, h)
  {
    if offers != [] {
      ConcatMember(offers[..|offers| - 1], h);
      OfferedStep(offers, h);
    }
  }

  lemma OfferedStep(offers: seq<seq<Hop>>, h: Hop)
    requires offers != []
    ensures Offered(offers, h) <==> Offered(offers[..|offers| - 1], h) || h in offers[|offers| - 1]
  {
    var front := offers[..|offers| - 1];
    if i :| 0 <= i < |front| && h in front[i] { assert h in offers[i]; }
    if i :| 0 <= i < |offers| && h in offers[i] { assert i < |front| ==> h in front[i]; }
  }

  lemma AttributeMember(db: Database, attributes: seq<Attribute>, h: Hop)
    ensures h in AttributeHops(db, attributes) <==> exists a :: a in attributes && ThroughAttribute(db, a, h)
  {
    hide Concat;
    var offers := AttributeOffers(db, attributes);
    ConcatMember(offers, h);
    if i :| 0 <= i < |offers| && h in offers[i] {
      assert attributes[i] in attributes && ThroughAttribute(db, attributes[i], h);
    }
    if a :| a in attributes && ThroughAttribute(db, a, h) {
      var i :| 0 <= i < |attributes| && attributes[i] == a;
      assert h in offers[i];
    }
  }

  lemma ChildMember(db: Database, tid: TypeId, types: seq<TypeId>, h: Hop)
    requires forall i :: 0 <= i < |types| ==> types[i] in db.names
    ensures h in ChildHops(db, tid, types) <==>
            h.to in types && (h.to, tid) in db.childOf && h.tag == "$" + db.names[h.to]
  {
    hide Concat;
    ConcatMember(ChildOffers(db, tid, types), h);
    if h.to in types && (h.to, tid) in db.childOf && h.tag == "$" + db.names[h.to] {
      var i :| 0 <= i < |types| && types[i] == h.to;
      assert h in ChildOffers(db, tid, types)[i];
    }
  }

  lemma AggregateMember(db: Database, tid: TypeId, pairs: seq<(TypeId, TypeId)>, h: Hop)
    requires forall i :: 0 <= i < |pairs| ==> pairs[i].0 in db.names && pairs[i].1 in db.names
    ensures h in AggregateHops(db, tid, pairs) <==>
            ((h.to, tid) in pairs || (tid, h.to) in pairs) && h.tag == "$" + db.names[h.to]
  {
    hide Concat;
    ConcatMember(AggregateOffers(db, tid, pairs), h);
    if ((h.to, tid) in pairs || (tid, h.to) in pairs) && h.tag == "$" + db.names[h.to] {
      var i :| 0 <= i < |pairs| && (pairs[i] == (h.to, tid) || pairs[i] == (tid, h.to));
      assert h in AggregateOffers(db, tid, pairs)[i];
    }
  }

  /** The graph has exactly the edges that the program is meant to follow. */
  lemma EdgesAre(db: Database, aggregates: seq<(TypeId, TypeId)>, t: TypeId, h: Hop)
    requires Valid(db, aggregates) && t in Types(db)
    ensures h in GraphOf(db, aggregates).hops[t] <==> IsEdge(db, aggregates, t, h)
  {
    hide AttributeHops, ChildHops, AggregateHops, ThroughAttribute;
    AttributeMember(db, db.attributes[t], h);
    ChildMember(db, t, db.registered, h);
    AggregateMember(db, t, aggregates, h);
  }

  lemma ConcatCount(offers: seq<seq<Hop>>)
    requires forall i :: 0 <= i < |offers| ==> |offers[i]| <= 1
    ensures |Concat(offers)| == |(set i | 0 <= i < |offers| && offers[i] != [])|
  {
    var now := set i | 0 <= i < |offers| && offers[i] != [];
    if offers == [] {
      assert now == {};
    } else {
      var n := |offers| - 1;
      var front := offers[..n];
      ConcatCount(front);
      var before := set i | 0 <= i < |front| && front[i] != [];
      assert now == before + if offers[n] == [] then {} else {n};
    }
  }

  lemma AttributeCount(db: Database, attributes: seq<Attribute>)
    ensures |AttributeHops(db, attributes)| ==
            |(set i | 0 <= i < |attributes| && exists h :: ThroughAttribute(db, attributes[i], h))|
  {
    hide Concat;
    var offers := AttributeOffers(db, attributes);
    ConcatCount(offers);
    forall i | 0 <= i < |attributes| ensures offers[i] != [] <==> exists h :: ThroughAttribute(db, attributes[i], h) {
      if offers[i] != [] { assert ThroughAttribute(db, attributes[i], offers[i][0]); }
    }
    assert (set i | 0 <= i < |offers| && offers[i] != [])
        == (set i | 0 <= i < |attributes| && exists h :: ThroughAttribute(db, attributes[i], h));
  }

  lemma ChildCount(db: Database, tid: TypeId, types: seq<TypeId>)
    requires forall i :: 0 <= i < |types| ==> types[i] in db.names
    ensures |ChildHops(db, tid, types)| == |(set i | 0 <= i < |types| && (types[i], tid) in db.childOf)|
  {
    hide Concat;
    var offers := ChildOffers(db, tid, types);
    ConcatCount(offers);
    assert (set i | 0 <= i < |offers| && offers[i] != []) == (set i | 0 <= i < |types| && (types[i], tid) in db.childOf);
  }

  lemma AggregateCount(db: Database, tid: TypeId, pairs: seq<(TypeId, TypeId)>)
    requires forall i :: 0 <= i < |pairs| ==> pairs[i].0 in db.names && pairs[i].1 in db.names
    ensures |AggregateHops(db, tid, pairs)| == |(set i | 0 <= i < |pairs| && (pairs[i].0 == tid || pairs[i].1 == tid))|
  {
    hide Concat;
    var offers := AggregateOffers(db, tid, pairs);
    ConcatCount(offers);
    assert (set i | 0 <= i < |offers| && offers[i] != [])
        == (set i | 0 <= i < |pairs| && (pairs[i].0 == tid || pairs[i].1 == tid));
  }

  /** How many edges leave t: one per attribute that leads somewhere, one per
      registered descendant, one per aggregation that t is an end of. */
  lemma EdgeCount(db: Database, aggregates: seq<(TypeId, TypeId)>, t: TypeId)
    requires Valid(db, aggregates) && t in Types(db)
    ensures |GraphOf(db, aggregates).hops[t]| ==
      |(set i | 0 <= i < |db.attributes[t]| && exists h :: ThroughAttribute(db, db.attributes[t][i], h))|
      + |(set i | 0 <= i < |db.registered| && (db.registered[i], t) in db.childOf)|
      + |(set i | 0 <= i < |aggregates| && (aggregates[i].0 == t || aggregates[i].1 == t))|
  {
    hide AttributeHops, ChildHops, AggregateHops, ThroughAttribute;
    AttributeCount(db, db.attributes[t]);
    ChildCount(db, t, db.registered);
    AggregateCount(db, t, aggregates);
  }

  // ---------- Routes ----------

  /** A route is the list of edge numbers to take at each type in turn. */
  type Route = seq<nat>

  ghost function Target(g: Graph, tid: TypeId, k: nat): (to: TypeId)
    requires Ok(g) && tid in g.hops && k < |g.hops[tid]|
    ensures to in g.hops
  {
    g.hops[tid][k].to
  }

  ghost predicate Follows(g: Graph, tid: TypeId, r: Route)
    requires Ok(g) && tid in g.hops
    decreases |r|
  {
    r != [] ==> r[0] < |g.hops[tid]| && Follows(g, Target(g, tid, r[0]), r[1..])
  }

  /** The types a route visits, its start included. */
  ghost function Stops(g: Graph, tid: TypeId, r: Route): (s: seq<TypeId>)
    requires Ok(g) && tid in g.hops && Follows(g, tid, r)
    ensures s != []
    decreases |r|
  {
    [tid] + if r == [] then [] else Stops(g, Target(g, tid, r[0]), r[1..])
  }

  ghost function Labels(g: Graph, tid: TypeId, r: Route): seq<string>
    requires Ok(g) && tid in g.hops && Follows(g, tid, r)
    decreases |r|
  {
    if r == [] then [] else [g.hops[tid][r[0]].tag] + Labels(g, Target(g, tid, r[0]), r[1..])
  }

  /** No type twice and none in `done`. */
  ghost predicate NewStops(s: seq<TypeId>, done: seq<TypeId>) {
    && Distinct(s)
    && (forall i :: 0 <= i < |s| ==> s[i] !in done)
  }

  /** The route visits no type twice and none in `done`. */
  ghost predicate Untrodden(g: Graph, tid: TypeId, done: seq<TypeId>, r: Route)
    requires Ok(g) && tid in g.hops
  {
    Follows(g, tid, r) && NewStops(Stops(g, tid, r), done)
  }

  /** "/a/b/c" */
  function PathString(path: seq<string>): string {
    if path == [] then "" else PathString(path[..|path| - 1]) + "/" + path[|path| - 1]
  }

  /** Each label stands after a slash, and paths are put together end to end. */
  lemma {:induction false} PathStringJoins(a: seq<string>, b: seq<string>, x: string)
    ensures PathString([]) == "" && PathString([x]) == "/" + x
    ensures PathString(a + b) == PathString(a) + PathString(b)
  {
    assert [x][..0] == [] && PathString([]) == "";
    if b == [] {
      assert a + b == a;
    } else {
      var front := b[..|b| - 1];
      PathStringJoins(a, front, x);
      assert (a + b)[..|a + b| - 1] == a + front;
    }
  }

  /** The entry a route stands for, when `path` leads to its start. */
  ghost function EntryOf(g: Graph, tid: TypeId, path: seq<string>, r: Route): Entry
    requires Ok(g) && tid in g.hops && Follows(g, tid, r)
  {
    var s := Stops(g, tid, r);
    Entry(s[|s| - 1], PathString(path + Labels(g, tid, r)))
  }

  /** The types that are not in `done`. */
  ghost function Left(g: Graph, done: seq<TypeId>): set<TypeId> {
    set t | t in g.hops.Keys && t !in done
  }

  /** The routes that the recursion takes from tid, in its order. */
  ghost function Routes(g: Graph, tid: TypeId, done: seq<TypeId>): (rs: seq<Route>)
    requires Ok(g) && tid in g.hops
    ensures forall i :: 0 <= i < |rs| ==> Follows(g, tid, rs[i])
    decreases Left(g, done), 1, 0
  {
    if tid in done then [] else [[]] + RoutesVia(g, tid, done, |g.hops[tid]|)
  }

  /** Those that start with one of the first n edges. */
  ghost function RoutesVia(g: Graph, tid: TypeId, done: seq<TypeId>, n: nat): (rs: seq<Route>)
    requires Ok(g) && tid in g.hops && tid !in done && n <= |g.hops[tid]|
    ensures forall i :: 0 <= i < |rs| ==> Follows(g, tid, rs[i])
    decreases Left(g, done), 0, n
  {
    if n == 0 then []
    else
      assert Left(g, done + [tid]) == Left(g, done) - {tid};
      RoutesVia(g, tid, done, n - 1) + Prefixed(n - 1, Routes(g, Target(g, tid, n - 1), done + [tid]))
  }

  ghost function Prefixed(k: nat, rs: seq<Route>): (ps: seq<Route>)
    ensures |ps| == |rs| && forall i :: 0 <= i < |rs| ==> ps[i] == [k] + rs[i]
  {
    seq(|rs|, i requires 0 <= i < |rs| => [k] + rs[i])
  }

  /** The entries of a list of routes, in order. */
  ghost function Entries(g: Graph, tid: TypeId, path: seq<string>, rs: seq<Route>): (es: seq<Entry>)
    requires Ok(g) && tid in g.hops && forall i :: 0 <= i < |rs| ==> Follows(g, tid, rs[i])
    ensures |es| == |rs| && forall i :: 0 <= i < |rs| ==> es[i] == EntryOf(g, tid, path, rs[i])
  {
    seq(|rs|, i requires 0 <= i < |rs| => EntryOf(g, tid, path, rs[i]))
  }

  // ---------- The routes are exactly the untrodden ones, each once ----------

  lemma NewStopsStep(tid: TypeId, s: seq<TypeId>, done: seq<TypeId>)
    ensures NewStops([tid] + s, done) <==> tid !in done && NewStops(s, done + [tid])
  {
    var s' := [tid] + s;
    if NewStops(s', done) {
      assert s'[0] !in done;
      forall i | 0 <= i < |s| ensures s[i] !in done + [tid] { assert s'[0] != s'[i + 1] && s'[i + 1] !in done; }
      forall i, j | 0 <= i < j < |s| ensures s[i] != s[j] { assert s'[i + 1] != s'[j + 1]; }
    }
  }

  lemma UntroddenStep(g: Graph, tid: TypeId, done: seq<TypeId>, r: Route)
    requires Ok(g) && tid in g.hops && r != []
    ensures Untrodden(g, tid, done, r) <==>
            && tid !in done && r[0] < |g.hops[tid]|
            && Untrodden(g, Target(g, tid, r[0]), done + [tid], r[1..])
  {
    hide Ok, NewStops;
    if Follows(g, tid, r) {
      NewStopsStep(tid, Stops(g, Target(g, tid, r[0]), r[1..]), done);
    }
  }

  lemma RoutesExact(g: Graph, tid: TypeId, done: seq<TypeId>, r: Route)
    requires Ok(g) && tid in g.hops
    ensures r in Routes(g, tid, done) <==> Untrodden(g, tid, done, r)
    decreases |r|, 1
  {
    hide Ok;
    if r == [] {
      assert Stops(g, tid, r) == [tid];
      assert Untrodden(g, tid, done, r) <==> [tid][0] !in done;
      if tid !in done { assert Routes(g, tid, done)[0] == r; }
    } else {
      UntroddenStep(g, tid, done, r);
      if tid !in done { RoutesViaExact(g, tid, done, |g.hops[tid]|, r); }
    }
  }

  lemma RoutesViaExact(g: Graph, tid: TypeId, done: seq<TypeId>, n: nat, r: Route)
    requires Ok(g) && tid in g.hops && tid !in done && n <= |g.hops[tid]| && r != []
    ensures r in RoutesVia(g, tid, done, n) <==>
            r[0] < n && Untrodden(g, Target(g, tid, r[0]), done + [tid], r[1..])
    decreases |r|, 0, n
  {
    hide Ok;
    if n > 0 {
      RoutesViaExact(g, tid, done, n - 1, r);
      var sub := Routes(g, Target(g, tid, n - 1), done + [tid]);
      RoutesExact(g, Target(g, tid, n - 1), done + [tid], r[1..]);
      PrefixedMember(n - 1, sub, r);
    }
  }

  lemma PrefixedMember(k: nat, rs: seq<Route>, r: Route)
    requires r != []
    ensures r in Prefixed(k, rs) <==> r[0] == k && r[1..] in rs
  {
    if r[0] == k && r[1..] in rs {
      var i :| 0 <= i < |rs| && rs[i] == r[1..];
      assert r == [k] + rs[i];
      assert Prefixed(k, rs)[i] == r;
    }
  }

  lemma RoutesDiffer(g: Graph, tid: TypeId, done: seq<TypeId>)
    requires Ok(g) && tid in g.hops
    ensures Distinct(Routes(g, tid, done))
    decreases Left(g, done), 1, 0
  {
    hide Ok;
    if tid !in done {
      RoutesViaDiffer(g, tid, done, |g.hops[tid]|);
    }
  }

  lemma RoutesViaDiffer(g: Graph, tid: TypeId, done: seq<TypeId>, n: nat)
    requires Ok(g) && tid in g.hops && tid !in done && n <= |g.hops[tid]|
    ensures Distinct(RoutesVia(g, tid, done, n))
    ensures forall i :: 0 <= i < |RoutesVia(g, tid, done, n)| ==>
              RoutesVia(g, tid, done, n)[i] != [] && RoutesVia(g, tid, done, n)[i][0] < n
    decreases Left(g, done), 0, n
  {
    hide Ok, Follows;
    if n > 0 {
      assert Left(g, done + [tid]) == Left(g, done) - {tid};
      RoutesViaDiffer(g, tid, done, n - 1);
      var sub := Routes(g, Target(g, tid, n - 1), done + [tid]);
      RoutesDiffer(g, Target(g, tid, n - 1), done + [tid]);
      PrefixedDiffer(n - 1, sub);
    }
  }

  lemma PrefixedDiffer(k: nat, rs: seq<Route>)
    requires Distinct(rs)
    ensures Distinct(Prefixed(k, rs))
  {
    forall i, j | 0 <= i < j < |rs| ensures Prefixed(k, rs)[i] != Prefixed(k, rs)[j] {
      assert ([k] + rs[i])[1..] == rs[i] && ([k] + rs[j])[1..] == rs[j];
    }
  }

  /** Taking edge k first, then the routes of its target. */
  lemma EntriesVia(g: Graph, tid: TypeId, path: seq<string>, k: nat, rs: seq<Route>)
    requires Ok(g) && tid in g.hops && k < |g.hops[tid]|
    requires forall i :: 0 <= i < |rs| ==> Follows(g, Target(g, tid, k), rs[i])
    ensures forall i :: 0 <= i < |rs| ==> Follows(g, tid, Prefixed(k, rs)[i])
    ensures Entries(g, tid, path, Prefixed(k, rs)) ==
            Entries(g, Target(g, tid, k), path + [g.hops[tid][k].tag], rs)
  {
    hide Ok;
    forall i | 0 <= i < |rs|
      ensures Follows(g, tid, [k] + rs[i])
      ensures EntryOf(g, tid, path, [k] + rs[i]) ==
              EntryOf(g, Target(g, tid, k), path + [g.hops[tid][k].tag], rs[i])
    {
      var r := [k] + rs[i];
      assert r[1..] == rs[i];
      var tag := g.hops[tid][k].tag;
      assert path + Labels(g, tid, r) == path + [tag] + Labels(g, Target(g, tid, k), rs[i]);
    }
  }

  // ---------- The class ----------

  /** `offer`, at most one edge, sits at position n; the next one is at m. */
  ghost predicate NextEdge(hops: seq<Hop>, n: nat, offer: seq<Hop>, m: nat) {
    && m == n + |offer| <= |hops|
    && (offer != [] ==> hops[n] == offer[0])
  }

  class StaticInformation {
    const db: Database
    var output: seq<Entry>
    var currentPath: seq<string>
    var alreadyProcessed: seq<TypeId>
    var aggregates: seq<(TypeId, TypeId)>

    /** g is the graph of the database and the aggregations. */
    ghost predicate Walks(g: Graph)
      reads this`aggregates
    {
      Valid(db, aggregates) && g == GraphOf(db, aggregates) && Ok(g)
    }

    /** The edges of tid: attributes, descendants, aggregations. */
    ghost predicate Hopping(g: Graph, tid: TypeId)
      reads this`aggregates
    {
      && tid in db.attributes && tid in g.hops
      && (forall i :: 0 <= i < |db.registered| ==> db.registered[i] in db.names)
      && (forall i :: 0 <= i < |aggregates| ==> aggregates[i].0 in db.names && aggregates[i].1 in db.names)
      && g.hops[tid] == AttributeHops(db, db.attributes[tid]) + ChildHops(db, tid, db.registered)
                        + AggregateHops(db, tid, aggregates)
    }

    /** How many edges of tid come from attributes, and from the first two loops. */
    ghost function AttributeEnd(tid: TypeId): nat
      requires tid in db.attributes
    {
      |AttributeHops(db, db.attributes[tid])|
    }

    ghost function ChildEnd(tid: TypeId): nat
      requires tid in db.attributes && forall i :: 0 <= i < |db.registered| ==> db.registered[i] in db.names
    {
      AttributeEnd(tid) + |ChildHops(db, tid, db.registered)|
    }

    constructor (db: Database)
      ensures this.db == db && output == [] && currentPath == [] && alreadyProcessed == [] && aggregates == []
    {
      this.db := db;
      output, currentPath, alreadyProcessed, aggregates := [], [], [], [];
    }

    method GetCurrentPath() returns (path: string)
      ensures path == PathString(currentPath)
    {
      path := "";
      for i := 0 to |currentPath|
        invariant path == PathString(currentPath[..i])
      {
        path := path + "/" + currentPath[i];
        assert currentPath[..i + 1][..i] == currentPath[..i];
      }
      assert currentPath[..|currentPath|] == currentPath;
    }

    method RecordOutput(tid: TypeId)
      modifies this`output
      ensures output == old(output) + [Entry(tid, PathString(currentPath))]
    {
      var path := GetCurrentPath();
      output := output + [Entry(tid, path)];
    }

    method HasAlreadyBeenProcessed(tid: TypeId) returns (found: bool)
      ensures found <==> tid in alreadyProcessed
    {
      for i := 0 to |alreadyProcessed|
        invariant tid !in alreadyProcessed[..i]
      {
        if alreadyProcessed[i] == tid { return true; }
      }
      found := false;
    }

    /** Push, recurse, pop: the body shared by the three loops of DoGather. */
    method Descend(ghost g: Graph, tid: TypeId, tag: string, next: TypeId)
      requires Walks(g) && tid in g.hops && tid !in alreadyProcessed && next in g.hops
      modifies this`output, this`currentPath, this`alreadyProcessed
      ensures currentPath == old(currentPath) && alreadyProcessed == old(alreadyProcessed)
      ensures output == old(output) + EntriesFrom(g, next, currentPath + [tag], alreadyProcessed + [tid])
      decreases Left(g, alreadyProcessed), 0
    {
      hide Walks, EntriesFrom, Ok;
      ghost var path, done := currentPath, alreadyProcessed;
      assert tid in Left(g, done) && Left(g, done + [tid]) == Left(g, done) - {tid};
      currentPath := currentPath + [tag];
      alreadyProcessed := alreadyProcessed + [tid];
      DoGather(g, next);
      alreadyProcessed := alreadyProcessed[..|alreadyProcessed| - 1];
      currentPath := currentPath[..|currentPath| - 1];
      assert currentPath == path && alreadyProcessed == done;
    }

    /** One entry per route that visits no processed type and no type twice, in
        the order of the recursion; both stacks are as before. */
    method DoGather(ghost g: Graph, tid: TypeId)
      requires Walks(g) && tid in g.hops
      modifies this`output, this`currentPath, this`alreadyProcessed
      ensures currentPath == old(currentPath) && alreadyProcessed == old(alreadyProcessed)
      ensures output == old(output) + EntriesFrom(g, tid, currentPath, alreadyProcessed)
      decreases Left(g, alreadyProcessed), 2
    {
      hide EntriesFrom, Gathered, Walks, Left, Ok, AttributeEnd, ChildEnd, AttributeHops, ChildHops, AggregateHops;
      EdgeCounts(g, tid);
      var found := HasAlreadyBeenProcessed(tid);
      if found {
        NothingGathered(g, tid, currentPath, alreadyProcessed);
        return;
      }
      ghost var start := output;
      RecordOutput(tid);
      GatheredEnds(g, tid, currentPath, alreadyProcessed);
      GatherAttributes(g, tid, start);
      GatherChildren(g, tid, start);
      GatherAggregates(g, tid, start);
    }

    lemma EdgeCounts(g: Graph, tid: TypeId)
      requires Walks(g) && tid in g.hops
      ensures Ok(g) && tid in db.attributes && Hopping(g, tid)
      ensures forall i :: 0 <= i < |db.registered| ==> db.registered[i] in db.names
      ensures forall i :: 0 <= i < |aggregates| ==> aggregates[i].0 in db.names && aggregates[i].1 in db.names
      ensures AttributeEnd(tid) == |AttributeHops(db, db.attributes[tid])| && AttributeHops(db, db.attributes[tid][..0]) == []
      ensures ChildEnd(tid) == AttributeEnd(tid) + |ChildHops(db, tid, db.registered)| && ChildHops(db, tid, db.registered[..0]) == []
      ensures |g.hops[tid]| == ChildEnd(tid) + |AggregateHops(db, tid, aggregates)| && AggregateHops(db, tid, aggregates[..0]) == []
    {
    }

    /** The edge that attribute i offers, if any, is the next one of tid. */
    lemma AttributeEdge(g: Graph, tid: TypeId, i: nat)
      requires Hopping(g, tid) && i < |db.attributes[tid]|
      ensures NextEdge(g.hops[tid], |AttributeHops(db, db.attributes[tid][..i])|,
                       AttributeHop(db, db.attributes[tid][i]), |AttributeHops(db, db.attributes[tid][..i + 1])|)
    {
      hide Concat;
      var attributes := db.attributes[tid];
      var offers := AttributeOffers(db, attributes);
      ConcatSplit(offers, i);
      assert AttributeOffers(db, attributes[..i]) == offers[..i] && AttributeOffers(db, attributes[..i + 1]) == offers[..i + 1];
    }

    lemma ChildEdge(g: Graph, tid: TypeId, i: nat)
      requires Hopping(g, tid) && i < |db.registered|
      ensures NextEdge(g.hops[tid], AttributeEnd(tid) + |ChildHops(db, tid, db.registered[..i])|,
                       ChildHop(db, tid, db.registered[i]), AttributeEnd(tid) + |ChildHops(db, tid, db.registered[..i + 1])|)
    {
      hide Concat;
      var types := db.registered;
      var offers := ChildOffers(db, tid, types);
      ConcatSplit(offers, i);
      assert ChildOffers(db, tid, types[..i]) == offers[..i] && ChildOffers(db, tid, types[..i + 1]) == offers[..i + 1];
    }

    lemma AggregateEdge(g: Graph, tid: TypeId, i: nat)
      requires Hopping(g, tid) && i < |aggregates|
      ensures NextEdge(g.hops[tid], ChildEnd(tid) + |AggregateHops(db, tid, aggregates[..i])|,
                       AggregateHop(db, tid, aggregates[i]), ChildEnd(tid) + |AggregateHops(db, tid, aggregates[..i + 1])|)
    {
      hide Concat;
      var offers := AggregateOffers(db, tid, aggregates);
      ConcatSplit(offers, i);
      assert AggregateOffers(db, tid, aggregates[..i]) == offers[..i];
      assert AggregateOffers(db, tid, aggregates[..i + 1]) == offers[..i + 1];
    }

    /** Lines 429-468: the attribute loop. */
    method GatherAttributes(ghost g: Graph, tid: TypeId, ghost start: seq<Entry>)
      requires Walks(g) && tid in g.hops && tid !in alreadyProcessed
      requires output == start + Gathered(g, tid, currentPath, alreadyProcessed, 0)
      modifies this`output, this`currentPath, this`alreadyProcessed
      ensures currentPath == old(currentPath) && alreadyProcessed == old(alreadyProcessed)
      ensures output == start + Gathered(g, tid, currentPath, alreadyProcessed, AttributeEnd(tid))
      decreases Left(g, alreadyProcessed), 1
    {
      hide EntriesFrom, Gathered, Left, Valid, Ok, Walks, Hopping, AttributeHops, ChildHops, AggregateHops, AttributeEnd,
        ChildEnd, GraphOf, Types;
      EdgeCounts(g, tid);
      ghost var path, done, n := currentPath, alreadyProcessed, 0;
      var attributes := db.attributes[tid];
      for i := 0 to |attributes|
        invariant currentPath == path && alreadyProcessed == done
        invariant n == |AttributeHops(db, attributes[..i])| <= |g.hops[tid]|
        invariant output == start + Gathered(g, tid, path, done, n)
      {
        var info := attributes[i];
        AttributeEdge(g, tid, i);
        if info.checker.PointerTo? {
          var pointee := info.checker.pointee;
          if pointee != db.objectType {
            GatheredMore(g, tid, path, done, n);
            Descend(g, tid, info.name, pointee);
            n := n + 1;
          }
        } else if info.checker.ContainerOf? {
          GatheredMore(g, tid, path, done, n);
          Descend(g, tid, info.name + "/[i]", info.checker.item);
          n := n + 1;
        }
      }
      assert attributes[..|attributes|] == attributes;
    }

    /** Lines 469-481: the loop over the registered types. */
    method GatherChildren(ghost g: Graph, tid: TypeId, ghost start: seq<Entry>)
      requires Walks(g) && tid in g.hops && tid !in alreadyProcessed
      requires output == start + Gathered(g, tid, currentPath, alreadyProcessed, AttributeEnd(tid))
      modifies this`output, this`currentPath, this`alreadyProcessed
      ensures currentPath == old(currentPath) && alreadyProcessed == old(alreadyProcessed)
      ensures output == start + Gathered(g, tid, currentPath, alreadyProcessed, ChildEnd(tid))
      decreases Left(g, alreadyProcessed), 1
    {
      hide EntriesFrom, Gathered, Left, Valid, Ok, Walks, Hopping, AttributeHops, ChildHops, AggregateHops, AttributeEnd,
        ChildEnd, GraphOf, Types;
      EdgeCounts(g, tid);
      ghost var path, done, n := currentPath, alreadyProcessed, AttributeEnd(tid);
      for j := 0 to |db.registered|
        invariant currentPath == path && alreadyProcessed == done
        invariant n == AttributeEnd(tid) + |ChildHops(db, tid, db.registered[..j])| <= |g.hops[tid]|
        invariant output == start + Gathered(g, tid, path, done, n)
      {
        var child := db.registered[j];
        ChildEdge(g, tid, j);
        if (child, tid) in db.childOf {
          GatheredMore(g, tid, path, done, n);
          Descend(g, tid, "$" + db.names[child], child);
          n := n + 1;
        }
      }
      assert db.registered[..|db.registered|] == db.registered;
    }

    /** Lines 482-502: the loop over the aggregations. */
    method GatherAggregates(ghost g: Graph, tid: TypeId, ghost start: seq<Entry>)
      requires Walks(g) && tid in g.hops && tid !in alreadyProcessed
      requires output == start + Gathered(g, tid, currentPath, alreadyProcessed, ChildEnd(tid))
      modifies this`output, this`currentPath, this`alreadyProcessed
      ensures currentPath == old(currentPath) && alreadyProcessed == old(alreadyProcessed)
      ensures output == start + Gathered(g, tid, currentPath, alreadyProcessed, |g.hops[tid]|)
      decreases Left(g, alreadyProcessed), 1
    {
      hide EntriesFrom, Gathered, Left, Valid, Ok, Walks, Hopping, AttributeHops, ChildHops, AggregateHops, AttributeEnd,
        ChildEnd, GraphOf, Types;
      EdgeCounts(g, tid);
      ghost var path, done, n := currentPath, alreadyProcessed, ChildEnd(tid);
      for j := 0 to |aggregates|
        invariant currentPath == path && alreadyProcessed == done
        invariant n == ChildEnd(tid) + |AggregateHops(db, tid, aggregates[..j])| <= |g.hops[tid]|
        invariant output == start + Gathered(g, tid, path, done, n)
      {
        var item := aggregates[j];
        AggregateEdge(g, tid, j);
        if item.0 == tid || item.1 == tid {
          var other := item.1;
          if item.1 == tid { other := item.0; }
          GatheredMore(g, tid, path, done, n);
          Descend(g, tid, "$" + db.names[other], other);
          n := n + 1;
        }
      }
      assert aggregates[..|aggregates|] == aggregates;
    }

    /** Uniquefy sorts and prunes a copy that it is handed by value, so Gather
        leaves exactly what DoGather appended. */
    method Gather(tid: TypeId)
      requires Valid(db, aggregates) && tid in Types(db)
      requires currentPath == [] && alreadyProcessed == []
      modifies this`output, this`currentPath, this`alreadyProcessed
      ensures currentPath == [] && alreadyProcessed == []
      ensures OneEntryPerSimpleRoute(GraphOf(db, aggregates), tid, old(output), output)
    {
      hide GraphOf, EntriesFrom, OneEntryPerSimpleRoute, Valid, Ok;
      ghost var g := GraphOf(db, aggregates);
      GraphIsOk(db, aggregates);
      DoGather(g, tid);
      OneEntryEach(g, tid, old(output), output);
    }
  }

  /** What was appended to the output is one entry for each route from the root
      that visits no type twice: there is a list of these routes, complete and
      without repetition, whose entries they are in order. */
  ghost predicate OneEntryPerSimpleRoute(g: Graph, root: TypeId, before: seq<Entry>, after: seq<Entry>)
  {
    && Ok(g) && root in g.hops
    && exists rs: seq<Route> ::
         && Distinct(rs)
         && (forall r :: r in rs <==> SimpleRoute(g, root, r))
         && (forall i :: 0 <= i < |rs| ==> Follows(g, root, rs[i]))
         && after == before + Entries(g, root, [], rs)
  }

  ghost predicate SimpleRoute(g: Graph, root: TypeId, r: Route)
    requires Ok(g) && root in g.hops
  {
    Follows(g, root, r) && Distinct(Stops(g, root, r))
  }

  lemma OneEntryEach(g: Graph, root: TypeId, before: seq<Entry>, after: seq<Entry>)
    requires Ok(g) && root in g.hops && after == before + EntriesFrom(g, root, [], [])
    ensures OneEntryPerSimpleRoute(g, root, before, after)
  {
    hide Ok, Follows;
    var rs := Routes(g, root, []);
    RoutesDiffer(g, root, []);
    forall r ensures r in rs <==> SimpleRoute(g, root, r) {
      RoutesExact(g, root, [], r);
    }
  }

  /** The entries of the routes from tid that avoid `done`. */
  ghost function EntriesFrom(g: Graph, tid: TypeId, path: seq<string>, done: seq<TypeId>): seq<Entry>
    requires Ok(g) && tid in g.hops
  {
    Entries(g, tid, path, Routes(g, tid, done))
  }

  lemma NothingGathered(g: Graph, tid: TypeId, path: seq<string>, done: seq<TypeId>)
    requires Ok(g) && tid in g.hops && tid in done
    ensures EntriesFrom(g, tid, path, done) == []
  {
  }

  /** The entry of tid itself and those of the routes that start with one of its
      first n edges. */
  ghost function Gathered(g: Graph, tid: TypeId, path: seq<string>, done: seq<TypeId>, n: nat): seq<Entry>
    requires Ok(g) && tid in g.hops && tid !in done && n <= |g.hops[tid]|
  {
    [Entry(tid, PathString(path))] + Entries(g, tid, path, RoutesVia(g, tid, done, n))
  }

  lemma GatheredMore(g: Graph, tid: TypeId, path: seq<string>, done: seq<TypeId>, n: nat)
    requires Ok(g) && tid in g.hops && tid !in done && n < |g.hops[tid]|
    ensures g.hops[tid][n].to in g.hops
    ensures Gathered(g, tid, path, done, n + 1) == Gathered(g, tid, path, done, n)
            + EntriesFrom(g, g.hops[tid][n].to, path + [g.hops[tid][n].tag], done + [tid])
  {
    hide Ok, Follows, Entries, Prefixed, PathString;
    TargetIs(g, tid, n);
    var routes := Routes(g, Target(g, tid, n), done + [tid]);
    EntriesVia(g, tid, path, n, routes);
    EntriesAppend(g, tid, path, RoutesVia(g, tid, done, n), Prefixed(n, routes));
  }

  lemma TargetIs(g: Graph, tid: TypeId, n: nat)
    requires Ok(g) && tid in g.hops && n < |g.hops[tid]|
    ensures g.hops[tid][n].to == Target(g, tid, n)
  {
  }

  lemma EntriesAppend(g: Graph, tid: TypeId, path: seq<string>, a: seq<Route>, b: seq<Route>)
    requires Ok(g) && tid in g.hops
    requires forall i :: 0 <= i < |a| ==> Follows(g, tid, a[i])
    requires forall i :: 0 <= i < |b| ==> Follows(g, tid, b[i])
    ensures Entries(g, tid, path, a + b) == Entries(g, tid, path, a) + Entries(g, tid, path, b)
  {
    hide Ok, Follows, EntryOf;
  }

  lemma GatheredEnds(g: Graph, tid: TypeId, path: seq<string>, done: seq<TypeId>)
    requires Ok(g) && tid in g.hops && tid !in done
    ensures Gathered(g, tid, path, done, 0) == [Entry(tid, PathString(path))]
    ensures Gathered(g, tid, path, done, |g.hops[tid]|) == EntriesFrom(g, tid, path, done)
  {
    hide Ok, Follows, EntryOf, PathString;
    EmptyRoute(g, tid, path);
    var rs := RoutesVia(g, tid, done, |g.hops[tid]|);
    assert Routes(g, tid, done) == [[]] + rs;
    assert Entries(g, tid, path, [[]] + rs) == [EntryOf(g, tid, path, [])] + Entries(g, tid, path, rs);
  }

  lemma EmptyRoute(g: Graph, tid: TypeId, path: seq<string>)
    requires Ok(g) && tid in g.hops
    ensures Follows(g, tid, []) && EntryOf(g, tid, path, []) == Entry(tid, PathString(path))
  {
    hide Ok;
    assert Stops(g, tid, []) == [tid] && path + Labels(g, tid, []) == path;
  }

  // ---------- A small database ----------

  /** A type with a container, a pointer and a pointer to Object; the container's
      item type is aggregated to Object. */
  function Example(): Database {
    Database([0, 1, 2], map[0 := "Root", 1 := "Item", 2 := "Object"],
             map[0 := [Attribute("NodeList", ContainerOf(1)), Attribute("Device", PointerTo(1)),
                       Attribute("Any", PointerTo(2))],
                 1 := [Attribute("Size", OtherChecker)], 2 := []],
             {}, 2)
  }

  const EXAMPLE_GRAPH := Graph(map[
    0 := [Hop("NodeList/[i]", 1), Hop("Device", 1)], 1 := [Hop("$Object", 2)], 2 := [Hop("$Item", 1)]])

  lemma ExampleGraph()
    ensures Valid(Example(), [(1, 2)]) && GraphOf(Example(), [(1, 2)]) == EXAMPLE_GRAPH
  {
    hide GraphOf, Valid, AttributeHops, ChildHops, AggregateHops, Example, Types;
    ExampleIsValid();
    var db := Example();
    GraphIsOk(db, [(1, 2)]);
    ExampleEdges(db, 0);
    ExampleEdges(db, 1);
    ExampleEdges(db, 2);
    assert GraphOf(db, [(1, 2)]).hops == EXAMPLE_GRAPH.hops;
  }

  lemma ExampleIsValid()
    ensures Valid(Example(), [(1, 2)]) && Types(Example()) == {0, 1, 2}
  {
    hide Types;
    ExampleTypes();
  }

  lemma ExampleTypes()
    ensures Types(Example()) == {0, 1, 2}
  {
  }

  lemma ExampleEdges(db: Database, t: TypeId)
    requires db == Example() && t in {0, 1, 2} && Valid(db, [(1, 2)]) && t in Types(db)
    ensures t in GraphOf(db, [(1, 2)]).hops && GraphOf(db, [(1, 2)]).hops[t] == EXAMPLE_GRAPH.hops[t]
  {
    hide AttributeHops, ChildHops, AggregateHops;
    ExampleHops(db, t);
  }

  lemma ExampleHops(db: Database, t: TypeId)
    requires db == Example() && t in {0, 1, 2}
    ensures AttributeHops(db, db.attributes[t]) == if t == 0 then [Hop("NodeList/[i]", 1), Hop("Device", 1)] else []
    ensures ChildHops(db, t, db.registered) == []
    ensures AggregateHops(db, t, [(1, 2)]) ==
            if t == 0 then [] else if t == 1 then [Hop("$Object", 2)] else [Hop("$Item", 1)]
  {
    assert "NodeList" + "/[i]" == "NodeList/[i]" && "$" + "Object" == "$Object" && "$" + "Item" == "$Item";
    ConcatOne([AggregateHop(db, t, (1, 2))]);
    assert AggregateOffers(db, t, [(1, 2)]) == [AggregateHop(db, t, (1, 2))];
    ConcatThree([], [], []);
    assert ChildOffers(db, t, db.registered) == [[], [], []];
    if t == 0 {
      ConcatThree([Hop("NodeList/[i]", 1)], [Hop("Device", 1)], []);
      assert AttributeOffers(db, db.attributes[0]) == [[Hop("NodeList/[i]", 1)], [Hop("Device", 1)], []];
    } else if t == 1 {
      ConcatOne([[]]);
      assert AttributeOffers(db, db.attributes[1]) == [[]];
    }
  }

  lemma ConcatOne(offers: seq<seq<Hop>>)
    requires |offers| == 1
    ensures Concat(offers) == offers[0]
  {
    assert offers[..0] == [];
  }

  lemma ConcatThree(a: seq<Hop>, b: seq<Hop>, c: seq<Hop>)
    ensures Concat([a, b, c]) == a + b + c
  {
    assert [a, b, c][..2] == [a, b] && [a, b][..1] == [a];
    ConcatOne([a]);
  }

  lemma EntriesOfOne(g: Graph, tid: TypeId, path: seq<string>, done: seq<TypeId>)
    requires Ok(g) && tid in g.hops && tid !in done && |g.hops[tid]| == 1 && g.hops[tid][0].to in g.hops
    ensures EntriesFrom(g, tid, path, done) == [Entry(tid, PathString(path))]
              + EntriesFrom(g, g.hops[tid][0].to, path + [g.hops[tid][0].tag], done + [tid])
  {
    hide EntriesFrom, Gathered, Ok, PathString;
    GatheredEnds(g, tid, path, done);
    GatheredMore(g, tid, path, done, 0);
  }

  /** The literal paths that gathering from Root records. */
  lemma ExampleEntries()
    ensures Valid(Example(), [(1, 2)]) && Ok(GraphOf(Example(), [(1, 2)]))
    ensures EntriesFrom(GraphOf(Example(), [(1, 2)]), 0, [], []) ==
      [Entry(0, ""), Entry(1, "/NodeList/[i]"), Entry(2, "/NodeList/[i]/$Object"),
       Entry(1, "/Device"), Entry(2, "/Device/$Object")]
  {
    hide EntriesFrom, Gathered, GraphOf, Valid, Ok;
    var g := EXAMPLE_GRAPH;
    ExampleGraph();
    GraphIsOk(Example(), [(1, 2)]);
    GatheredEnds(g, 0, [], []);
    GatheredMore(g, 0, [], [], 0);
    GatheredMore(g, 0, [], [], 1);
    assert [] + ["NodeList/[i]"] == ["NodeList/[i]"] && [] + ["Device"] == ["Device"] && [] + [0] == [0];
    ItemEntries("NodeList/[i]");
    ItemEntries("Device");
    assert "/" + "NodeList/[i]" == "/NodeList/[i]" && "/NodeList/[i]" + "/$Object" == "/NodeList/[i]/$Object";
    assert "/" + "Device" == "/Device" && "/Device" + "/$Object" == "/Device/$Object";
  }

  lemma ItemEntries(tag: string)
    requires Ok(EXAMPLE_GRAPH)
    ensures EntriesFrom(EXAMPLE_GRAPH, 1, [tag], [0]) == [Entry(1, "/" + tag), Entry(2, "/" + tag + "/$Object")]
  {
    hide EntriesFrom, Ok, PathString;
    var g := EXAMPLE_GRAPH;
    EntriesOfOne(g, 1, [tag], [0]);
    assert [tag] + ["$Object"] == [tag, "$Object"] && [0] + [1] == [0, 1];
    EntriesOfOne(g, 2, [tag, "$Object"], [0, 1]);
    assert [0, 1] + [2] == [0, 1, 2];
    NothingGathered(g, 1, [tag, "$Object"] + ["$Item"], [0, 1, 2]);
    PathStringJoins([tag], ["$Object"], "$Object");
    PathStringJoins([], [], tag);
    assert "/" + "$Object" == "/$Object";
  }
}
