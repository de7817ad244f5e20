/** Graph objects, the table of their indexes, and the public operations on them
    (packages/domain/src/dependency-graph.ts, `indexOf` to `createDependencyGraph`). */
module GraphStore {
  import opened Common
  import opened Reachability
  import opened Dependencies
  import opened EdgeKeys
  import opened DependencyGraph
  import opened GraphSearch

  /** A graph is a frozen object: identity matters, its edges never change. */
  class Graph {
    const edges: seq<Dependency>

    constructor (edges: seq<Dependency>)
      ensures this.edges == edges
    {
      this.edges := edges;
    }
  }

  /** Two states of one index look the same from the given version: same entries in the same order,
      same keys. */
  ghost predicate SameSight(before: Index, after: Index, version: nat) {
    && (forall ticket :: after.Sees(version, ticket) == before.Sees(version, ticket))
    && (forall key :: after.SeesKey(version, key) <==> before.SeesKey(version, key))
  }

  datatype GraphIndex = GraphIndex(shared: SharedIndex, version: nat) {

    /** What a graph of this version sees is exactly this edge list. */
    ghost predicate Shows(edges: seq<Dependency>)
      reads shared
    {
      shared.Contents().Bounded() && shared.Contents().Describes(version, edges)
    }

    /** Everything seen before is still seen, in the same order, and nothing else. */
    twostate predicate SameView()
      reads shared
    {
      SameSight(old(shared.Contents()), shared.Contents(), version)
    }
  }

  /** What every graph grown from the empty one satisfies. */
  ghost predicate Sound(edges: seq<Dependency>) {
    Sorted(edges) && Acyclic(ArcsOf(edges))
  }

  /** A closed walk made of the refused edge followed by existing ones. */
  ghost predicate GenuineCycle(edges: seq<Dependency>, edge: Dependency, path: seq<string>) {
    && |path| >= 2 && path[0] == edge.ticket
    && PathFromTo(ArcsOf(edges), path[1..], edge.dependsOn, edge.ticket)
    && IsCycle(ArcsOf(edges + [edge]), path)
  }

  lemma ArcsOfAppend(edges: seq<Dependency>, edge: Dependency)
    ensures ArcsOf(edges + [edge]) == ArcsOf(edges) + {Arc(edge.ticket, edge.dependsOn)}
  {
  }

  /** `next` is `edges` with `edge` put in somewhere. */
  ghost predicate IsSplice(edges: seq<Dependency>, edge: Dependency, next: seq<Dependency>) {
    exists k :: 0 <= k <= |edges| && next == Splice(edges, k, edge)
  }

  lemma SpliceMembers(edges: seq<Dependency>, k: nat, edge: Dependency)
    requires k <= |edges|
    ensures forall e :: e in Splice(edges, k, edge) <==> e in edges || e == edge
    ensures ArcsOf(Splice(edges, k, edge)) == ArcsOf(edges + [edge])
  {
    var s := Splice(edges, k, edge);
    assert edges[..k] + edges[k..] == edges;
    assert forall e :: e in s <==> e in edges + [edge];
  }

  lemma SpliceKeepsView(ix: Index, version: nat, edges: seq<Dependency>, k: nat, edge: Dependency)
    requires k <= |edges| && ix.Describes(version, edges + [edge])
    ensures ix.Describes(version, Splice(edges, k, edge))
  {
    var s := Splice(edges, k, edge);
    SpliceMembers(edges, k, edge);
    assert forall e :: e in s <==> e in edges + [edge];
    forall ticket ensures multiset(ix.Sees(version, ticket)) == multiset(Targets(s, ticket)) {
      TargetsSplice(edges, k, edge, ticket);
      assert multiset(ix.Sees(version, ticket)) == multiset(Targets(edges + [edge], ticket));
    }
  }

  /** Appending in place at the head: the new version sees one edge more, every older one the same. */
  lemma AppendAtHead(ix: Index, edges: seq<Dependency>, edge: Dependency)
    requires ix.Bounded() && ix.Describes(ix.head, edges) && WellFormed(edge) && edge !in edges
    ensures var next := ix.(head := ix.head + 1).Recorded(edge, ix.head + 1);
            && next.Bounded() && next.Describes(next.head, edges + [edge])
            && forall version :: 0 <= version <= ix.head ==> SameSight(ix, next, version)
  {
    RecordExtends(ix, edges, edge, ix.head + 1, ix.head + 1);
    assert EdgeKey(edge) !in ix.keys by {
      forall e | e in edges ensures EdgeKey(e) != EdgeKey(edge) {
        if EdgeKey(e) == EdgeKey(edge) { EdgeKeyInjective(edge, e); }
      }
      assert !ix.SeesKey(ix.head, EdgeKey(edge));
    }
    var next := ix.(head := ix.head + 1).Recorded(edge, ix.head + 1);
    forall version: nat | version <= ix.head ensures SameSight(ix, next, version) {
      RecordHidden(ix.(head := ix.head + 1), edge, ix.head + 1, version);
    }
  }

  lemma SameSightSameEdges(before: Index, after: Index, version: nat, edges: seq<Dependency>)
    requires before.Describes(version, edges) && SameSight(before, after, version) && before.head <= after.head
    ensures after.Describes(version, edges)
  {
  }

  lemma EmptyIsSound()
    ensures Sound([])
  {
    forall p ensures !IsCycle(ArcsOf([]), p) {
      if |p| >= 2 { assert Arc(p[0], p[1]) !in ArcsOf([]); }
    }
  }

  lemma CycleIsGenuine(edges: seq<Dependency>, edge: Dependency, back: seq<string>)
    requires PathFromTo(ArcsOf(edges), back, edge.dependsOn, edge.ticket)
    ensures GenuineCycle(edges, edge, [edge.ticket] + back)
  {
  }

  /** Advances the head and files the edge under it. */
  method Append(shared: SharedIndex, edge: Dependency, ghost edges: seq<Dependency>, ghost next: seq<Dependency>)
    requires shared.Contents().Bounded() && shared.Contents().Describes(shared.head, edges)
    requires WellFormed(edge) && edge !in edges && IsSplice(edges, edge, next)
    modifies shared
    ensures shared.head == old(shared.head) + 1
    ensures shared.Contents().Bounded() && shared.Contents().Describes(shared.head, next)
    ensures forall version :: 0 <= version <= old(shared.head) ==>
        SameSight(old(shared.Contents()), shared.Contents(), version)
  {
    hide Index.Describes, Index.Bounded, SameSight, WellFormed, Splice, EdgeKey, Index.EntriesOf;
    AppendAtHead(shared.Contents(), edges, edge);
    shared.head := shared.head + 1;
    shared.Record(edge, shared.head);
    ghost var k :| 0 <= k <= |edges| && next == Splice(edges, k, edge);
    SpliceKeepsView(shared.Contents(), shared.head, edges, k, edge);
  }

  /** Index of a graph object that is not yet known: a fresh one, built from its edge list. */
  method IndexFromEdges(edges: seq<Dependency>) returns (index: GraphIndex)
    ensures index.Shows(edges) && fresh(index.shared)
  {
    var shared := new SharedIndex(|edges|);
    shared.RecordAll(edges);
    index := GraphIndex(shared, shared.head);
  }

  ghost predicate AllWellFormed(edges: seq<Dependency>) {
    forall e :: e in edges ==> WellFormed(e)
  }

  ghost predicate SameElements(a: seq<Dependency>, b: seq<Dependency>) {
    forall e :: e in a <==> e in b
  }

  lemma SameElementsSameArcs(a: seq<Dependency>, b: seq<Dependency>)
    requires SameElements(a, b)
    ensures ArcsOf(a) == ArcsOf(b)
  {
  }

  /** What adding `edge` to a graph with these edges must answer. */
  ghost predicate AddOutcome(edges: seq<Dependency>, edge: Dependency, r: Result<seq<Dependency>, GraphError>) {
    && (EdgeFault(edge).Some? ==> r == Err(EdgeFault(edge).value))
    && (WellFormed(edge) && edge in edges ==> r == Ok(edges))
    && (WellFormed(edge) && edge !in edges ==>
        (Reaches(ArcsOf(edges), edge.dependsOn, edge.ticket) <==> r.Err? && r.error.DependencyCycle?))
    && (r.Err? && r.error.DependencyCycle? ==> GenuineCycle(edges, edge, r.error.path))
    && (r.Ok? ==> forall e :: e in r.value <==> e in edges || e == edge)
    && (WellFormed(edge) && Sound(edges) ==> (r.Ok? <==> Acyclic(ArcsOf(edges + [edge]))))
    && (r.Ok? && Sound(edges) ==> Sound(r.value))
  }

  /** `error` is right for edge `i` of the list, the first that cannot be added: its own first fault, else a
      genuine cycle through it and earlier edges. */
  ghost predicate IsRefusal(edges: seq<Dependency>, i: nat, error: GraphError)
    requires i < |edges|
  {
    && AllWellFormed(edges[..i]) && Acyclic(ArcsOf(edges[..i]))
    && if EdgeFault(edges[i]).Some? then error == EdgeFault(edges[i]).value
       else error.DependencyCycle? && GenuineCycle(edges[..i], edges[i], error.path)
  }

  /** On an acyclic graph, testing the way back is testing the enlarged graph. */
  lemma CycleTest(edges: seq<Dependency>, edge: Dependency)
    ensures Acyclic(ArcsOf(edges)) ==>
        (Acyclic(ArcsOf(edges + [edge])) <==> !Reaches(ArcsOf(edges), edge.dependsOn, edge.ticket))
    ensures edge in edges ==> ArcsOf(edges + [edge]) == ArcsOf(edges)
  {
    ArcsOfAppend(edges, edge);
    if Acyclic(ArcsOf(edges)) {
      ArcClosesCycle(ArcsOf(edges), edge.ticket, edge.dependsOn);
    }
  }

  lemma RefusalStep(edges: seq<Dependency>, i: nat, built: seq<Dependency>, error: GraphError)
    requires i < |edges| && Sound(built) && SameElements(built, edges[..i]) && AllWellFormed(edges[..i])
    requires AddOutcome(built, edges[i], Err(error))
    ensures IsRefusal(edges, i, error)
  {
    hide Sorted, Acyclic;
    SameElementsSameArcs(built, edges[..i]);
    CycleTest(built, edges[i]);
    ArcsOfAppend(built, edges[i]);
    ArcsOfAppend(edges[..i], edges[i]);
  }

  /** One step of building from a list: the step succeeds exactly when the longer prefix is sound. */
  lemma PrefixStep(edges: seq<Dependency>, i: nat, built: seq<Dependency>, r: Result<seq<Dependency>, GraphError>)
    requires i < |edges| && Sound(built) && SameElements(built, edges[..i]) && AllWellFormed(edges[..i])
    requires AddOutcome(built, edges[i], r)
    ensures r.Ok? ==> Sound(r.value) && SameElements(r.value, edges[..i + 1]) && AllWellFormed(edges[..i + 1])
    ensures r.Err? ==> !(AllWellFormed(edges) && Acyclic(ArcsOf(edges))) && IsRefusal(edges, i, r.error)
  {
    assert edges[..i + 1] == edges[..i] + [edges[i]];
    if r.Err? {
      RefusalStep(edges, i, built, r.error);
    }
    if r.Err? && AllWellFormed(edges) && Acyclic(ArcsOf(edges)) {
      assert edges[i] in edges;
      assert forall e :: e in built + [edges[i]] ==> e in edges;
      forall arc | arc in ArcsOf(built + [edges[i]]) ensures arc in ArcsOf(edges) {
        ArcsOfMembers(built + [edges[i]], arc);
        ArcsOfMembers(edges, arc);
      }
      SubsetAcyclic(ArcsOf(built + [edges[i]]), ArcsOf(edges));
      assert false;
    }
  }

  lemma FaultyEdgeOutcome(edges: seq<Dependency>, edge: Dependency)
    requires EdgeFault(edge).Some?
    ensures AddOutcome(edges, edge, Err(EdgeFault(edge).value))
  {
  }

  lemma UnchangedView()
    ensures forall ix, version :: SameSight(ix, ix, version)
  {
  }

  lemma ViewsCompose()
    ensures forall a, b, c, version :: SameSight(a, b, version) && SameSight(b, c, version) ==> SameSight(a, c, version)
  {
  }

  lemma OutcomeIsSound(edges: seq<Dependency>, edge: Dependency, next: seq<Dependency>)
    requires AddOutcome(edges, edge, Ok(next))
    ensures Sound(edges) ==> Sound(next)
  {
  }

  lemma KnownEdgeOutcome(edges: seq<Dependency>, edge: Dependency)
    requires WellFormed(edge) && edge in edges
    ensures AddOutcome(edges, edge, Ok(edges))
  {
    CycleTest(edges, edge);
  }

  /** Searches for a way back, then inserts: the value part of adding an unknown edge. */
  method Insert(ix: Index, version: nat, edges: seq<Dependency>, edge: Dependency)
    returns (r: Result<seq<Dependency>, GraphError>)
    requires ix.Describes(version, edges) && WellFormed(edge) && edge !in edges
    ensures AddOutcome(edges, edge, r)
    ensures r.Ok? ==> IsSplice(edges, edge, r.value)
  {
    CycleTest(edges, edge);
    var back := FindPath(ix, version, edge.dependsOn, edge.ticket, edges);
    if back.Some? {
      CycleIsGenuine(edges, edge, back.value);
      assert Reaches(ArcsOf(edges), edge.dependsOn, edge.ticket);
      return Err(DependencyCycle([edge.ticket] + back.value));
    }
    var next := InsertSorted(edges, edge);
    if next.None? {
      return Err(MalformedGraph);
    }
    ghost var k :| 0 <= k <= |edges| && next.value == Splice(edges, k, edge);
    SpliceMembers(edges, k, edge);
    r := Ok(next.value);
  }

  lemma FiledIffPresent(ix: Index, version: nat, edges: seq<Dependency>, edge: Dependency)
    requires ix.Describes(version, edges) && WellFormed(edge)
    ensures ix.SeesKey(version, EdgeKey(edge)) <==> edge in edges
  {
    if ix.SeesKey(version, EdgeKey(edge)) {
      var e :| e in edges && EdgeKey(e) == EdgeKey(edge);
      EdgeKeyInjective(edge, e);
    }
  }

  /** Whether the edge is already visible; if not, the edge list of the next graph or the refusal. */
  method Decide(index: GraphIndex, edges: seq<Dependency>, edge: Dependency)
    returns (known: bool, next: Result<seq<Dependency>, GraphError>)
    requires index.Shows(edges) && WellFormed(edge)
    ensures known <==> edge in edges
    ensures AddOutcome(edges, edge, if known then Ok(edges) else next)
    ensures !known && next.Ok? ==> IsSplice(edges, edge, next.value) && (Sound(edges) ==> Sound(next.value))
  {
    var ix := index.shared.Contents();
    FiledIffPresent(ix, index.version, edges, edge);
    if EdgeKey(edge) in index.shared.keys && index.shared.keys[EdgeKey(edge)] <= index.version {
      KnownEdgeOutcome(edges, edge);
      return true, Ok(edges);
    }
    known := false;
    next := Insert(ix, index.version, edges, edge);
    if next.Ok? {
      OutcomeIsSound(edges, edge, next.value);
    }
  }

  /** The module-wide table of indexes. `built` holds the graphs grown from the empty graph through
      this interface; a graph object made elsewhere may also be passed in. */
  class Store {
    var indexes: map<Graph, GraphIndex>
    const empty: Graph
    ghost var built: set<Graph>
    ghost var repr: set<SharedIndex>

    ghost predicate Valid()
      reads this, repr
    {
      && (forall g :: g in indexes ==> indexes[g].shared in repr && indexes[g].Shows(g.edges))
      && empty in built && empty.edges == []
      && (forall g :: g in built ==> g in indexes && Sound(g.edges))
    }

    constructor ()
      ensures Valid() && fresh(empty) && built == {empty} && fresh(repr)
    {
      var g := new Graph([]);
      var shared := new SharedIndex(0);
      indexes, empty, built, repr := map[g := GraphIndex(shared, 0)], g, {g}, {shared};
      new;
      EmptyIsSound();
    }

    /** The index of a graph; an unknown graph object is indexed from its edge list first. */
    method IndexOf(graph: Graph) returns (index: GraphIndex)
      requires Valid()
      modifies this`indexes, this`repr
      ensures Valid() && graph in indexes && index == indexes[graph] && index.shared in repr
      ensures graph in old(indexes) ==> indexes == old(indexes) && repr == old(repr)
      ensures graph !in old(indexes) ==> indexes == old(indexes)[graph := index] && fresh(index.shared)
      ensures fresh(repr - old(repr)) && repr >= old(repr)
    {
      hide Sound, Index.Describes, Index.Bounded;
      if graph in indexes {
        return indexes[graph];
      }
      index := IndexFromEdges(graph.edges);
      hide GraphIndex.Shows;
      indexes, repr := indexes[graph := index], repr + {index.shared};
    }

    /** Index of the next graph, whose edges are `edges`: in place when `index` is the head of its
        line, otherwise on a fresh copy of the branch. */
    method ExtendIndex(graph: Graph, index: GraphIndex, edge: Dependency, ghost edges: seq<Dependency>)
      returns (next: GraphIndex)
      requires Valid() && graph in indexes && index == indexes[graph]
      requires WellFormed(edge) && edge !in graph.edges && IsSplice(graph.edges, edge, edges)
      modifies index.shared
      ensures Valid() && next.Shows(edges) && (next.shared in repr || fresh(next.shared))
      ensures forall g :: g in indexes ==> indexes[g].SameView()
    {
      var shared := index.shared;
      if index.version != shared.head {
        shared := new SharedIndex(index.version);
        shared.RecordAll(graph.edges);
      }
      ghost var ix := shared.Contents();
      Append(shared, edge, graph.edges, edges);
      next := GraphIndex(shared, shared.head);
      forall g | g in indexes ensures indexes[g].Shows(g.edges) && indexes[g].SameView() {
        if indexes[g].shared == shared {
          SameSightSameEdges(ix, shared.Contents(), indexes[g].version, g.edges);
        }
      }
    }

    /** Makes a graph object and files its index; no existing index changes. */
    method Publish(edges: seq<Dependency>, index: GraphIndex, parent: Graph) returns (added: Graph)
      requires Valid() && index.Shows(edges)
      requires parent in built ==> Sound(edges)
      modifies this
      ensures Valid() && repr == old(repr) + {index.shared}
      ensures fresh(added) && added.edges == edges && indexes == old(indexes)[added := index]
      ensures built == if parent in old(built) then old(built) + {added} else old(built)
    {
      hide Sound, GraphIndex.Shows;
      added := new Graph(edges);
      indexes, repr := indexes[added := index], repr + {index.shared};
      if parent in built {
        built := built + {added};
      }
    }

    /** Extends the index, then publishes the new graph. */
    method Grow(graph: Graph, index: GraphIndex, edge: Dependency, edges: seq<Dependency>) returns (added: Graph)
      requires Valid() && graph in indexes && index == indexes[graph]
      requires WellFormed(edge) && edge !in graph.edges && (Sound(graph.edges) ==> Sound(edges))
      requires IsSplice(graph.edges, edge, edges)
      modifies this, index.shared
      ensures Valid() && fresh(repr - old(repr)) && repr >= old(repr) && built >= old(built)
      ensures added.edges == edges && fresh(added) && added in indexes && indexes - {added} == old(indexes)
      ensures forall g :: g in old(indexes) ==> old(indexes[g]).SameView()
      ensures graph in old(built) ==> added in built
    {
      hide *;
      var extended := ExtendIndex(graph, index, edge, edges);
      added := Publish(edges, extended, graph);
    }

    /** The part of `addDependency` that follows the checks and the index lookup. */
    method AddIndexed(graph: Graph, index: GraphIndex, edge: Dependency) returns (r: Result<Graph, GraphError>)
      requires Valid() && graph in indexes && index == indexes[graph] && WellFormed(edge)
      modifies this, index.shared
      ensures Valid() && fresh(repr - old(repr)) && repr >= old(repr) && built >= old(built)
      ensures forall g :: g in old(indexes) ==>
          g in indexes && indexes[g] == old(indexes[g]) && old(indexes[g]).SameView()
      ensures AddOutcome(graph.edges, edge, if r.Ok? then Ok(r.value.edges) else Err(r.error))
      ensures r.Ok? ==> r.value in indexes && if edge in graph.edges then r.value == graph else fresh(r.value)
      ensures r.Ok? && graph in old(built) ==> r.value in built
    {
      hide AddOutcome, Sound, SameSight, WellFormed, IsSplice, GraphIndex.Shows;
      UnchangedView();
      assert index.Shows(graph.edges);
      var known, next := Decide(index, graph.edges, edge);
      if known {
        return Ok(graph);
      }
      if next.Err? {
        return Err(next.error);
      }
      var added := Grow(graph, index, edge, next.value);
      r := Ok(added);
    }

    /** A new graph with the edge, the same graph when it already has it, or a refusal. */
    method AddDependency(graph: Graph, edge: Dependency) returns (r: Result<Graph, GraphError>)
      requires Valid()
      modifies this, repr
      ensures Valid() && fresh(repr - old(repr)) && repr >= old(repr) && built >= old(built)
      ensures forall g :: g in old(indexes) ==>
          g in indexes && indexes[g] == old(indexes[g]) && old(indexes[g]).SameView()
      ensures AddOutcome(graph.edges, edge, if r.Ok? then Ok(r.value.edges) else Err(r.error))
      ensures r.Ok? ==> r.value in indexes && if edge in graph.edges then r.value == graph else fresh(r.value)
      ensures r.Ok? && graph in old(built) ==> r.value in built
    {
      hide AddOutcome, Valid, SameSight, EdgeFault, SharedIndex.Contents;
      if EdgeFault(edge).Some? {
        FaultyEdgeOutcome(graph.edges, edge);
        UnchangedView();
        return Err(EdgeFault(edge).value);
      }
      var index := IndexOf(graph);
      r := AddIndexed(graph, index, edge);
    }

    /** Adds the edges one by one to the empty graph: succeeds exactly on acyclic lists of sound edges. */
    method CreateDependencyGraph(edges: seq<Dependency>) returns (r: Result<Graph, GraphError>)
      requires Valid()
      modifies this, repr
      ensures Valid() && fresh(repr - old(repr)) && repr >= old(repr) && built >= old(built)
      ensures r.Ok? <==> AllWellFormed(edges) && Acyclic(ArcsOf(edges))
      ensures r.Ok? ==> r.value in built && Sound(r.value.edges) && SameElements(r.value.edges, edges)
      ensures r.Err? ==> exists i :: 0 <= i < |edges| && IsRefusal(edges, i, r.error)
      ensures forall g :: g in old(indexes) ==>
          g in indexes && indexes[g] == old(indexes[g]) && old(indexes[g]).SameView()
    {
      hide Acyclic, Sorted, AddOutcome, WellFormed, GraphIndex.Shows, SameSight, IsRefusal;
      var graph := empty;
      assert graph in built && Sound(graph.edges) && graph.edges == edges[..0];
      hide Valid, SharedIndex.Contents;
      UnchangedView();
      ViewsCompose();
      for i := 0 to |edges|
        invariant Valid() && fresh(repr - old(repr)) && repr >= old(repr) && built >= old(built)
        invariant forall g :: g in old(indexes) ==>
            g in indexes && indexes[g] == old(indexes[g]) && old(indexes[g]).SameView()
        invariant graph in built && Sound(graph.edges)
        invariant SameElements(graph.edges, edges[..i]) && AllWellFormed(edges[..i])
      {
        var next := AddDependency(graph, edges[i]);
        PrefixStep(edges, i, graph.edges, if next.Ok? then Ok(next.value.edges) else Err(next.error));
        if next.Err? {
          return next;
        }
        graph := next.value;
      }
      assert edges[..|edges|] == edges;
      SameElementsSameArcs(graph.edges, edges);
      r := Ok(graph);
    }
  }

  /** The outcome of building a graph from a list depends on the set of edges alone. */
  lemma OrderIndependent(a: seq<Dependency>, b: seq<Dependency>, builtA: seq<Dependency>, builtB: seq<Dependency>)
    requires SameElements(a, b)
    requires Sorted(builtA) && SameElements(builtA, a) && Sorted(builtB) && SameElements(builtB, b)
    ensures builtA == builtB
    ensures (AllWellFormed(a) && Acyclic(ArcsOf(a))) <==> (AllWellFormed(b) && Acyclic(ArcsOf(b)))
  {
    SameElementsSameArcs(a, b);
    SortedIsCanonical(builtA, builtB);
  }

  /** Builds the same edges in two orders, with any repetitions: same success, same edge list. */
  method BuildTwice(store: Store, a: seq<Dependency>, b: seq<Dependency>)
    returns (x: Result<Graph, GraphError>, y: Result<Graph, GraphError>)
    requires store.Valid() && SameElements(a, b)
    modifies store, store.repr
    ensures x.Ok? <==> y.Ok?
    ensures x.Ok? ==> x.value.edges == y.value.edges
  {
    x := store.CreateDependencyGraph(a);
    y := store.CreateDependencyGraph(b);
    SameElementsSameArcs(a, b);
    if x.Ok? {
      OrderIndependent(a, b, x.value.edges, y.value.edges);
    }
  }
}
