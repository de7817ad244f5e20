/** Iterative depth-first search over the visible part of an index
    (packages/domain/src/dependency-graph.ts, `findPath`). */
module GraphSearch {
  import opened Common
  import opened Reachability
  import opened Dependencies
  import opened DependencyGraph

  function Reverse<T>(s: seq<T>): seq<T> {
    if s == [] then [] else Reverse(s[1..]) + [s[0]]
  }

  lemma {:induction false} ReverseAppend<T>(s: seq<T>, x: T)
    ensures Reverse(s + [x]) == [x] + Reverse(s)
  {
    if s != [] {
      assert (s + [x])[1..] == s[1..] + [x];
      ReverseAppend(s[1..], x);
    }
  }

  /** For each node seen, the path by which the search came to it. */
  type Trail = map<string, seq<string>>

  /** Bookkeeping of the search: the nodes seen, and for each the node it was reached from. */
  datatype Walk = Walk(seen: set<string>, parent: map<string, string>) {

    ghost predicate Linked(arcs: set<Arc>, trail: Trail, n: string) {
      && n in parent && parent[n] in seen && parent[n] in trail && n in trail
      && Arc(parent[n], n) in arcs
      && trail[n] == trail[parent[n]] + [n]
    }

    /** `trail` is the path that `parent` spells out. */
    ghost predicate Valid(arcs: set<Arc>, from: string, trail: Trail) {
      && from in seen && from in trail && trail[from] == [from]
      && forall n {:trigger Linked(arcs, trail, n)} :: n in seen && n != from ==> Linked(arcs, trail, n)
    }

    function Reach(node: string, next: string): Walk {
      Walk(seen + {next}, parent[next := node])
    }
  }

  lemma ReachKeepsValid(arcs: set<Arc>, from: string, w: Walk, trail: Trail, node: string, next: string)
    requires w.Valid(arcs, from, trail) && node in w.seen && next !in w.seen && Arc(node, next) in arcs
    ensures node in trail
    ensures w.Reach(node, next).Valid(arcs, from, trail[next := trail[node] + [next]])
  {
    assert node != from ==> w.Linked(arcs, trail, node);
    var w', trail' := w.Reach(node, next), trail[next := trail[node] + [next]];
    forall n | n in w'.seen && n != from ensures w'.Linked(arcs, trail', n) {
      if n != next {
        assert w.Linked(arcs, trail, n);
      }
    }
  }

  lemma {:induction false} TrailIsPath(arcs: set<Arc>, from: string, w: Walk, trail: Trail, n: string)
    requires w.Valid(arcs, from, trail) && n in w.seen
    ensures n in trail && PathFromTo(arcs, trail[n], from, n)
    decreases if n in trail then |trail[n]| else 0
  {
    if n != from {
      assert w.Linked(arcs, trail, n);
      TrailIsPath(arcs, from, w, trail, w.parent[n]);
    }
  }

  /** Follows `parent` back from `to`, then reverses. */
  method TraceBack(w: Walk, from: string, to: string, ghost arcs: set<Arc>, ghost trail: Trail)
    returns (path: seq<string>)
    requires w.Valid(arcs, from, trail) && to in w.seen
    ensures PathFromTo(arcs, path, from, to)
  {
    TrailIsPath(arcs, from, w, trail, to);
    var cur, visited := to, [to];
    ghost var tail: seq<string> := [];
    assert Reverse([to]) == [to];
    assert trail[to] == trail[to] + [];
    while cur != from
      invariant cur in w.seen && cur in trail
      invariant Reverse(visited) == [cur] + tail
      invariant trail[to] == trail[cur] + tail
      decreases |trail[cur]|
    {
      assert w.Linked(arcs, trail, cur);
      ghost var up := w.parent[cur];
      assert trail[up] + [cur] + tail == trail[up] + ([cur] + tail);
      tail := [cur] + tail;
      cur := w.parent[cur];
      ReverseAppend(visited, cur);
      visited := visited + [cur];
    }
    path := Reverse(visited);
  }

  lemma SeesArcs(ix: Index, version: nat, edges: seq<Dependency>, node: string, next: string)
    requires ix.Describes(version, edges)
    ensures next in ix.Sees(version, node) <==> Arc(node, next) in ArcsOf(edges)
  {
    assert multiset(ix.Sees(version, node)) == multiset(Targets(edges, node));
    assert next in multiset(ix.Sees(version, node)) <==> next in multiset(Targets(edges, node));
    TargetsMembers(edges, node, next);
  }

  /** Nodes that arcs can lead to, with the start: the search never leaves this finite set. */
  ghost function Universe(arcs: set<Arc>, from: string): set<string> {
    {from} + set e | e in arcs :: e.to
  }

  /** A node is finished when it is not the goal and all its successors are known. */
  ghost predicate Finished(arcs: set<Arc>, node: string, to: string, seen: set<string>) {
    node != to && forall e :: e in arcs && e.from == node ==> e.to in seen
  }

  /** Everything seen was seen before or waits on the stack, and only seen nodes wait there. */
  ghost predicate OnStack(before: set<string>, seen: set<string>, stack: seq<string>) {
    (forall n :: n in seen ==> n in before || n in stack) && (forall n :: n in stack ==> n in seen)
  }

  /** Pushes the unseen visible successors of `node`. */
  method Expand(ix: Index, version: nat, node: string, stack0: seq<string>, w0: Walk,
                ghost trail0: Trail, ghost edges: seq<Dependency>, ghost from: string)
    returns (stack: seq<string>, w: Walk, ghost trail: Trail)
    requires forall n :: n in stack0 ==> n in w0.seen
    requires ix.Describes(version, edges) && node in w0.seen && w0.Valid(ArcsOf(edges), from, trail0)
    ensures w.Valid(ArcsOf(edges), from, trail)
    ensures forall e :: e in ArcsOf(edges) && e.from == node ==> e.to in w.seen
    ensures w0.seen <= w.seen <= w0.seen + Universe(ArcsOf(edges), from)
    ensures stack0 <= stack && OnStack(w0.seen, w.seen, stack)
    ensures stack == stack0 || w.seen != w0.seen
  {
    stack, w, trail := stack0, w0, trail0;
    var entries := ix.EntriesOf(node);
    ghost var arcs := ArcsOf(edges);
    for i := 0 to |entries|
      invariant w.Valid(arcs, from, trail)
      invariant forall j :: 0 <= j < i && entries[j].version <= version ==> entries[j].to in w.seen
      invariant w0.seen <= w.seen <= w0.seen + Universe(arcs, from)
      invariant stack0 <= stack && OnStack(w0.seen, w.seen, stack)
      invariant stack == stack0 || w.seen != w0.seen
    {
      var next := entries[i].to;
      if entries[i].version <= version && next !in w.seen {
        VisibleMembers(entries, version, next);
        SeesArcs(ix, version, edges, node, next);
        ReachKeepsValid(arcs, from, w, trail, node, next);
        trail := trail[next := trail[node] + [next]];
        w := w.Reach(node, next);
        stack := stack + [next];
      }
    }
    forall e | e in arcs && e.from == node ensures e.to in w.seen {
      SeesArcs(ix, version, edges, node, e.to);
      VisibleMembers(entries, version, e.to);
    }
  }

  lemma NoEscape(arcs: set<Arc>, from: string, to: string, seen: set<string>)
    requires from in seen && forall n :: n in seen ==> Finished(arcs, n, to, seen)
    ensures !Reaches(arcs, from, to)
  {
    forall p | IsPath(arcs, p) && p[0] == from ensures p[|p| - 1] != to {
      ClosedConfines(arcs, seen, p);
    }
  }

  /** A path from `from` to `to` made of visible arcs, or nothing exactly when there is none. */
  method FindPath(ix: Index, version: nat, from: string, to: string, ghost edges: seq<Dependency>)
    returns (path: Option<seq<string>>)
    requires ix.Describes(version, edges)
    ensures path.Some? ==> PathFromTo(ArcsOf(edges), path.value, from, to)
    ensures path.None? ==> !Reaches(ArcsOf(edges), from, to)
  {
    var stack, w := [from], Walk({from}, map[]);
    ghost var trail := map[from := [from]];
    ghost var arcs := ArcsOf(edges);
    ghost var finished: set<string> := {};
    assert w.Valid(arcs, from, trail);
    hide Index.Describes, ArcsOf, PathFromTo, IsPath, Reaches, Walk.Valid;
    while stack != []
      invariant from in w.seen
      invariant w.Valid(arcs, from, trail)
      invariant w.seen <= Universe(arcs, from)
      invariant OnStack(finished, w.seen, stack)
      invariant forall n :: n in finished ==> Finished(arcs, n, to, w.seen)
      decreases Universe(arcs, from) - w.seen, |stack|
    {
      var node := stack[|stack| - 1];
      var rest := stack[..|stack| - 1];
      assert stack == rest + [node];
      if node == to {
        var p := TraceBack(w, from, to, arcs, trail);
        return Some(p);
      }
      ghost var seen0 := w.seen;
      finished := finished + {node};
      stack, w, trail := Expand(ix, version, node, rest, w, trail, edges, from);
      assert forall n :: n in finished && n != node ==> Finished(arcs, n, to, seen0);
    }
    NoEscape(arcs, from, to, w.seen);
    path := None;
  }
}
