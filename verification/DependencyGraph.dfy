/** Immutable graphs over one shared, append-only, versioned index
    (packages/domain/src/dependency-graph.ts, stateful part). */
module DependencyGraph {
  import opened Reachability
  import opened Dependencies
  import opened EdgeKeys

  datatype Entry = Entry(to: string, version: nat)

  /** Targets of the entries that a graph of the given version sees, in insertion order. */
  function Visible(entries: seq<Entry>, version: nat): seq<string> {
    if entries == [] then []
    else
      var rest := Visible(entries[..|entries| - 1], version);
      var last := entries[|entries| - 1];
      if last.version <= version then rest + [last.to] else rest
  }

  lemma {:induction false} VisibleMembers(entries: seq<Entry>, version: nat, to: string)
    ensures to in Visible(entries, version)
       <==> exists i :: 0 <= i < |entries| && entries[i].to == to && entries[i].version <= version
  {
    if entries != [] {
      VisibleMembers(entries[..|entries| - 1], version, to);
    }
  }

  /** Targets of the edges that leave `ticket`, in list order. */
  function Targets(edges: seq<Dependency>, ticket: string): seq<string> {
    if edges == [] then []
    else
      var rest := Targets(edges[..|edges| - 1], ticket);
      var last := edges[|edges| - 1];
      if last.ticket == ticket then rest + [last.dependsOn] else rest
  }

  lemma {:induction false} TargetsConcat(a: seq<Dependency>, b: seq<Dependency>, ticket: string)
    ensures Targets(a + b, ticket) == Targets(a, ticket) + Targets(b, ticket)
  {
    if b == [] {
      assert a + b == a;
    } else {
      var front := b[..|b| - 1];
      assert (a + b)[..|a + b| - 1] == a + front;
      TargetsConcat(a, front, ticket);
    }
  }

  /** Wherever an edge is spliced in, the targets grow by that edge alone. */
  lemma TargetsSplice(edges: seq<Dependency>, k: nat, edge: Dependency, ticket: string)
    requires k <= |edges|
    ensures multiset(Targets(Splice(edges, k, edge), ticket))
         == multiset(Targets(edges + [edge], ticket))
  {
    TargetsConcat(edges[..k] + [edge], edges[k..], ticket);
    TargetsConcat(edges[..k], [edge], ticket);
    TargetsConcat(edges[..k], edges[k..], ticket);
    TargetsConcat(edges, [edge], ticket);
    assert edges[..k] + edges[k..] == edges;
  }

  lemma {:induction false} TargetsMembers(edges: seq<Dependency>, ticket: string, to: string)
    ensures to in Targets(edges, ticket) <==> Arc(ticket, to) in ArcsOf(edges)
  {
    if edges != [] {
      var front, last := edges[..|edges| - 1], edges[|edges| - 1];
      TargetsMembers(front, ticket, to);
      assert edges == front + [last];
    }
  }

  /** Contents of an index at one instant. */
  datatype Index = Index(head: nat, keys: map<string, nat>, out: map<string, seq<Entry>>) {

    function EntriesOf(ticket: string): seq<Entry> {
      if ticket in out then out[ticket] else []
    }

    /** What a graph of the given version sees: targets per ticket, and filed keys. */
    function Sees(version: nat, ticket: string): seq<string> {
      Visible(EntriesOf(ticket), version)
    }

    predicate SeesKey(version: nat, key: string) {
      key in keys && keys[key] <= version
    }

    function Recorded(edge: Dependency, version: nat): Index {
      var entries := EntriesOf(edge.ticket) + [Entry(edge.dependsOn, version)];
      Index(head, keys[EdgeKey(edge) := version], out[edge.ticket := entries])
    }

    /** No entry is newer than the head. */
    ghost predicate Bounded() {
      && (forall k :: k in keys ==> keys[k] <= head)
      && (forall t, i :: t in out && 0 <= i < |out[t]| ==> out[t][i].version <= head)
    }

    /** What is visible at `version` is exactly the edge list. */
    ghost predicate Describes(version: nat, edges: seq<Dependency>) {
      && version <= head
      && (forall key :: SeesKey(version, key) <==> exists e :: e in edges && EdgeKey(e) == key)
      && (forall ticket :: multiset(Sees(version, ticket)) == multiset(Targets(edges, ticket)))
    }
  }

  lemma VisibleAppend(entries: seq<Entry>, entry: Entry, version: nat)
    ensures Visible(entries + [entry], version)
         == Visible(entries, version) + (if entry.version <= version then [entry.to] else [])
  {
    assert (entries + [entry])[..|entries|] == entries;
  }

  /** Seen from any version at or above all entries, the whole list is visible. */
  lemma {:induction false} VisibleAll(entries: seq<Entry>, v: nat, w: nat)
    requires forall i :: 0 <= i < |entries| ==> entries[i].version <= v && entries[i].version <= w
    ensures Visible(entries, v) == Visible(entries, w)
  {
    if entries != [] {
      VisibleAll(entries[..|entries| - 1], v, w);
    }
  }

  lemma RecordExtendsTicket(ix: Index, edges: seq<Dependency>, edge: Dependency, at: nat, head: nat, ticket: string)
    requires ix.Bounded() && ix.head <= head && at <= head
    requires multiset(ix.Sees(ix.head, ticket)) == multiset(Targets(edges, ticket))
    ensures multiset(ix.(head := head).Recorded(edge, at).Sees(head, ticket))
         == multiset(Targets(edges + [edge], ticket))
  {
    TargetsConcat(edges, [edge], ticket);
    VisibleAll(ix.EntriesOf(ticket), ix.head, head);
    VisibleAppend(ix.EntriesOf(ticket), Entry(edge.dependsOn, at), head);
  }

  /** Recording an edge, at a version no newer than the new head, extends by that edge the view of a
      graph that saw the whole index. */
  lemma RecordExtends(ix: Index, edges: seq<Dependency>, edge: Dependency, at: nat, head: nat)
    requires ix.Bounded() && ix.Describes(ix.head, edges) && ix.head <= head && at <= head
    ensures var next := ix.(head := head).Recorded(edge, at);
            next.Bounded() && next.Describes(head, edges + [edge])
  {
    var next := ix.(head := head).Recorded(edge, at);
    forall key ensures next.SeesKey(head, key) <==> exists e :: e in edges + [edge] && EdgeKey(e) == key {
      assert next.SeesKey(head, key) <==> key == EdgeKey(edge) || ix.SeesKey(ix.head, key);
      assert ix.SeesKey(ix.head, key) <==> exists e :: e in edges && EdgeKey(e) == key;
      assert edge in edges + [edge];
    }
    hide EdgeKey;
    forall ticket ensures multiset(next.Sees(head, ticket)) == multiset(Targets(edges + [edge], ticket)) {
      RecordExtendsTicket(ix, edges, edge, at, head, ticket);
    }
  }

  /** Recording a new edge at a newer version is invisible to every older version. */
  lemma RecordHidden(ix: Index, edge: Dependency, at: nat, version: nat)
    requires version < at && EdgeKey(edge) !in ix.keys
    ensures forall key :: ix.Recorded(edge, at).SeesKey(version, key) <==> ix.SeesKey(version, key)
    ensures forall ticket :: ix.Recorded(edge, at).Sees(version, ticket) == ix.Sees(version, ticket)
  {
  }

  /** The mutable index shared by the graphs of one line of descent. */
  class SharedIndex {
    var head: nat
    var keys: map<string, nat>
    var out: map<string, seq<Entry>>

    function Contents(): Index
      reads this
    {
      Index(head, keys, out)
    }

    constructor (head: nat)
      ensures Contents() == Index(head, map[], map[])
    {
      this.head, keys, out := head, map[], map[];
    }

    method Record(edge: Dependency, version: nat)
      modifies this
      ensures Contents() == old(Contents()).Recorded(edge, version)
    {
      keys := keys[EdgeKey(edge) := version];
      var entry := Entry(edge.dependsOn, version);
      if edge.ticket in out {
        out := out[edge.ticket := out[edge.ticket] + [entry]];
      } else {
        out := out[edge.ticket := [entry]];
        assert [entry] == [] + [entry];
      }
    }

    /** Files every edge of a list at version 0: how an index is rebuilt from a plain edge list. */
    method RecordAll(edges: seq<Dependency>)
      requires keys == map[] && out == map[]
      modifies this
      ensures head == old(head) && Contents().Bounded() && Contents().Describes(head, edges)
    {
      for i := 0 to |edges|
        invariant head == old(head) && Contents().Bounded() && Contents().Describes(head, edges[..i])
      {
        RecordExtends(Contents(), edges[..i], edges[i], 0, head);
        assert edges[..i + 1] == edges[..i] + [edges[i]];
        Record(edges[i], 0);
      }
      assert edges[..|edges|] == edges;
    }
  }
}
