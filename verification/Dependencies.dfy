/** Dependency edges, their order, and binary insertion into a sorted list
    (packages/domain/src/dependency-graph.ts, value part). */
module Dependencies {
  import opened Common
  import opened TicketKey
  import opened Reachability

  /** `ticket` depends on `dependsOn`. */
  datatype Dependency = Dependency(ticket: string, dependsOn: string, kind: string)

  const BLOCKS := "blocks"
  const RELATED := "related"

  datatype GraphError =
    | InvalidTicketKey(key: string)
    | InvalidDependencyType(kind: string)
    | DependencyCycle(path: seq<string>)
    | MalformedGraph  // a graph object made elsewhere holds a key that does not parse

  /** Position in the list of dependency types, -1 when absent. */
  function KindIndex(kind: string): int {
    if kind == BLOCKS then 0 else if kind == RELATED then 1 else -1
  }

  /** First fault of an edge, in the order the program checks them. */
  function EdgeFault(e: Dependency): Option<GraphError> {
    if ParseTicketKey(e.ticket).None? then Some(GraphError.InvalidTicketKey(e.ticket))
    else if ParseTicketKey(e.dependsOn).None? then Some(GraphError.InvalidTicketKey(e.dependsOn))
    else if KindIndex(e.kind) < 0 then Some(InvalidDependencyType(e.kind))
    else None
  }

  predicate WellFormed(e: Dependency) { EdgeFault(e).None? }

  /** An edge is well formed exactly if both ends are keys and its type is one of the two; a fault of the ticket
      is told before one of the target, and one of the type last. */
  lemma FaultReads(e: Dependency)
    ensures WellFormed(e) <==>
        ParseTicketKey(e.ticket).Some? && ParseTicketKey(e.dependsOn).Some? && e.kind in {"blocks", "related"}
    ensures EdgeFault(e).Some? ==>
        match EdgeFault(e).value
        case InvalidTicketKey(key) =>
          && ParseTicketKey(key).None?
          && (key == e.ticket || (key == e.dependsOn && ParseTicketKey(e.ticket).Some?))
        case InvalidDependencyType(kind) =>
          kind == e.kind && ParseTicketKey(e.ticket).Some? && ParseTicketKey(e.dependsOn).Some?
        case _ => false
  {
  }

  /** Difference of two key numbers, or nothing when a key does not parse. */
  function CompareKeys(a: string, b: string): Option<int> {
    if ParseTicketKey(a).Some? && ParseTicketKey(b).Some?
    then Some(ParseTicketKey(a).value - ParseTicketKey(b).value) else None
  }

  /** Order by ticket number, then target number, then type; `None` where the program throws. A later
      component is looked at only when the earlier ones tie. */
  function CompareEdges(a: Dependency, b: Dependency): Option<int> {
    var tickets := CompareKeys(a.ticket, b.ticket);
    if tickets != Some(0) then tickets
    else
      var targets := CompareKeys(a.dependsOn, b.dependsOn);
      if targets != Some(0) then targets else Some(KindIndex(a.kind) - KindIndex(b.kind))
  }

  predicate Before(a: Dependency, b: Dependency) {
    CompareEdges(a, b).Some? && CompareEdges(a, b).value < 0
  }

  /** Well-formed edges in strictly increasing order: sorted and free of duplicates. */
  predicate Sorted(edges: seq<Dependency>) {
    && (forall i :: 0 <= i < |edges| ==> WellFormed(edges[i]))
    && (forall i, j :: 0 <= i < j < |edges| ==> Before(edges[i], edges[j]))
  }

  /** On well-formed edges the comparison is a strict total order. */
  lemma OrderIsTotal(a: Dependency, b: Dependency)
    requires WellFormed(a) && WellFormed(b)
    ensures CompareEdges(a, b).Some? && CompareEdges(b, a).Some?
    ensures CompareEdges(a, b).value == -CompareEdges(b, a).value
    ensures CompareEdges(a, b).value == 0 <==> a == b
  {
    if CompareKeys(a.ticket, b.ticket) == Some(0) {
      ParseInjective(a.ticket, b.ticket);
      if CompareKeys(a.dependsOn, b.dependsOn) == Some(0) {
        ParseInjective(a.dependsOn, b.dependsOn);
      }
    }
  }

  lemma OrderIsTransitive(a: Dependency, b: Dependency, c: Dependency)
    requires WellFormed(a) && WellFormed(b) && WellFormed(c) && Before(a, b) && Before(b, c)
    ensures Before(a, c)
  {
  }

  function Splice(edges: seq<Dependency>, k: nat, edge: Dependency): (r: seq<Dependency>)
    requires k <= |edges|
  {
    edges[..k] + [edge] + edges[k..]
  }

  /** One comparison in a sorted list settles one whole side of it. */
  lemma SplitAround(edges: seq<Dependency>, edge: Dependency, mid: nat)
    requires Sorted(edges) && WellFormed(edge) && edge !in edges && mid < |edges|
    ensures CompareEdges(edges[mid], edge).Some? && CompareEdges(edges[mid], edge).value != 0
    ensures CompareEdges(edges[mid], edge).value < 0 ==> forall i :: 0 <= i <= mid ==> Before(edges[i], edge)
    ensures CompareEdges(edges[mid], edge).value > 0 ==> forall i :: mid <= i < |edges| ==> Before(edge, edges[i])
  {
    OrderIsTotal(edges[mid], edge);
    forall i | 0 <= i < |edges| && i != mid
      ensures i < mid && Before(edges[mid], edge) ==> Before(edges[i], edge)
      ensures mid < i && Before(edge, edges[mid]) ==> Before(edge, edges[i])
    {
      if i < mid && Before(edges[mid], edge) { OrderIsTransitive(edges[i], edges[mid], edge); }
      if mid < i && Before(edge, edges[mid]) { OrderIsTransitive(edge, edges[mid], edges[i]); }
    }
  }

  /** Binary search for the place of `edge`, then insertion of a copy. An unsorted list is still only
      spliced; a sorted one stays sorted. */
  method InsertSorted(edges: seq<Dependency>, edge: Dependency) returns (r: Option<seq<Dependency>>)
    ensures r.Some? ==> exists k :: 0 <= k <= |edges| && r.value == Splice(edges, k, edge)
    ensures Sorted(edges) && WellFormed(edge) && edge !in edges ==> r.Some? && Sorted(r.value)
  {
    var low, high := 0, |edges|;
    ghost var fits := Sorted(edges) && WellFormed(edge) && edge !in edges;
    while low < high
      invariant 0 <= low <= high <= |edges|
      invariant fits ==> forall i :: 0 <= i < low ==> Before(edges[i], edge)
      invariant fits ==> forall i :: high <= i < |edges| ==> Before(edge, edges[i])
    {
      var mid := (low + high) / 2;
      var c := CompareEdges(edges[mid], edge);
      if fits {
        SplitAround(edges, edge, mid);
      }
      if c.None? {
        return None;
      }
      if c.value <= 0 {
        low := mid + 1;
      } else {
        high := mid;
      }
    }
    r := Some(Splice(edges, low, edge));
  }

  lemma NotBothBefore(a: Dependency, b: Dependency)
    requires WellFormed(a) && WellFormed(b)
    ensures !(Before(a, b) && Before(b, a))
  {
    OrderIsTotal(a, b);
  }

  lemma SameLeast(a: seq<Dependency>, b: seq<Dependency>)
    requires Sorted(a) && Sorted(b) && a != [] && forall e :: e in a <==> e in b
    ensures b != [] && a[0] == b[0]
  {
    hide Before, CompareEdges, WellFormed;
    assert a[0] in a && a[0] in b;
    assert b[0] in b && b[0] in a;
    var j :| 0 <= j < |b| && b[j] == a[0];
    var i :| 0 <= i < |a| && a[i] == b[0];
    if i > 0 && j > 0 {
      NotBothBefore(a[0], b[0]);
    }
  }

  lemma SortedHeadOnce(a: seq<Dependency>, e: Dependency)
    requires Sorted(a) && a != []
    ensures e in a[1..] <==> e in a && e != a[0]
    ensures Sorted(a[1..])
  {
  }

  /** A strictly sorted list is determined by the set of its elements. */
  lemma {:induction false} SortedIsCanonical(a: seq<Dependency>, b: seq<Dependency>)
    requires Sorted(a) && Sorted(b)
    requires forall e :: e in a <==> e in b
    ensures a == b
    decreases |a|
  {
    assert b != [] ==> b[0] in b;
    if a != [] {
      SameLeast(a, b);
      forall e ensures e in a[1..] <==> e in b[1..] {
        SortedHeadOnce(a, e);
        SortedHeadOnce(b, e);
      }
      SortedHeadOnce(a, a[0]);
      SortedHeadOnce(b, b[0]);
      hide Sorted;
      SortedIsCanonical(a[1..], b[1..]);
      assert a == [a[0]] + a[1..] && b == [b[0]] + b[1..];
    }
  }

  ghost function ArcsOf(edges: seq<Dependency>): set<Arc> {
    set e | e in edges :: Arc(e.ticket, e.dependsOn)
  }

  lemma ArcsOfMembers(edges: seq<Dependency>, arc: Arc)
    ensures arc in ArcsOf(edges) <==> exists e :: e in edges && Arc(e.ticket, e.dependsOn) == arc
  {
  }

  function NumberOf(key: string): nat
    requires ParseTicketKey(key).Some?
  {
    ParseTicketKey(key).value
  }

  /** A sorted list, told on fields: by ticket number, then by number of the target, then blocking first. */
  lemma SortedReads(edges: seq<Dependency>, i: nat, j: nat)
    requires Sorted(edges) && i < j < |edges|
    ensures var a, b := edges[i], edges[j];
            && ParseTicketKey(a.ticket).Some? && ParseTicketKey(b.ticket).Some?
            && ParseTicketKey(a.dependsOn).Some? && ParseTicketKey(b.dependsOn).Some?
            && (|| NumberOf(a.ticket) < NumberOf(b.ticket)
                || (a.ticket == b.ticket && NumberOf(a.dependsOn) < NumberOf(b.dependsOn))
                || (a.ticket == b.ticket && a.dependsOn == b.dependsOn && a.kind == "blocks" && b.kind == "related"))
  {
    assert Before(edges[i], edges[j]) && WellFormed(edges[i]) && WellFormed(edges[j]);
    hide Sorted;
    if NumberOf(edges[i].ticket) == NumberOf(edges[j].ticket) {
      ParseInjective(edges[i].ticket, edges[j].ticket);
      if NumberOf(edges[i].dependsOn) == NumberOf(edges[j].dependsOn) {
        ParseInjective(edges[i].dependsOn, edges[j].dependsOn);
      }
    }
  }
}
