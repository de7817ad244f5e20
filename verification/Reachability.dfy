/** Paths and cycles over a finite set of arcs: the meaning against which the graph search is judged. */
module Reachability {
  datatype Arc = Arc(from: string, to: string)

  ghost predicate IsPath(arcs: set<Arc>, p: seq<string>) {
    p != [] && forall i, j :: 0 <= i && j == i + 1 && j < |p| ==> Arc(p[i], p[j]) in arcs
  }

  ghost predicate PathFromTo(arcs: set<Arc>, p: seq<string>, a: string, b: string) {
    IsPath(arcs, p) && p[0] == a && p[|p| - 1] == b
  }

  /** Some path, possibly the one-node path, leads from `a` to `b`. */
  ghost predicate Reaches(arcs: set<Arc>, a: string, b: string) {
    exists p :: PathFromTo(arcs, p, a, b)
  }

  ghost predicate IsCycle(arcs: set<Arc>, p: seq<string>) {
    |p| >= 2 && IsPath(arcs, p) && p[0] == p[|p| - 1]
  }

  ghost predicate Acyclic(arcs: set<Arc>) {
    forall p :: !IsCycle(arcs, p)
  }

  lemma SubsetAcyclic(small: set<Arc>, large: set<Arc>)
    requires small <= large && Acyclic(large)
    ensures Acyclic(small)
  {
    forall p ensures !IsCycle(small, p) {
      assert IsCycle(small, p) ==> IsCycle(large, p);
    }
  }

  /** Cut at the first visit of `a`, a walk that ends in `a` no longer leaves `a`, so an arc out of
      `a` is not needed to get there. */
  lemma {:induction false} ReachWithoutArc(arcs: set<Arc>, a: string, b: string, q: seq<string>)
    requires IsPath(arcs + {Arc(a, b)}, q) && q[|q| - 1] == a
    ensures Reaches(arcs, q[0], a)
    decreases |q|
  {
    if q[0] == a {
      assert PathFromTo(arcs, [a], q[0], a);
    } else {
      ReachWithoutArc(arcs, a, b, q[1..]);
      var p :| PathFromTo(arcs, p, q[1], a);
      assert Arc(q[0], q[1]) in arcs;
      assert PathFromTo(arcs, [q[0]] + p, q[0], a);
    }
  }

  /** A cycle read from its node after position `i` is a path back to the node at position `i`. */
  lemma RotateCycle(arcs: set<Arc>, p: seq<string>, i: nat)
    requires IsCycle(arcs, p) && i + 1 < |p|
    ensures PathFromTo(arcs, p[i + 1..] + p[1..i + 1], p[i + 1], p[i])
  {
  }

  /** An arc closes a cycle in an acyclic set exactly when its target already reaches its source. */
  lemma ArcClosesCycle(arcs: set<Arc>, a: string, b: string)
    requires Acyclic(arcs)
    ensures Acyclic(arcs + {Arc(a, b)}) <==> !Reaches(arcs, b, a)
  {
    var more := arcs + {Arc(a, b)};
    if Reaches(arcs, b, a) {
      var p :| PathFromTo(arcs, p, b, a);
      assert IsCycle(more, [a] + p);
    } else {
      forall p ensures !IsCycle(more, p) {
        if IsCycle(more, p) {
          assert !IsCycle(arcs, p);
          var i, j :| 0 <= i && j == i + 1 && j < |p| && Arc(p[i], p[j]) !in arcs;
          RotateCycle(more, p, i);
          ReachWithoutArc(arcs, a, b, p[j..] + p[1..j]);
          assert false;
        }
      }
    }
  }

  /** In an acyclic set a path never visits a node twice. */
  lemma PathVisitsOnce(arcs: set<Arc>, p: seq<string>, i: nat, j: nat)
    requires Acyclic(arcs) && IsPath(arcs, p) && i < j < |p|
    ensures p[i] != p[j]
  {
    var q := p[i..j + 1];
    assert forall k :: 0 <= k < |q| ==> q[k] == p[i + k];
    assert IsPath(arcs, q) && !IsCycle(arcs, q);
  }

  /** A set closed under arcs confines every path that starts inside it. */
  lemma {:induction false} ClosedConfines(arcs: set<Arc>, inside: set<string>, p: seq<string>)
    requires forall e :: e in arcs && e.from in inside ==> e.to in inside
    requires IsPath(arcs, p) && p[0] in inside
    ensures p[|p| - 1] in inside
    decreases |p|
  {
    if |p| > 1 {
      assert Arc(p[0], p[1]) in arcs;
      ClosedConfines(arcs, inside, p[1..]);
    }
  }
}
