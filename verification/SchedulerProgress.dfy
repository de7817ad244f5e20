/** The scheduler never deadlocks: on an acyclic graph some ticket can always be taken, and taking the
    head of the selection order until none is left finishes everything in dependency order. */
module SchedulerProgress {
  import opened Common
  import opened TicketKey
  import opened Sorting
  import opened Reachability
  import opened Dependencies
  import opened Scheduler

  /** Tickets are todo or done, keys parse and differ, and every blocking target of a ticket exists. */
  ghost predicate Plan(tickets: seq<Ticket>, edges: seq<Dependency>) {
    && KeysParse(tickets) && UniqueKeys(tickets)
    && (forall t :: t in tickets ==> t.status == Todo || t.status == Done)
    && (forall e :: e in edges && e.kind == BLOCKS && e.ticket in ByKey(tickets) ==> e.dependsOn in ByKey(tickets))
    && Acyclic(ArcsOf(edges))
  }

  function TodoKeys(tickets: seq<Ticket>): set<string> {
    set t | t in tickets && t.status == Todo :: t.key
  }

  ghost predicate SomeEligible(tickets: seq<Ticket>, edges: seq<Dependency>) {
    exists t :: t in tickets && IsEligible(edges, ByKey(tickets), t)
  }

  lemma {:induction false} DistinctFits(p: seq<string>, s: set<string>)
    requires (forall i :: 0 <= i < |p| ==> p[i] in s) && (forall i, j :: 0 <= i < j < |p| ==> p[i] != p[j])
    ensures |p| <= |s|
  {
    if p != [] {
      var last := p[|p| - 1];
      DistinctFits(p[..|p| - 1], s - {last});
    }
  }

  /** Following unfinished blockers from a todo ticket visits new todo tickets only, so it stops, and
      it can only stop at an eligible ticket. */
  lemma {:induction false} WalkToEligible(tickets: seq<Ticket>, edges: seq<Dependency>, p: seq<string>)
    requires Plan(tickets, edges) && IsPath(ArcsOf(edges), p)
    requires forall i :: 0 <= i < |p| ==> p[i] in TodoKeys(tickets)
    ensures SomeEligible(tickets, edges)
    decreases |TodoKeys(tickets)| - |p|
  {
    var todo := TodoKeys(tickets);
    forall i, j | 0 <= i < j < |p| ensures p[i] != p[j] {
      PathVisitsOnce(ArcsOf(edges), p, i, j);
    }
    DistinctFits(p, todo);
    var t :| t in tickets && t.status == Todo && t.key == p[|p| - 1];
    if !IsEligible(edges, ByKey(tickets), t) {
      var e :| e in edges && e.ticket == t.key && e.kind == BLOCKS && !IsDone(ByKey(tickets), e.dependsOn);
      ByKeyFinds(tickets, t);
      ByKeyHas(tickets, e.dependsOn);
      var q := p + [e.dependsOn];
      assert Arc(e.ticket, e.dependsOn) in ArcsOf(edges);
      assert IsPath(ArcsOf(edges), q);
      forall i, j | 0 <= i < j < |q| ensures q[i] != q[j] {
        PathVisitsOnce(ArcsOf(edges), q, i, j);
      }
      DistinctFits(q, todo);
      WalkToEligible(tickets, edges, q);
    }
  }

  /** As long as a ticket is todo, one is eligible. */
  lemma NoDeadlock(tickets: seq<Ticket>, edges: seq<Dependency>, t: Ticket)
    requires Plan(tickets, edges) && t in tickets && t.status == Todo
    ensures SomeEligible(tickets, edges)
  {
    WalkToEligible(tickets, edges, [t.key]);
  }

  function Finished(t: Ticket, key: string): Ticket {
    if t.key == key then t.(status := Done) else t
  }

  /** The list after the ticket with this key is finished. */
  function Finish(tickets: seq<Ticket>, key: string): (r: seq<Ticket>)
    ensures |r| == |tickets| && forall i :: 0 <= i < |r| ==> r[i] == Finished(tickets[i], key)
  {
    if tickets == [] then []
    else Finish(tickets[..|tickets| - 1], key) + [Finished(tickets[|tickets| - 1], key)]
  }

  lemma {:induction false} FinishFrom(tickets: seq<Ticket>, key: string, after: Ticket) returns (t: Ticket)
    requires after in Finish(tickets, key)
    ensures t in tickets && after == Finished(t, key)
  {
    var i :| 0 <= i < |tickets| && Finish(tickets, key)[i] == after;
    t := tickets[i];
  }

  lemma FinishKeys(tickets: seq<Ticket>, key: string, k: string)
    ensures k in ByKey(Finish(tickets, key)) <==> k in ByKey(tickets)
  {
  }

  lemma FinishTodo(tickets: seq<Ticket>, key: string, k: string)
    ensures k in TodoKeys(Finish(tickets, key)) <==> k in TodoKeys(tickets) && k != key
  {
  }

  lemma FinishKeepsPlan(tickets: seq<Ticket>, edges: seq<Dependency>, key: string)
    requires Plan(tickets, edges)
    ensures Plan(Finish(tickets, key), edges)
    ensures TodoKeys(Finish(tickets, key)) == TodoKeys(tickets) - {key}
  {
    hide Acyclic;
    var after := Finish(tickets, key);
    forall k ensures k in ByKey(after) <==> k in ByKey(tickets)
             ensures k in TodoKeys(after) <==> k in TodoKeys(tickets) - {key}
    {
      FinishKeys(tickets, key, k);
      FinishTodo(tickets, key, k);
    }
    forall t | t in after ensures ParseTicketKey(t.key).Some? && (t.status == Todo || t.status == Done) {
      var before := FinishFrom(tickets, key, t);
    }
  }

  /** The selection order is empty exactly when no ticket is eligible, and its head is eligible. */
  lemma OrderHead(tickets: seq<Ticket>, edges: seq<Dependency>, sprint: Option<string>)
    requires KeysParse(tickets)
    ensures SelectionOrder(tickets, edges, sprint).Some?
    ensures var order := SelectionOrder(tickets, edges, sprint).value;
            && (order == [] <==> !SomeEligible(tickets, edges))
            && (order != [] ==> order[0] in tickets && IsEligible(edges, ByKey(tickets), order[0]))
  {
    RankIsSortedPermutation(tickets, edges, sprint);
    var ranked := RankTickets(tickets, edges, sprint).value;
    SameMembers(ranked, tickets);
    var eligible := (t: Ticket) => IsEligible(edges, ByKey(tickets), t);
    var order := Filter(eligible, ranked);
    forall t ensures t in order <==> t in tickets && eligible(t) {
      FilterMember(eligible, ranked, t);
    }
    assert order != [] ==> order[0] in order;
  }

  /** Keys in the order in which they are finished when the head of the selection order is finished
      again and again. */
  function Drain(tickets: seq<Ticket>, edges: seq<Dependency>, sprint: Option<string>, steps: nat): seq<string>
    decreases steps
  {
    var order := SelectionOrder(tickets, edges, sprint);
    if steps == 0 || order.None? || order.value == [] then []
    else
      var key := order.value[0].key;
      [key] + Drain(Finish(tickets, key), edges, sprint, steps - 1)
  }

  /** Each finished ticket comes after all its blockers that were not finished at the start. */
  ghost predicate RespectsBlockers(log: seq<string>, edges: seq<Dependency>, todo: set<string>) {
    forall i, e :: 0 <= i < |log| && e in edges && e.kind == BLOCKS && e.ticket == log[i] ==>
        e.dependsOn !in todo || e.dependsOn in log[..i]
  }

  /** While something is todo, the head of the selection order is eligible and is finished first. */
  lemma FirstRound(tickets: seq<Ticket>, edges: seq<Dependency>, sprint: Option<string>) returns (head: Ticket)
    requires Plan(tickets, edges) && TodoKeys(tickets) != {}
    ensures head in tickets && IsEligible(edges, ByKey(tickets), head) && head.key in TodoKeys(tickets)
    ensures var n := |TodoKeys(tickets)|;
            Drain(tickets, edges, sprint, n) == [head.key] + Drain(Finish(tickets, head.key), edges, sprint, n - 1)
  {
    var t :| t in tickets && t.status == Todo;
    NoDeadlock(tickets, edges, t);
    OrderHead(tickets, edges, sprint);
    head := SelectionOrder(tickets, edges, sprint).value[0];
  }

  lemma NothingToDrain(tickets: seq<Ticket>, edges: seq<Dependency>, sprint: Option<string>)
    ensures Drain(tickets, edges, sprint, 0) == []
    ensures RespectsBlockers([], edges, TodoKeys(tickets))
  {
  }

  /** Putting an eligible ticket in front of an order that respects the blockers of the others. */
  lemma EligibleFirst(tickets: seq<Ticket>, edges: seq<Dependency>, head: Ticket, rest: seq<string>)
    requires Plan(tickets, edges) && head in tickets && IsEligible(edges, ByKey(tickets), head)
    requires RespectsBlockers(rest, edges, TodoKeys(tickets) - {head.key})
    ensures RespectsBlockers([head.key] + rest, edges, TodoKeys(tickets))
  {
    hide Acyclic;
    var log, todo := [head.key] + rest, TodoKeys(tickets);
    forall i, e | 0 <= i < |log| && e in edges && e.kind == BLOCKS && e.ticket == log[i]
      ensures e.dependsOn !in todo || e.dependsOn in log[..i]
    {
      if i == 0 {
        assert IsDone(ByKey(tickets), e.dependsOn);
        forall t | t in tickets && t.key == e.dependsOn ensures t.status == Done {
          ByKeyFinds(tickets, t);
        }
      } else {
        assert log[i] == rest[i - 1] && log[..i] == [head.key] + rest[..i - 1];
      }
    }
  }

  /** As many rounds as there are todo tickets finish all of them, each once, blockers first. */
  lemma {:induction false} DrainCompletes(tickets: seq<Ticket>, edges: seq<Dependency>, sprint: Option<string>)
    requires Plan(tickets, edges)
    ensures var log := Drain(tickets, edges, sprint, |TodoKeys(tickets)|);
            && (forall k :: k in log <==> k in TodoKeys(tickets))
            && |log| == |TodoKeys(tickets)|
            && RespectsBlockers(log, edges, TodoKeys(tickets))
    decreases |TodoKeys(tickets)|
  {
    hide *;
    var todo := TodoKeys(tickets);
    if todo != {} {
      var head := FirstRound(tickets, edges, sprint);
      var after := Finish(tickets, head.key);
      FinishKeepsPlan(tickets, edges, head.key);
      assert |todo - {head.key}| == |todo| - 1;
      DrainCompletes(after, edges, sprint);
      EligibleFirst(tickets, edges, head, Drain(after, edges, sprint, |todo| - 1));
    } else {
      NothingToDrain(tickets, edges, sprint);
    }
  }
}
