/** Eligibility, ranking and selection of tickets
    (packages/domain/src/eligibility.ts, packages/domain/src/selection-order.ts). */
module Scheduler {
  import opened Common
  import opened TicketKey
  import opened Sorting
  import opened Dependencies

  datatype Status = Backlog | Todo | InProgress | InReview | Blocked | Done | Cancelled

  datatype Priority = Low | Medium | High | Critical

  datatype Ticket = Ticket(key: string, status: Status, priority: Priority, sprint: Option<string>, createdAt: int)

  /** Tickets by key; of two tickets with one key the later wins. */
  function ByKey(tickets: seq<Ticket>): map<string, Ticket> {
    if tickets == [] then map[]
    else ByKey(tickets[..|tickets| - 1])[tickets[|tickets| - 1].key := tickets[|tickets| - 1]]
  }

  predicate IsDone(byKey: map<string, Ticket>, key: string) {
    key in byKey && byKey[key].status == Done
  }

  /** Every blocking dependency points to a finished ticket; an absent target counts as unfinished. */
  predicate DependenciesSatisfied(edges: seq<Dependency>, byKey: map<string, Ticket>, key: string) {
    forall e :: e in edges ==> e.ticket == key && e.kind == BLOCKS ==> IsDone(byKey, e.dependsOn)
  }

  predicate IsEligible(edges: seq<Dependency>, byKey: map<string, Ticket>, t: Ticket) {
    t.status == Todo && DependenciesSatisfied(edges, byKey, t.key)
  }

  predicate IsActive(sprint: Option<string>, t: Ticket) {
    sprint.Some? && t.sprint == sprint
  }

  function PriorityRank(p: Priority): nat {
    match p case Low => 0 case Medium => 1 case High => 2 case Critical => 3
  }

  function Number(t: Ticket): nat {
    if ParseTicketKey(t.key).Some? then ParseTicketKey(t.key).value else 0
  }

  /** What the ranking of one list of tickets depends on besides the two tickets compared. */
  datatype Ranking = Ranking(edges: seq<Dependency>, byKey: map<string, Ticket>, sprint: Option<string>) {

    function Active(t: Ticket): int { if IsActive(sprint, t) then 0 else 1 }

    function Satisfied(t: Ticket): int { if DependenciesSatisfied(edges, byKey, t.key) then 0 else 1 }

    /** Active sprint, priority, satisfied dependencies, age, then key number. */
    predicate Ahead(a: Ticket, b: Ticket) {
      if Active(a) != Active(b) then Active(a) < Active(b)
      else if PriorityRank(a.priority) != PriorityRank(b.priority)
          then PriorityRank(b.priority) < PriorityRank(a.priority)
      else if Satisfied(a) != Satisfied(b) then Satisfied(a) < Satisfied(b)
      else if a.createdAt != b.createdAt then a.createdAt < b.createdAt
      else Number(a) < Number(b)
    }

    function Order(): (Ticket, Ticket) -> bool { (a, b) => Ahead(a, b) }
  }

  function RankingOf(tickets: seq<Ticket>, edges: seq<Dependency>, sprint: Option<string>): Ranking {
    Ranking(edges, ByKey(tickets), sprint)
  }

  predicate KeysParse(tickets: seq<Ticket>) {
    forall t :: t in tickets ==> ParseTicketKey(t.key).Some?
  }

  /** All tickets in order; nothing when a key does not parse, where the program throws. */
  function RankTickets(tickets: seq<Ticket>, edges: seq<Dependency>, sprint: Option<string>): Option<seq<Ticket>> {
    if KeysParse(tickets) then Some(SortBy(RankingOf(tickets, edges, sprint).Order(), tickets)) else None
  }

  function SelectionOrder(tickets: seq<Ticket>, edges: seq<Dependency>, sprint: Option<string>): Option<seq<Ticket>> {
    var ranked := RankTickets(tickets, edges, sprint);
    if ranked.None? then None
    else Some(Filter(t => IsEligible(edges, ByKey(tickets), t), ranked.value))
  }

  /** First eligible ticket of the active sprint. */
  function NextTicket(tickets: seq<Ticket>, edges: seq<Dependency>, sprint: Option<string>): Option<Option<Ticket>> {
    var order := SelectionOrder(tickets, edges, sprint);
    if order.None? then None
    else
      var active := Filter(t => IsActive(sprint, t), order.value);
      Some(if active == [] then None else Some(active[0]))
  }

  ghost predicate UniqueKeys(tickets: seq<Ticket>) {
    forall i, j :: 0 <= i < j < |tickets| ==> tickets[i].key != tickets[j].key
  }

  lemma {:induction false} ByKeyHas(tickets: seq<Ticket>, key: string)
    ensures key in ByKey(tickets) <==> exists t :: t in tickets && t.key == key
    ensures key in ByKey(tickets) ==> ByKey(tickets)[key] in tickets && ByKey(tickets)[key].key == key
  {
    if tickets != [] {
      var front, last := tickets[..|tickets| - 1], tickets[|tickets| - 1];
      ByKeyHas(front, key);
      assert tickets == front + [last];
    }
  }

  lemma ByKeyFinds(tickets: seq<Ticket>, t: Ticket)
    requires UniqueKeys(tickets) && t in tickets
    ensures t.key in ByKey(tickets) && ByKey(tickets)[t.key] == t
  {
    ByKeyHas(tickets, t.key);
  }

  lemma AheadIsStrict(r: Ranking)
    ensures StrictOrder(r.Order())
  {
  }

  lemma KeysSeparate(r: Ranking, tickets: seq<Ticket>)
    requires KeysParse(tickets) && UniqueKeys(tickets)
    ensures Separates(r.Order(), tickets)
  {
    forall a, b | a in tickets && b in tickets && a != b ensures r.Ahead(a, b) || r.Ahead(b, a) {
      if Number(a) == Number(b) {
        ParseInjective(a.key, b.key);
      }
    }
  }

  /** The ranking is a permutation of the tickets in which no ticket stands ahead of an earlier one. */
  lemma RankIsSortedPermutation(tickets: seq<Ticket>, edges: seq<Dependency>, sprint: Option<string>)
    requires KeysParse(tickets)
    ensures RankTickets(tickets, edges, sprint).Some?
    ensures multiset(RankTickets(tickets, edges, sprint).value) == multiset(tickets)
    ensures SortedBy(RankingOf(tickets, edges, sprint).Order(), RankTickets(tickets, edges, sprint).value)
  {
    var lt := RankingOf(tickets, edges, sprint).Order();
    AheadIsStrict(RankingOf(tickets, edges, sprint));
    SortIsPermutation(lt, tickets);
    SortIsSorted(lt, tickets);
  }

  /** With unique keys the order of the input list does not matter. */
  lemma RankIgnoresInputOrder(a: seq<Ticket>, b: seq<Ticket>, edges: seq<Dependency>, sprint: Option<string>)
    requires UniqueKeys(a) && multiset(a) == multiset(b)
    ensures RankTickets(a, edges, sprint) == RankTickets(b, edges, sprint)
    ensures SelectionOrder(a, edges, sprint) == SelectionOrder(b, edges, sprint)
    ensures NextTicket(a, edges, sprint) == NextTicket(b, edges, sprint)
  {
    SameMembers(a, b);
    PermutationKeepsDistinct((t: Ticket) => t.key, a, b);
    assert ByKey(a) == ByKey(b) by {
      forall k ensures k in ByKey(a) <==> k in ByKey(b)
               ensures k in ByKey(a) && k in ByKey(b) ==> ByKey(a)[k] == ByKey(b)[k]
      {
        ByKeyHas(a, k);
        ByKeyHas(b, k);
        if k in ByKey(a) { ByKeyFinds(b, ByKey(a)[k]); }
      }
    }
    if KeysParse(a) {
      var r := RankingOf(a, edges, sprint);
      RankIsSortedPermutation(a, edges, sprint);
      RankIsSortedPermutation(b, edges, sprint);
      var x, y := RankTickets(a, edges, sprint).value, RankTickets(b, edges, sprint).value;
      AheadIsStrict(r);
      KeysSeparate(r, a);
      SameMembers(a, x);
      SortedIsUnique(r.Order(), x, y);
    }
  }

  /** Filtering a sorted permutation twice leaves, in front, the least element that passes both tests. */
  lemma FirstOfTwoFilters<T(!new)>(lt: (T, T) -> bool, p: T -> bool, q: T -> bool, ranked: seq<T>, given: seq<T>)
    requires SortedBy(lt, ranked) && Separates(lt, given) && multiset(ranked) == multiset(given)
    ensures var choice := Filter(q, Filter(p, ranked));
            && (choice == [] <==> forall t :: t in given ==> !(p(t) && q(t)))
            && (choice != [] ==> choice[0] in given && p(choice[0]) && q(choice[0]))
            && (choice != [] ==> forall t :: t in given && p(t) && q(t) && t != choice[0] ==> lt(choice[0], t))
  {
    SameMembers(ranked, given);
    var order := Filter(p, ranked);
    var choice := Filter(q, order);
    FilterSorted(lt, p, ranked);
    FilterSorted(lt, q, order);
    forall t ensures t in choice <==> t in given && p(t) && q(t) {
      FilterMember(p, ranked, t);
      FilterMember(q, order, t);
    }
    if choice != [] {
      assert choice[0] in choice;
      assert Separates(lt, choice);
      forall t | t in choice && t != choice[0] ensures lt(choice[0], t) {
        HeadIsLeast(lt, choice, t);
      }
    }
  }

  /** The next ticket is the least eligible ticket of the active sprint, and there is none exactly when
      no ticket of the active sprint is eligible. */
  lemma NextIsLeast(tickets: seq<Ticket>, edges: seq<Dependency>, sprint: Option<string>)
    requires KeysParse(tickets) && UniqueKeys(tickets)
    ensures NextTicket(tickets, edges, sprint).Some?
    ensures var next := NextTicket(tickets, edges, sprint).value;
            var fits := (t: Ticket) => t in tickets && IsActive(sprint, t) && IsEligible(edges, ByKey(tickets), t);
            && (next.None? <==> forall t :: t in tickets ==> !fits(t))
            && (next.Some? ==> fits(next.value) && forall t :: t in tickets && fits(t) && t != next.value ==>
                                   RankingOf(tickets, edges, sprint).Ahead(next.value, t))
  {
    RankIsSortedPermutation(tickets, edges, sprint);
    var r := RankingOf(tickets, edges, sprint);
    var ranked := RankTickets(tickets, edges, sprint).value;
    var eligible := (t: Ticket) => IsEligible(edges, ByKey(tickets), t);
    var active := (t: Ticket) => IsActive(sprint, t);
    KeysSeparate(r, tickets);
    FirstOfTwoFilters(r.Order(), eligible, active, ranked, tickets);
    var choice := Filter(active, Filter(eligible, ranked));
    assert NextTicket(tickets, edges, sprint) == Some(if choice == [] then None else Some(choice[0]));
    assert forall x, y :: r.Order()(x, y) == r.Ahead(x, y);
  }

  // ---------- the order told on the tickets themselves ----------

  predicate IsMoreUrgent(a: Priority, b: Priority) {
    match a
    case Critical => b != Critical
    case High => b == Medium || b == Low
    case Medium => b == Low
    case Low => false
  }

  /** The ticket belongs to the sprint under way. */
  predicate InSprint(sprint: Option<string>, t: Ticket) {
    match sprint case None => false case Some(name) => t.sprint == Some(name)
  }

  /** Every ticket that blocks this one is there and done. */
  ghost predicate BlockersDone(tickets: seq<Ticket>, edges: seq<Dependency>, t: Ticket) {
    forall e :: e in edges && e.ticket == t.key && e.kind == "blocks" ==>
        exists b :: b in tickets && b.key == e.dependsOn && b.status == Done
  }

  /** Older, or of the same age with a smaller number. */
  predicate IsEarlier(a: Ticket, b: Ticket) {
    a.createdAt < b.createdAt || (a.createdAt == b.createdAt && Number(a) < Number(b))
  }

  lemma BlockersDoneIsSatisfied(tickets: seq<Ticket>, edges: seq<Dependency>, t: Ticket)
    requires UniqueKeys(tickets)
    ensures BlockersDone(tickets, edges, t) <==> DependenciesSatisfied(edges, ByKey(tickets), t.key)
  {
    forall key ensures IsDone(ByKey(tickets), key) <==> exists b :: b in tickets && b.key == key && b.status == Done {
      ByKeyHas(tickets, key);
      forall b | b in tickets && b.key == key && b.status == Done ensures IsDone(ByKey(tickets), key) {
        ByKeyFinds(tickets, b);
      }
    }
  }

  /** `a` may stand before `b`: the sprint under way first, then the more urgent, then those whose blockers are
      done, then the earlier. */
  ghost predicate MayPrecede(tickets: seq<Ticket>, edges: seq<Dependency>, sprint: Option<string>, a: Ticket, b: Ticket)
  {
    && (InSprint(sprint, b) ==> InSprint(sprint, a))
    && (InSprint(sprint, a) == InSprint(sprint, b) ==>
          && !IsMoreUrgent(b.priority, a.priority)
          && (a.priority == b.priority ==>
                && (BlockersDone(tickets, edges, b) ==> BlockersDone(tickets, edges, a))
                && (BlockersDone(tickets, edges, a) == BlockersDone(tickets, edges, b) ==> a == b || IsEarlier(a, b))))
  }

  lemma NotBehindMayPrecede(tickets: seq<Ticket>, edges: seq<Dependency>, sprint: Option<string>, a: Ticket, b: Ticket)
    requires KeysParse(tickets) && UniqueKeys(tickets) && a in tickets && b in tickets
    requires !RankingOf(tickets, edges, sprint).Ahead(b, a)
    ensures MayPrecede(tickets, edges, sprint, a, b)
  {
    BlockersDoneIsSatisfied(tickets, edges, a);
    BlockersDoneIsSatisfied(tickets, edges, b);
    if a != b && Number(a) == Number(b) {
      ParseInjective(a.key, b.key);
    }
    hide BlockersDone, DependenciesSatisfied, Number;
  }

  /** The ranking, told on the fields of any two tickets in it. */
  lemma RankingReads(tickets: seq<Ticket>, edges: seq<Dependency>, sprint: Option<string>, i: nat, j: nat)
    requires KeysParse(tickets) && UniqueKeys(tickets) && i < j < |tickets|
    ensures RankTickets(tickets, edges, sprint).Some? && |RankTickets(tickets, edges, sprint).value| == |tickets|
    ensures var ranked := RankTickets(tickets, edges, sprint).value;
            MayPrecede(tickets, edges, sprint, ranked[i], ranked[j])
  {
    RankIsSortedPermutation(tickets, edges, sprint);
    var ranked, r := RankTickets(tickets, edges, sprint).value, RankingOf(tickets, edges, sprint);
    SameMembers(ranked, tickets);
    assert ranked[i] in ranked && ranked[j] in ranked;
    assert !r.Order()(ranked[j], ranked[i]);
    NotBehindMayPrecede(tickets, edges, sprint, ranked[i], ranked[j]);
  }

  /** The ticket may be taken now: it is todo, in the sprint under way, and all its blockers are done. */
  ghost predicate MayBeTaken(tickets: seq<Ticket>, edges: seq<Dependency>, sprint: Option<string>, t: Ticket) {
    t in tickets && t.status == Todo && InSprint(sprint, t) && BlockersDone(tickets, edges, t)
  }

  /** The next ticket, told on fields: of those that may be taken, none is more urgent, and none as urgent is
      earlier; there is none exactly when none may be taken. */
  lemma NextReads(tickets: seq<Ticket>, edges: seq<Dependency>, sprint: Option<string>)
    requires KeysParse(tickets) && UniqueKeys(tickets)
    ensures NextTicket(tickets, edges, sprint).Some?
    ensures var next := NextTicket(tickets, edges, sprint).value;
            && (next.None? <==> forall t :: !MayBeTaken(tickets, edges, sprint, t))
            && (next.Some? ==>
                  && MayBeTaken(tickets, edges, sprint, next.value)
                  && forall t :: MayBeTaken(tickets, edges, sprint, t) && t != next.value ==>
                       || IsMoreUrgent(next.value.priority, t.priority)
                       || (next.value.priority == t.priority && IsEarlier(next.value, t)))
  {
    NextIsLeast(tickets, edges, sprint);
    AheadIsStrict(RankingOf(tickets, edges, sprint));
    var next := NextTicket(tickets, edges, sprint).value;
    forall t | t in tickets
      ensures MayBeTaken(tickets, edges, sprint, t) <==> IsActive(sprint, t) && IsEligible(edges, ByKey(tickets), t)
    {
      BlockersDoneIsSatisfied(tickets, edges, t);
    }
    hide NextTicket, BlockersDone, DependenciesSatisfied, Number, IsEarlier;
    if next.Some? {
      forall t | MayBeTaken(tickets, edges, sprint, t) && t != next.value
        ensures || IsMoreUrgent(next.value.priority, t.priority)
                || (next.value.priority == t.priority && IsEarlier(next.value, t))
      {
        assert RankingOf(tickets, edges, sprint).Ahead(next.value, t);
        assert !RankingOf(tickets, edges, sprint).Order()(t, next.value);
        NotBehindMayPrecede(tickets, edges, sprint, next.value, t);
      }
    }
  }

  /** The selection order holds exactly the todo tickets whose blockers are done. */
  lemma SelectionReads(tickets: seq<Ticket>, edges: seq<Dependency>, sprint: Option<string>, t: Ticket)
    requires KeysParse(tickets) && UniqueKeys(tickets)
    ensures SelectionOrder(tickets, edges, sprint).Some?
    ensures t in SelectionOrder(tickets, edges, sprint).value <==>
        t in tickets && t.status == Todo && BlockersDone(tickets, edges, t)
  {
    RankIsSortedPermutation(tickets, edges, sprint);
    SameMembers(RankTickets(tickets, edges, sprint).value, tickets);
    FilterMember(x => IsEligible(edges, ByKey(tickets), x), RankTickets(tickets, edges, sprint).value, t);
    BlockersDoneIsSatisfied(tickets, edges, t);
  }
}
