/** Time-limited leases on tickets (packages/domain/src/lease.ts). Instants are epoch milliseconds. */
module Leases {
  import opened Common
  import opened TicketKey
  import opened Sorting

  const DEFAULT_LEASE_TTL_MS: int := 900_000

  datatype HolderKind = Member | Runner

  datatype Holder = Holder(kind: HolderKind, id: string)

  datatype Lease = Lease(ticket: string, holder: Holder, branch: string, worktree: string, acquiredAt: int,
                         heartbeatAt: int, expiresAt: int, ttlMs: int, released: bool)

  datatype LeaseRequest = LeaseRequest(ticket: string, holder: Holder, branch: string, worktree: string,
                                       ttlMs: Option<int>)

  datatype LeaseError = InvalidLeaseTicket | InvalidLease(field: string) | AlreadyHeld(lease: Lease)
                      | NotHeldBy(lease: Lease) | LeaseExpired(lease: Lease)

  predicate IsActive(l: Lease, now: int) { !l.released && now < l.expiresAt }

  /** First active lease on a ticket. */
  function ActiveLeaseFor(leases: seq<Lease>, ticket: string, now: int): Option<Lease> {
    if leases == [] then None
    else if leases[0].ticket == ticket && IsActive(leases[0], now) then Some(leases[0])
    else ActiveLeaseFor(leases[1..], ticket, now)
  }

  lemma {:induction false} ActiveLeaseMeaning(leases: seq<Lease>, ticket: string, now: int)
    ensures var found := ActiveLeaseFor(leases, ticket, now);
            && (found.Some? ==> found.value in leases && found.value.ticket == ticket && IsActive(found.value, now))
            && (found.None? ==> forall l :: l in leases && l.ticket == ticket ==> !IsActive(l, now))
  {
    if leases != [] {
      ActiveLeaseMeaning(leases[1..], ticket, now);
      assert leases == [leases[0]] + leases[1..];
    }
  }

  function Ttl(r: LeaseRequest): int { if r.ttlMs.Some? then r.ttlMs.value else DEFAULT_LEASE_TTL_MS }

  function RequestFault(r: LeaseRequest): Option<LeaseError> {
    if ParseTicketKey(r.ticket).None? then Some(InvalidLeaseTicket)
    else if !IsText(r.holder.id) then Some(InvalidLease("holder"))
    else if !IsText(r.branch) then Some(InvalidLease("branch"))
    else if !IsText(r.worktree) then Some(InvalidLease("worktree"))
    else if !(0 < Ttl(r) <= MAX_SAFE_INTEGER) then Some(InvalidLease("ttl"))
    else None
  }

  function AcquireLease(leases: seq<Lease>, r: LeaseRequest, now: int): Result<Lease, LeaseError> {
    if RequestFault(r).Some? then Err(RequestFault(r).value)
    else
      var active := ActiveLeaseFor(leases, r.ticket, now);
      if active.Some? then Err(AlreadyHeld(active.value))
      else Ok(Lease(r.ticket, r.holder, r.branch, r.worktree, now, now, now + Ttl(r), Ttl(r), false))
  }

  /** A sound request is granted exactly when no lease on the ticket is active, is active for exactly its
      duration, and is otherwise refused with the active lease that stands in the way. */
  lemma AcquireMeaning(leases: seq<Lease>, r: LeaseRequest, now: int, t: int)
    requires RequestFault(r).None?
    ensures AcquireLease(leases, r, now).Ok? <==> forall l :: l in leases && l.ticket == r.ticket ==> !IsActive(l, now)
    ensures AcquireLease(leases, r, now).Ok? ==>
        var l := AcquireLease(leases, r, now).value;
        l.ticket == r.ticket && l.holder == r.holder && IsActive(l, now) && (IsActive(l, t) <==> t < now + Ttl(r))
    ensures AcquireLease(leases, r, now).Err? ==>
        var e := AcquireLease(leases, r, now).error;
        e.AlreadyHeld? && e.lease in leases && e.lease.ticket == r.ticket && IsActive(e.lease, now)
  {
    ActiveLeaseMeaning(leases, r.ticket, now);
  }

  /** A request is refused, before any lease is looked at, exactly for a bad key, a blank text or a duration that
      is not a positive safe integer, and for the first of these; without a duration a lease lasts a quarter of an
      hour. What is granted is what was asked for. */
  lemma RequestReads(leases: seq<Lease>, r: LeaseRequest, now: int)
    ensures RequestFault(r).None? <==>
        && ParseTicketKey(r.ticket).Some? && IsText(r.holder.id) && IsText(r.branch) && IsText(r.worktree)
        && (r.ttlMs.Some? ==> 1 <= r.ttlMs.value <= MAX_SAFE_INTEGER)
    ensures RequestFault(r).Some? ==> AcquireLease(leases, r, now) == Err(
        if ParseTicketKey(r.ticket).None? then InvalidLeaseTicket
        else InvalidLease(if !IsText(r.holder.id) then "holder" else if !IsText(r.branch) then "branch"
                          else if !IsText(r.worktree) then "worktree" else "ttl"))
    ensures AcquireLease(leases, r, now).Ok? ==>
        var l, ms := AcquireLease(leases, r, now).value, if r.ttlMs.Some? then r.ttlMs.value else 15 * 60 * 1000;
        && l.ticket == r.ticket && l.holder == r.holder && l.branch == r.branch && l.worktree == r.worktree
        && l.acquiredAt == now && l.heartbeatAt == now && l.expiresAt == now + ms && l.ttlMs == ms && !l.released
  {
    hide IsText, ParseTicketKey, ActiveLeaseFor;
  }

  function Heartbeat(l: Lease, h: Holder, now: int): Result<Lease, LeaseError> {
    if l.holder != h then Err(NotHeldBy(l))
    else if !IsActive(l, now) then Err(LeaseExpired(l))
    else Ok(l.(heartbeatAt := now, expiresAt := now + l.ttlMs))
  }

  function Release(l: Lease, h: Holder): Result<Lease, LeaseError> {
    if l.holder != h then Err(NotHeldBy(l)) else Ok(l.(released := true))
  }

  /** Splits a list into active and inactive leases, each in the original order. */
  method ReleaseExpired(leases: seq<Lease>, now: int) returns (active: seq<Lease>, expired: seq<Lease>)
    ensures active == Filter(l => IsActive(l, now), leases)
    ensures expired == Filter(l => !IsActive(l, now), leases)
    ensures multiset(active) + multiset(expired) == multiset(leases)
  {
    ghost var keep, drop := (l: Lease) => IsActive(l, now), (l: Lease) => !IsActive(l, now);
    active, expired := [], [];
    for i := 0 to |leases|
      invariant active == Filter(keep, leases[..i]) && expired == Filter(drop, leases[..i])
    {
      FilterAppend(keep, leases[..i], leases[i]);
      FilterAppend(drop, leases[..i], leases[i]);
      assert leases[..i + 1] == leases[..i] + [leases[i]];
      if IsActive(leases[i], now) {
        active := active + [leases[i]];
      } else {
        expired := expired + [leases[i]];
      }
    }
    assert leases[..|leases|] == leases;
    FilterSplits(keep, drop, leases);
  }

  // ---------- runs under a clock ----------

  /** All leases, and the present instant. */
  datatype Desk = Desk(leases: seq<Lease>, now: int)

  datatype Move = Acquire(request: LeaseRequest) | Beat(i: nat, holder: Holder) | Free(i: nat, holder: Holder)
                | Purge | Tick(ms: nat)

  /** One move; a refused one changes nothing. A renewed or released lease takes the place of the old one. */
  function Apply(d: Desk, m: Move): Desk {
    match m
    case Acquire(r) =>
      var l := AcquireLease(d.leases, r, d.now);
      if l.Ok? then d.(leases := d.leases + [l.value]) else d
    case Beat(i, h) =>
      if i < |d.leases| && Heartbeat(d.leases[i], h, d.now).Ok?
      then d.(leases := d.leases[i := Heartbeat(d.leases[i], h, d.now).value]) else d
    case Free(i, h) =>
      if i < |d.leases| && Release(d.leases[i], h).Ok?
      then d.(leases := d.leases[i := Release(d.leases[i], h).value]) else d
    case Purge => d.(leases := Filter(l => IsActive(l, d.now), d.leases))
    case Tick(ms) => d.(now := d.now + ms)
  }

  function Moves(now: int, ms: seq<Move>): Desk {
    if ms == [] then Desk([], now) else Apply(Moves(now, ms[..|ms| - 1]), ms[|ms| - 1])
  }

  predicate Conflicting(a: Lease, b: Lease, now: int) {
    a.ticket == b.ticket && IsActive(a, now) && IsActive(b, now)
  }

  /** At most one active lease per ticket. */
  ghost predicate Exclusive(d: Desk) {
    forall i, j :: 0 <= i < j < |d.leases| ==> !Conflicting(d.leases[i], d.leases[j], d.now)
  }

  ghost predicate Dated(d: Desk) {
    forall l :: l in d.leases ==> l.ttlMs > 0 && l.heartbeatAt <= d.now && l.expiresAt == l.heartbeatAt + l.ttlMs
  }

  lemma {:induction false} FilterKeepsExclusive(leases: seq<Lease>, keep: Lease -> bool, now: int)
    requires Exclusive(Desk(leases, now))
    ensures Exclusive(Desk(Filter(keep, leases), now))
  {
    if leases != [] {
      var rest := leases[1..];
      FilterKeepsExclusive(rest, keep, now);
      var r, tail := Filter(keep, leases), Filter(keep, rest);
      forall i, j | 0 <= i < j < |r| ensures !Conflicting(r[i], r[j], now) {
        if keep(leases[0]) && i == 0 {
          var x := tail[j - 1];
          FilterMember(keep, rest, x);
          var k :| 0 <= k < |rest| && rest[k] == x;
          assert !Conflicting(leases[0], leases[k + 1], now);
        }
      }
    }
  }

  lemma MoveKeepsExclusive(d: Desk, m: Move)
    requires Exclusive(d) && Dated(d)
    ensures Exclusive(Apply(d, m)) && Dated(Apply(d, m))
  {
    match m
    case Acquire(r) =>
      ActiveLeaseMeaning(d.leases, r.ticket, d.now);
    case Purge =>
      FilterKeepsExclusive(d.leases, l => IsActive(l, d.now), d.now);
      forall l | l in Filter(l => IsActive(l, d.now), d.leases) ensures l in d.leases {
        FilterMember(l => IsActive(l, d.now), d.leases, l);
      }
    case _ =>
  }

  /** Under a clock that never goes back, no run of acquisitions, heartbeats, releases and purges ever
      leaves two active leases on one ticket. */
  lemma {:induction false} NeverTwoActiveLeases(now: int, ms: seq<Move>)
    ensures Exclusive(Moves(now, ms)) && Dated(Moves(now, ms))
  {
    if ms != [] {
      NeverTwoActiveLeases(now, ms[..|ms| - 1]);
      MoveKeepsExclusive(Moves(now, ms[..|ms| - 1]), ms[|ms| - 1]);
    }
  }

  /** In every run a heartbeat neither revives a lease nor shortens it, and gives it its full duration from then
      on; who is not its holder is told so first. */
  lemma HeartbeatOnlyExtends(now: int, ms: seq<Move>, i: nat, h: Holder, t: int)
    requires i < |Moves(now, ms).leases|
    ensures var d := Moves(now, ms);
            var l, r := d.leases[i], Heartbeat(d.leases[i], h, d.now);
            && (r.Ok? <==> l.holder == h && IsActive(l, d.now))
            && (r.Ok? ==> r.value.expiresAt >= l.expiresAt && r.value.expiresAt > d.now && r.value.ticket == l.ticket)
            && (r.Ok? ==> (IsActive(r.value, t) <==> t < d.now + l.ttlMs) && r.value.heartbeatAt == d.now
                          && r.value.(heartbeatAt := l.heartbeatAt, expiresAt := l.expiresAt) == l)
            && (r.Err? ==> r.error == if l.holder != h then NotHeldBy(l) else LeaseExpired(l))
  {
    NeverTwoActiveLeases(now, ms);
    assert Moves(now, ms).leases[i] in Moves(now, ms).leases;
  }

  lemma {:induction false} ActiveLeaseLast(leases: seq<Lease>, l: Lease, now: int)
    requires IsActive(l, now) && forall k :: k in leases && k.ticket == l.ticket ==> !IsActive(k, now)
    ensures ActiveLeaseFor(leases + [l], l.ticket, now) == Some(l)
  {
    if leases != [] {
      assert (leases + [l])[1..] == leases[1..] + [l];
      ActiveLeaseLast(leases[1..], l, now);
    }
  }

  /** Time that has passed in a run. */
  function Elapsed(ms: seq<Move>): nat {
    if ms == [] then 0
    else Elapsed(ms[..|ms| - 1]) + match ms[|ms| - 1] case Tick(t) => t case _ => 0
  }

  lemma {:induction false} ClockIs(now: int, ms: seq<Move>)
    ensures Moves(now, ms).now == now + Elapsed(ms)
  {
    if ms != [] {
      ClockIs(now, ms[..|ms| - 1]);
    }
  }

  /** A lease that was granted is the active one on its ticket from then on, so that the same request made again
      is refused because of it. */
  lemma GrantedIsHeld(now: int, ms: seq<Move>, r: LeaseRequest, again: LeaseRequest)
    requires AcquireLease(Moves(now, ms).leases, r, now + Elapsed(ms)).Ok?
    requires RequestFault(again).None? && again.ticket == r.ticket
    ensures var lease := AcquireLease(Moves(now, ms).leases, r, now + Elapsed(ms)).value;
            AcquireLease(Moves(now, ms + [Acquire(r)]).leases, again, now + Elapsed(ms)) == Err(AlreadyHeld(lease))
  {
    var d := Moves(now, ms);
    ClockIs(now, ms);
    assert (ms + [Acquire(r)])[..|ms|] == ms;
    var lease := AcquireLease(d.leases, r, d.now).value;
    ActiveLeaseMeaning(d.leases, r.ticket, d.now);
    ActiveLeaseLast(d.leases, lease, d.now);
  }

  /** The lease has just been released by its holder. */
  ghost predicate IsReleaseOf(d: Desk, m: Move, l: Lease) {
    m.Free? && m.i < |d.leases| && d.leases[m.i] == l && m.holder == l.holder
  }

  /** The ticket is still held, for no shorter time, by the holder of this lease. */
  ghost predicate StillHeld(d: Desk, l: Lease) {
    exists k :: k in d.leases && k.ticket == l.ticket && k.holder == l.holder && k.branch == l.branch
                && IsActive(k, d.now) && k.expiresAt >= l.expiresAt
  }

  ghost predicate Ended(l: Lease) { forall t :: !IsActive(l, t) }

  /** In every run a lease ends by expiry or by a release of its own holder, and by nothing else; a released
      lease is never active again. */
  lemma OnlyHolderReleases(now: int, ms: seq<Move>, m: Move, i: nat)
    requires i < |Moves(now, ms).leases| && IsActive(Moves(now, ms).leases[i], Apply(Moves(now, ms), m).now)
    ensures var d := Moves(now, ms);
            || StillHeld(Apply(d, m), d.leases[i])
            || IsReleaseOf(d, m, d.leases[i])
    ensures var l := Moves(now, ms).leases[i];
            forall h :: if l.holder == h then Release(l, h).Ok? && Ended(Release(l, h).value) else Release(l, h).Err?
  {
    var d, d' := Moves(now, ms), Apply(Moves(now, ms), m);
    var l := d.leases[i];
    NeverTwoActiveLeases(now, ms);
    assert l in d.leases;
    match m
    case Beat(k, h) =>
      if k == i && d' != d {
        assert d'.leases[i] in d'.leases;
      } else {
        assert d'.leases[i] == l && l in d'.leases;
      }
    case Free(k, h) =>
      if d' == d || k != i {
        assert d'.leases[i] == l && l in d'.leases;
      }
    case Purge =>
      FilterMember(l => IsActive(l, d.now), d.leases, l);
    case _ =>
      assert d'.leases[i] == l && l in d'.leases;
  }
}
