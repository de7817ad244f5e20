/** Short exclusive locks, one per holder (packages/domain/src/lock.ts). */
module Locks {
  import opened Common
  import Leases

  type Holder = Leases.Holder

  datatype LockKind = MergeLock | SpecWrite

  datatype Target = Target(kind: LockKind, scope: string)

  datatype Lock = Lock(target: Target, holder: Holder, acquiredAt: int, expiresAt: int)

  datatype LockRequest = LockRequest(target: Target, holder: Holder, ttlMs: int)

  datatype LockError = InvalidHolder | LockAlreadyHeld(lock: Lock) | NestedLock(owned: Lock) | LockNotHeldBy

  predicate IsLockActive(l: Lock, now: int) { now < l.expiresAt }

  /** Index of the first lock that satisfies a test. */
  function FirstIndex(held: seq<Lock>, test: Lock -> bool): (r: Option<nat>)
    ensures r.Some? ==> r.value < |held| && test(held[r.value]) && forall i :: 0 <= i < r.value ==> !test(held[i])
    ensures r.None? ==> forall i :: 0 <= i < |held| ==> !test(held[i])
  {
    if held == [] then None
    else if test(held[0]) then Some(0)
    else
      var rest := FirstIndex(held[1..], test);
      if rest.Some? then Some(rest.value + 1) else None
  }

  /** A holder never holds two locks; a conflict is reported before a nesting. */
  function AcquireLock(held: seq<Lock>, r: LockRequest, now: int): Result<Lock, LockError> {
    if !IsText(r.holder.id) then Err(InvalidHolder)
    else
      var owned := FirstIndex(held, l => IsLockActive(l, now) && l.holder == r.holder);
      var conflict := FirstIndex(held, l => IsLockActive(l, now) && l.target == r.target);
      if conflict.Some? && owned.None? then Err(LockAlreadyHeld(held[conflict.value]))
      else if owned.Some? then Err(NestedLock(held[owned.value]))
      else Ok(Lock(r.target, r.holder, now, now + r.ttlMs))
  }

  /** A lock is granted exactly when its target is free and its holder holds nothing, and is active for
      exactly its duration: never, when that is not positive. A holder that already holds a lock is told so
      even when the target is taken as well. */
  lemma AcquireMeaning(held: seq<Lock>, r: LockRequest, now: int, t: int)
    requires IsText(r.holder.id)
    ensures AcquireLock(held, r, now).Ok? <==>
        forall l :: l in held && IsLockActive(l, now) ==> l.target != r.target && l.holder != r.holder
    ensures AcquireLock(held, r, now).Ok? ==>
        var l := AcquireLock(held, r, now).value;
        && l.target == r.target && l.holder == r.holder && l.acquiredAt == now
        && (IsLockActive(l, t) <==> t < now + r.ttlMs)
        && (IsLockActive(l, now) <==> r.ttlMs > 0)
    ensures AcquireLock(held, r, now).Err? ==>
        var e := AcquireLock(held, r, now).error;
        if exists l :: l in held && IsLockActive(l, now) && l.holder == r.holder
        then e.NestedLock? && e.owned in held && IsLockActive(e.owned, now) && e.owned.holder == r.holder
        else e.LockAlreadyHeld? && e.lock in held && IsLockActive(e.lock, now) && e.lock.target == r.target
  {
  }

  predicate Matches(l: Lock, t: Target, h: Holder) { l.target == t && l.holder == h }

  /** Drops the first entry of this target and holder, active or not. */
  function ReleaseLock(held: seq<Lock>, t: Target, h: Holder): Result<seq<Lock>, LockError> {
    var found := FirstIndex(held, l => Matches(l, t, h));
    if found.None? then Err(LockNotHeldBy) else Ok(held[..found.value] + held[found.value + 1..])
  }

  /** A release drops one entry, the first of this target and holder, and keeps all others in order; it is
      refused exactly when there is none. */
  lemma ReleaseDropsOne(held: seq<Lock>, t: Target, h: Holder)
    ensures ReleaseLock(held, t, h).Err? <==> forall l :: l in held ==> l.target != t || l.holder != h
    ensures ReleaseLock(held, t, h).Ok? ==>
        exists k :: && 0 <= k < |held| && held[k].target == t && held[k].holder == h
                    && (forall i :: 0 <= i < k ==> held[i].target != t || held[i].holder != h)
                    && ReleaseLock(held, t, h).value == held[..k] + held[k + 1..]
  {
    var found := FirstIndex(held, l => Matches(l, t, h));
    if found.Some? {
      assert Matches(held[found.value], t, h);
      assert forall i :: 0 <= i < found.value ==> !Matches(held[i], t, h);
    } else {
      forall l | l in held ensures l.target != t || l.holder != h {
        var i :| 0 <= i < |held| && held[i] == l;
        assert !Matches(held[i], t, h);
      }
    }
  }

  // ---------- runs under a clock ----------

  /** All locks, the present instant, and what each refused holder is waiting for. */
  datatype Hall = Hall(locks: seq<Lock>, now: int, waiting: map<Holder, Target>)

  datatype Move =
    | Acquire(request: LockRequest)
    | Release(target: Target, holder: Holder)
    | GiveUp(holder: Holder)
    | Tick(ms: nat)

  function Apply(s: Hall, m: Move): Hall {
    match m
    case Acquire(r) =>
      (match AcquireLock(s.locks, r, s.now)
       case Ok(lock) => s.(locks := s.locks + [lock], waiting := s.waiting - {r.holder})
       case Err(LockAlreadyHeld(_)) => s.(waiting := s.waiting[r.holder := r.target])
       case Err(_) => s)
    case Release(t, h) =>
      var r := ReleaseLock(s.locks, t, h);
      if r.Ok? then s.(locks := r.value) else s
    case GiveUp(h) => s.(waiting := s.waiting - {h})
    case Tick(ms) => s.(now := s.now + ms)
  }

  function Moves(now: int, ms: seq<Move>): Hall {
    if ms == [] then Hall([], now, map[]) else Apply(Moves(now, ms[..|ms| - 1]), ms[|ms| - 1])
  }

  predicate Clash(a: Lock, b: Lock, now: int) {
    IsLockActive(a, now) && IsLockActive(b, now) && (a.target == b.target || a.holder == b.holder)
  }

  /** One active lock per target, one per holder, and none for a holder that was refused and waits. */
  ghost predicate Orderly(s: Hall) {
    && (forall i, j :: 0 <= i < j < |s.locks| ==> !Clash(s.locks[i], s.locks[j], s.now))
    && (forall i :: 0 <= i < |s.locks| && IsLockActive(s.locks[i], s.now) ==> s.locks[i].holder !in s.waiting)
  }

  lemma RemoveKeepsOrder(s: Hall, k: nat)
    requires Orderly(s) && k < |s.locks|
    ensures Orderly(s.(locks := s.locks[..k] + s.locks[k + 1..]))
  {
  }

  lemma MoveKeepsOrder(s: Hall, m: Move)
    requires Orderly(s)
    ensures Orderly(Apply(s, m))
  {
    if m.Release? && ReleaseLock(s.locks, m.target, m.holder).Ok? {
      RemoveKeepsOrder(s, FirstIndex(s.locks, l => Matches(l, m.target, m.holder)).value);
    }
  }

  /** Under a clock that never goes back, no run yields two active locks on one target or with one
      holder, and whoever was refused holds nothing. */
  lemma {:induction false} AlwaysOrderly(now: int, ms: seq<Move>)
    ensures Orderly(Moves(now, ms))
  {
    if ms != [] {
      AlwaysOrderly(now, ms[..|ms| - 1]);
      MoveKeepsOrder(Moves(now, ms[..|ms| - 1]), ms[|ms| - 1]);
    }
  }

  ghost predicate StillHeld(locks: seq<Lock>, now: int, t: Target, h: Holder) {
    exists i :: 0 <= i < |locks| && Matches(locks[i], t, h) && IsLockActive(locks[i], now)
  }

  /** `a` waits for a target on which `b` has an active lock. */
  ghost predicate WaitsFor(s: Hall, a: Holder, b: Holder) {
    a in s.waiting && StillHeld(s.locks, s.now, s.waiting[a], b)
  }

  ghost predicate IsRefusedNow(s: Hall, m: Move, h: Holder) {
    && m.Acquire? && m.request.holder == h
    && match AcquireLock(s.locks, m.request, s.now)
       case Err(LockAlreadyHeld(_)) => true
       case _ => false
  }

  ghost predicate IsGrantedNow(s: Hall, m: Move, h: Holder) {
    m.Acquire? && m.request.holder == h && AcquireLock(s.locks, m.request, s.now).Ok?
  }

  /** A holder that is refused a target waits for whoever has it, until it gives up or is granted a lock; a lock
      that is granted is held from then on. */
  lemma RefusedHolderWaits(s: Hall, m: Move, h: Holder)
    ensures var s' := Apply(s, m);
            && (IsRefusedNow(s, m, h) ==>
                  && h in s'.waiting && s'.waiting[h] == m.request.target
                  && WaitsFor(s', h, AcquireLock(s.locks, m.request, s.now).error.lock.holder))
            && (IsGrantedNow(s, m, h) ==>
                  h !in s'.waiting && (m.request.ttlMs > 0 ==> StillHeld(s'.locks, s'.now, m.request.target, h)))
            && (m == GiveUp(h) ==> h !in s'.waiting)
            && (!IsRefusedNow(s, m, h) && !IsGrantedNow(s, m, h) && m != GiveUp(h) ==>
                  && (h in s'.waiting <==> h in s.waiting) && (h in s.waiting ==> s'.waiting[h] == s.waiting[h]))
  {
    var s' := Apply(s, m);
    if IsRefusedNow(s, m, h) {
      var l := AcquireLock(s.locks, m.request, s.now).error.lock;
      AcquireMeaning(s.locks, m.request, s.now, s.now);
      var i :| 0 <= i < |s.locks| && s.locks[i] == l;
      assert Matches(s'.locks[i], m.request.target, l.holder) && IsLockActive(s'.locks[i], s'.now);
    }
    if IsGrantedNow(s, m, h) {
      assert Matches(s'.locks[|s.locks|], m.request.target, h);
    }
  }

  ghost predicate WaitCycle(s: Hall, p: seq<Holder>) {
    |p| >= 2 && p[0] == p[|p| - 1] && forall i, j :: 0 <= i && j == i + 1 && j < |p| ==> WaitsFor(s, p[i], p[j])
  }

  /** Waits never form a cycle, in any run: there is no deadlock among lock holders. */
  lemma NoWaitCycle(now: int, ms: seq<Move>, p: seq<Holder>)
    ensures !WaitCycle(Moves(now, ms), p)
  {
    var s := Moves(now, ms);
    if WaitCycle(s, p) {
      assert WaitsFor(s, p[0], p[1]);
      assert p[1] in s.waiting by {
        assert |p| > 2 ==> WaitsFor(s, p[1], p[2]);
      }
      AlwaysOrderly(now, ms);
      assert false;
    }
  }

  /** Releasing an active lock frees its target exactly when no expired entry of the same target and
      holder stands before it in the list. */
  lemma ReleaseFreesWhen(s: Hall, k: nat)
    requires Orderly(s) && k < |s.locks| && IsLockActive(s.locks[k], s.now)
    ensures var t, h := s.locks[k].target, s.locks[k].holder;
            && ReleaseLock(s.locks, t, h).Ok?
            && (!StillHeld(ReleaseLock(s.locks, t, h).value, s.now, t, h)
                <==> forall i :: 0 <= i < k ==> !Matches(s.locks[i], t, h))
  {
    var t, h := s.locks[k].target, s.locks[k].holder;
    assert Matches(s.locks[k], t, h);
    var f := FirstIndex(s.locks, l => Matches(l, t, h)).value;
    var rest := s.locks[..f] + s.locks[f + 1..];
    assert forall i :: 0 <= i < |rest| ==> rest[i] == s.locks[if i < f then i else i + 1];
    if f < k {
      assert rest[k - 1] == s.locks[k];
      assert StillHeld(rest, s.now, t, h);
    } else {
      forall i | 0 <= i < |rest| ensures !(Matches(rest[i], t, h) && IsLockActive(rest[i], s.now)) {
        if i >= f {
          assert !Clash(s.locks[k], s.locks[i + 1], s.now);
        }
      }
    }
  }

  /** A holder that lets a lock expire, takes it again and releases it, still holds it: the release
      drops the expired entry. */
  lemma ExpiredEntryShadowsRelease(h: Holder, t: Target)
    requires IsText(h.id)
    ensures var take := Acquire(LockRequest(t, h, 10));
            var s := Moves(0, [take, Tick(20), take, Release(t, h)]);
            |s.locks| == 1 && StillHeld(s.locks, s.now, t, h)
  {
    var take := Acquire(LockRequest(t, h, 10));
    var a := Apply(Hall([], 0, map[]), take);
    var first, second := Lock(t, h, 0, 10), Lock(t, h, 20, 30);
    assert a.locks == [first];
    var b := Apply(a, Tick(20));
    assert b.now == 20 && b.locks == [first];
    var c := Apply(b, take);
    assert c.locks == [first, second];
    var d := Apply(c, Release(t, h));
    assert d.locks == [second] && Matches(d.locks[0], t, h) && IsLockActive(d.locks[0], d.now);
    var ms := [take, Tick(20), take, Release(t, h)];
    assert ms[..3] == [take, Tick(20), take] && ms[..3][..2] == [take, Tick(20)] && ms[..3][..2][..1] == [take];
    assert Moves(0, [take]) == a by { assert [take][..0] == []; }
    assert Moves(0, [take, Tick(20)]) == b;
    assert Moves(0, [take, Tick(20), take]) == c;
    assert Moves(0, ms) == d;
  }
}
