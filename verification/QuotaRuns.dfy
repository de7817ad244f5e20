/** Whole runs of the shared quota state: any interleaving of hits, usages and resets. */
module QuotaRuns {
  import opened Common
  import opened QuotaState
  import opened QuotaBackoff
  import opened QuotaUsage

  datatype Event =
    | Hit(signal: Signal, now: int, jitter: real, backoff: BackoffPolicy, expected: Option<nat>)
    | Use(usage: Usage, now: int, expected: Option<nat>)
    | Clear(expected: Option<nat>)

  /** A refused call leaves the state as it was. */
  function Step(st: State, e: Event, p: UsagePolicy): State {
    var r := match e
      case Hit(signal, now, jitter, backoff, expected) => OnQuotaHit(st, signal, now, jitter, backoff, expected)
      case Use(usage, now, expected) => RecordUsage(st, usage, now, p, expected)
      case Clear(expected) => ClearQuota(st, expected);
    if r.Ok? then r.value else st
  }

  /** A usage that was counted, and when. */
  datatype Receipt = Receipt(usage: Usage, at: int)

  /** State, receipts of all counted usages, and the latest instant seen. */
  datatype World = World(st: State, log: seq<Receipt>, clock: int)

  const BEGINNING := World(START, [], 0)

  predicate IsCounted(st: State, e: Event, p: UsagePolicy) {
    e.Use? && Counted(st, e.usage, e.now, p, e.expected)
  }

  function Advance(w: World, e: Event, p: UsagePolicy): World {
    World(Step(w.st, e, p),
          if IsCounted(w.st, e, p) then w.log + [Receipt(e.usage, e.now)] else w.log,
          if e.Clear? then w.clock else Max(w.clock, e.now))
  }

  function After(events: seq<Event>, p: UsagePolicy): World {
    if events == [] then BEGINNING else Advance(After(events[..|events| - 1], p), events[|events| - 1], p)
  }

  /** No event is stamped before an earlier one. */
  ghost predicate ClockNeverGoesBack(events: seq<Event>, p: UsagePolicy) {
    forall i :: 0 <= i < |events| && !events[i].Clear? ==> After(events[..i], p).clock <= events[i].now
  }

  lemma {:induction false} PrefixClock(events: seq<Event>, p: UsagePolicy)
    requires events != [] && ClockNeverGoesBack(events, p)
    ensures ClockNeverGoesBack(events[..|events| - 1], p)
    ensures !events[|events| - 1].Clear? ==> After(events[..|events| - 1], p).clock <= events[|events| - 1].now
  {
    var front := events[..|events| - 1];
    forall i | 0 <= i < |front| && !front[i].Clear? ensures After(front[..i], p).clock <= front[i].now {
      assert front[..i] == events[..i] && front[i] == events[i];
    }
  }

  // ---------- backoff over whole runs ----------

  /** In every reachable state a resume date is set exactly in backoff, strictly after the last hit and
      at most a day later, whatever the clocks of the events. */
  lemma {:induction false} AlwaysSane(events: seq<Event>, p: UsagePolicy)
    ensures Sane(After(events, p).st)
  {
    if events != [] {
      var w, e := After(events[..|events| - 1], p), events[|events| - 1];
      AlwaysSane(events[..|events| - 1], p);
      if e.Hit? && OnQuotaHit(w.st, e.signal, e.now, e.jitter, e.backoff, e.expected).Ok? {
        HitKeepsSane(w.st, e.signal, e.now, e.jitter, e.backoff, e.expected);
      }
    }
  }

  /** Exhaustion is entered by a strong signal only, and left by a reset only. */
  lemma ExhaustionIsSticky(st: State, e: Event, p: UsagePolicy)
    requires Sane(st)
    ensures st.status == Exhausted && !e.Clear? ==> Step(st, e, p).status == Exhausted
    ensures st.status != Exhausted && Step(st, e, p).status == Exhausted ==> e.Hit? && e.signal.strength == Strong
    ensures e.Clear? && AssertFresh(st.version, e.expected).None? ==> Step(st, e, p).status == Ready
  {
    hide WithJitter, FallbackDelay, ProviderDelay, Added;
    if e.Hit? && st.status != Exhausted && OnQuotaHit(st, e.signal, e.now, e.jitter, e.backoff, e.expected).Ok? {
      WhenExhausted(st, e.signal, e.now, e.jitter, e.backoff, e.expected);
    }
  }

  /** The id of the last delivery that changed the state. */
  function LastRecorded(events: seq<Event>, p: UsagePolicy): Option<string> {
    if events == [] then None
    else
      var front, last := events[..|events| - 1], events[|events| - 1];
      var st := After(front, p).st;
      if last.Hit? && Step(st, last, p) != st then last.signal.id else LastRecorded(front, p)
  }

  lemma {:induction false} LastRecordedIsKept(events: seq<Event>, p: UsagePolicy)
    ensures After(events, p).st.lastSignalId == LastRecorded(events, p)
  {
    if events != [] {
      hide WithJitter, FallbackDelay, ProviderDelay, Added;
      LastRecordedIsKept(events[..|events| - 1], p);
    }
  }

  /** At any point of any run, a signal is ignored for good exactly when no other signal was recorded since
      it was, or the state is exhausted, or every delivery is refused. */
  lemma ReplayInRun(events: seq<Event>, p: UsagePolicy, signal: Signal, now: int, q: BackoffPolicy)
    requires signal.id.Some? && ValidSignal(signal) && IsInstant(now) && ValidPolicy(q)
    ensures var st := After(events, p).st;
            NeverCounts(st, signal, now, q) <==>
              || LastRecorded(events, p) == signal.id || st.status == Exhausted
              || !ValidState(st) || ProviderDelay(signal, now, q).Err?
  {
    hide ProviderDelay, NeverCounts, ValidState, ValidSignal;
    AlwaysSane(events, p);
    LastRecordedIsKept(events, p);
    ReplayIsNoop(After(events, p).st, signal, now, q);
  }

  // ---------- the steps of the backoff over whole runs ----------

  /** A hit that is a new step: accepted, not recognised, and outside a burst. */
  predicate IsNewStep(st: State, e: Event) {
    && e.Hit? && OnQuotaHit(st, e.signal, e.now, e.jitter, e.backoff, e.expected).Ok?
    && !IsRecognised(st, e.signal) && !InBurst(st, e.now)
  }

  /** A human reset that is not stale, or a counted usage at or after the resume date. */
  predicate Resets(st: State, e: Event, p: UsagePolicy) {
    || (e.Clear? && AssertFresh(st.version, e.expected).None?)
    || (IsCounted(st, e, p) && Recovered(st, e.now))
  }

  /** Number of strong steps since the last reset. */
  function StrongSinceReset(events: seq<Event>, p: UsagePolicy): nat {
    if events == [] then 0
    else
      var front, last := events[..|events| - 1], events[|events| - 1];
      var st := After(front, p).st;
      if Resets(st, last, p) then 0
      else StrongSinceReset(front, p) + if IsNewStep(st, last) && last.signal.strength == Strong then 1 else 0
  }

  ghost predicate OneCap(events: seq<Event>, cap: nat) {
    forall e :: e in events && e.Hit? ==> e.backoff.maxConsecutiveHits == cap
  }

  /** A reset that is not stale frees any state: starts are allowed at once, as far as backoff goes, and only
      the backoff is forgotten. A state that was free is left as it is; any other change raises the version. */
  lemma ClearFrees(st: State, expected: Option<nat>, t: int, s: Scope)
    requires Sane(st) && AssertFresh(st.version, expected).None?
    ensures ClearQuota(st, expected).Ok?
    ensures var after := ClearQuota(st, expected).value;
            && after.status == Ready && after.consecutiveHits == 0 && after.resumeAt.None?
            && CanStart(after, t, s, None)
            && after.windows == st.windows && after.usageIds == st.usageIds
            && after.lastSignalId == st.lastSignalId && after.lastHitAt == st.lastHitAt
            && after.version == st.version + if st.status == Ready && st.consecutiveHits == 0 then 0 else 1
  {
  }

  /** A counted usage ends a backoff exactly at or after its resume date; otherwise it leaves the backoff, and
      exhaustion, as they are. */
  lemma UsageEndsBackoff(st: State, u: Usage, now: int, p: UsagePolicy, expected: Option<nat>)
    requires Counted(st, u, now, p, expected)
    ensures var after := RecordUsage(st, u, now, p, expected).value;
            && after.lastSignalId == st.lastSignalId && after.lastHitAt == st.lastHitAt
            && if st.status == Backoff && st.resumeAt.Some? && now >= st.resumeAt.value
               then after.status == Ready && after.consecutiveHits == 0 && after.resumeAt.None?
               else && after.status == st.status && after.resumeAt == st.resumeAt
                    && after.consecutiveHits == st.consecutiveHits
  {
    hide Added;
  }

  /** A usage leaves the counter and exhaustion as they are, unless it resets. */
  lemma UseOrNothing(st: State, e: Event, p: UsagePolicy)
    requires e.Use?
    ensures var after := Step(st, e, p);
            if Resets(st, e, p) then after.consecutiveHits == 0
            else after.consecutiveHits == st.consecutiveHits && after.status == st.status
  {
    hide Added;
  }

  /** One hit counts, up to the cap, exactly when it is a strong new step, and exhausts at the cap. */
  lemma HitCounts(st: State, e: Event, p: UsagePolicy)
    requires Sane(st) && e.Hit?
    ensures var after, cap := Step(st, e, p), e.backoff.maxConsecutiveHits;
            if IsNewStep(st, e) && e.signal.strength == Strong then
              && cap > 0 && after.consecutiveHits == Min(st.consecutiveHits + 1, cap)
              && (st.consecutiveHits + 1 >= cap ==> after.status == Exhausted)
            else after.consecutiveHits == st.consecutiveHits && (st.status == Exhausted ==> after.status == Exhausted)
  {
    hide WithJitter, FallbackDelay, ProviderDelay, ValidState;
  }

  /** With one cap, the counter counts the strong steps since the last reset, up to the cap, and reaching the
      cap exhausts. Weak signals, bursts, replays and refused calls never count. */
  lemma {:induction false} HitsAreCounted(events: seq<Event>, p: UsagePolicy, cap: nat)
    requires OneCap(events, cap)
    ensures After(events, p).st.consecutiveHits == Min(cap, StrongSinceReset(events, p))
    ensures cap > 0 && StrongSinceReset(events, p) >= cap ==> After(events, p).st.status == Exhausted
  {
    if events != [] {
      var front, e := events[..|events| - 1], events[|events| - 1];
      var st := After(front, p).st;
      hide OnQuotaHit, RecordUsage, IsNewStep, Sane, Recovered;
      AlwaysSane(front, p);
      HitsAreCounted(front, p, cap);
      match e
      case Hit(_, _, _, _, _) => HitCounts(st, e, p);
      case Use(u, now, expected) => UseOrNothing(st, e, p);
      case Clear(expected) =>
    }
  }

  /** What the `n`-th step, counted from zero, pauses for: the base delay, doubled with each step before it up
      to the cap, and never less than an earlier step. */
  ghost predicate IsStepDelay(delay: int, n: nat, q: BackoffPolicy) {
    && delay == FallbackDelay(n, q) <= q.maxDelayMs
    && (n == 0 ==> delay == q.baseMs)
    && (0 < n <= MAX_EXPONENT ==> delay == Min(q.maxDelayMs, 2 * FallbackDelay(n - 1, q)))
    && forall m: nat :: m <= n ==> FallbackDelay(m, q) <= delay
  }

  lemma StepDelay(n: nat, q: BackoffPolicy)
    requires ValidPolicy(q)
    ensures IsStepDelay(FallbackDelay(n, q), n, q)
  {
    FallbackBounds(n, q);
    if 0 < n <= MAX_EXPONENT {
      FallbackDoubles(n - 1, q);
    }
    FallbackDoubles(0, q);
    forall m: nat | m <= n ensures FallbackDelay(m, q) <= FallbackDelay(n, q) {
      FallbackGrows(m, n, q);
    }
  }

  /** The exponential backoff, at any point of any run with one cap: after `n` strong steps since the last
      reset, the next step without a date pauses for the `n`-th delay, jitter added but never past the cap, or
      exhausts if it is strong and says so or is the last allowed. */
  lemma NextStepPauses(events: seq<Event>, p: UsagePolicy, cap: nat, e: Event)
    requires OneCap(events + [e], cap) && IsNewStep(After(events, p).st, e)
    requires ProviderDelay(e.signal, e.now, e.backoff) == Ok(None)
    ensures var n, after := StrongSinceReset(events, p), Step(After(events, p).st, e, p);
            && n < cap
            && (after.status == Exhausted <==>
                  e.signal.strength == Strong && (e.signal.kind == ExhaustedLimit || n + 1 >= cap))
            && (after.status != Exhausted ==>
                  && after.resumeAt.Some? && IsStepDelay(FallbackDelay(n, e.backoff), n, e.backoff)
                  && FallbackDelay(n, e.backoff) <= after.resumeAt.value - e.now <= e.backoff.maxDelayMs
                  && (e.jitter == 0.0 ==> after.resumeAt.value - e.now == FallbackDelay(n, e.backoff)))
  {
    var st := After(events, p).st;
    assert forall x :: x in events ==> x in events + [e];
    assert e in events + [e];
    hide WithJitter, FallbackDelay, ProviderDelay, IsStepDelay;
    AlwaysSane(events, p);
    HitsAreCounted(events, p, cap);
    StepDelay(StrongSinceReset(events, p), e.backoff);
    WhenExhausted(st, e.signal, e.now, e.jitter, e.backoff, e.expected);
    FallbackPause(st, e.signal, e.now, e.jitter, e.backoff, e.expected);
  }

  /** Optimistic concurrency: a call that carries a stale version changes nothing. */
  lemma StaleChangesNothing(st: State, e: Event, p: UsagePolicy)
    requires e.expected.Some? && e.expected.value != st.version
    ensures Step(st, e, p) == st
  {
  }

  /** Number of calls that changed the state. */
  function Changes(events: seq<Event>, p: UsagePolicy): nat {
    if events == [] then 0
    else
      var front, last := events[..|events| - 1], events[|events| - 1];
      Changes(front, p) + if Step(After(front, p).st, last, p) != After(front, p).st then 1 else 0
  }

  lemma ChangeRaisesVersion(st: State, e: Event, p: UsagePolicy)
    ensures Step(st, e, p).version == st.version + if Step(st, e, p) != st then 1 else 0
  {
    hide WithJitter, FallbackDelay, ProviderDelay, Added, ValidState, ValidHit;
  }

  /** The version counts the changes: a call that changes anything raises it by one. */
  lemma {:induction false} VersionCountsChanges(events: seq<Event>, p: UsagePolicy)
    ensures After(events, p).st.version == Changes(events, p)
  {
    if events != [] {
      var front := events[..|events| - 1];
      hide Step;
      VersionCountsChanges(front, p);
      ChangeRaisesVersion(After(front, p).st, events[|events| - 1], p);
    }
  }

  // ---------- deduplication over whole runs ----------

  /** Ids of the counted usages, oldest first. */
  function IdsOf(log: seq<Receipt>): seq<string> {
    if log == [] then [] else IdsOf(log[..|log| - 1]) + [log[|log| - 1].usage.id]
  }

  lemma {:induction false} IdsAt(log: seq<Receipt>, i: nat)
    requires i < |log|
    ensures |IdsOf(log)| == |log| && IdsOf(log)[i] == log[i].usage.id
  {
    if i < |log| - 1 {
      IdsAt(log[..|log| - 1], i);
    } else if i > 0 {
      IdsAt(log[..|log| - 1], 0);
    }
  }

  /** The remembered ids are those of the last usages counted, up to the configured number. */
  lemma {:induction false} LastIdsAreRemembered(events: seq<Event>, p: UsagePolicy)
    requires p.maxSeenIds > 0
    ensures After(events, p).st.usageIds == LastOf(IdsOf(After(events, p).log), p.maxSeenIds)
  {
    if events != [] {
      var w, e := After(events[..|events| - 1], p), events[|events| - 1];
      LastIdsAreRemembered(events[..|events| - 1], p);
      hide WithJitter, FallbackDelay, ProviderDelay, Added;
      if IsCounted(w.st, e, p) {
        assert (w.log + [Receipt(e.usage, e.now)])[..|w.log|] == w.log;
      }
    }
  }

  /** At any point of any run, a usage is ignored, whatever policy and version it comes with, exactly when
      its id is among those of the last usages counted, up to the configured number. */
  lemma RepetitionIsIgnored(events: seq<Event>, p: UsagePolicy, u: Usage, now: int, q: UsagePolicy,
                            expected: Option<nat>)
    requires p.maxSeenIds > 0 && ValidUse(u, now, q)
    ensures var w := After(events, p);
            RecordUsage(w.st, u, now, q, expected) == Ok(w.st) <==> u.id in LastOf(IdsOf(w.log), p.maxSeenIds)
  {
    hide Added;
    LastIdsAreRemembered(events, p);
  }

  lemma CountedIsNew(w: World, e: Event, p: UsagePolicy, i: nat)
    requires p.maxSeenIds > 0 && w.st.usageIds == LastOf(IdsOf(w.log), p.maxSeenIds)
    requires IsCounted(w.st, e, p) && i < |w.log| && |w.log| - i <= p.maxSeenIds
    ensures w.log[i].usage.id != e.usage.id
  {
    hide RecordUsage;
    IdsAt(w.log, i);
    var ids := IdsOf(w.log);
    assert LastOf(ids, p.maxSeenIds)[i - (|ids| - |LastOf(ids, p.maxSeenIds)|)] == ids[i];
  }

  /** An id is never counted twice among that many consecutive counted usages. */
  lemma {:induction false} CountedOnceInSpan(events: seq<Event>, p: UsagePolicy, i: nat, j: nat)
    requires p.maxSeenIds > 0 && i < j < |After(events, p).log| && j - i <= p.maxSeenIds
    ensures After(events, p).log[i].usage.id != After(events, p).log[j].usage.id
  {
    var front, e := events[..|events| - 1], events[|events| - 1];
    hide Step, IsCounted, LastOf, IdsOf;
    if j < |After(front, p).log| {
      CountedOnceInSpan(front, p, i, j);
    } else {
      LastIdsAreRemembered(front, p);
      CountedIsNew(After(front, p), e, p, i);
    }
  }

  // ---------- window counters over whole runs ----------

  predicate InWindow(r: Receipt, key: string, start: int, w: int)
    requires w > 0
  {
    key in KeysOf(r.usage.scope) && WindowStart(r.at, w) == start
  }

  /** Runs of all counted usages of one key in one window. */
  function SumRuns(log: seq<Receipt>, key: string, start: int, w: int): nat
    requires w > 0
  {
    if log == [] then 0
    else
      var last := log[|log| - 1];
      SumRuns(log[..|log| - 1], key, start, w) + if InWindow(last, key, start, w) then last.usage.runs else 0
  }

  function SumTokens(log: seq<Receipt>, key: string, start: int, w: int): nat
    requires w > 0
  {
    if log == [] then 0
    else
      var last := log[|log| - 1];
      SumTokens(log[..|log| - 1], key, start, w) + if InWindow(last, key, start, w) then last.usage.tokens else 0
  }

  /** The counters of the window of the clock, and of any later one, are the sums of the receipts. */
  ghost predicate Exact(w: World, windowMs: int)
    requires windowMs > 0
  {
    forall key, start :: start >= WindowStart(w.clock, windowMs) ==>
        CurrentCount(w.st.windows, key, start)
        == WindowCount(start, SumRuns(w.log, key, start, windowMs), SumTokens(w.log, key, start, windowMs))
  }

  ghost predicate NothingAhead(w: World, windowMs: int)
    requires windowMs > 0
  {
    && NoFutureWindow(w.st, w.clock, windowMs)
    && forall i :: 0 <= i < |w.log| ==> WindowStart(w.log[i].at, windowMs) <= WindowStart(w.clock, windowMs)
  }

  lemma {:induction false} LaterSumIsZero(log: seq<Receipt>, key: string, start: int, w: int)
    requires w > 0 && forall i :: 0 <= i < |log| ==> WindowStart(log[i].at, w) < start
    ensures SumRuns(log, key, start, w) == 0 && SumTokens(log, key, start, w) == 0
  {
    if log != [] {
      LaterSumIsZero(log[..|log| - 1], key, start, w);
    }
  }

  /** Moving the clock forward keeps the counters exact: what is skipped is already final. */
  lemma ClockMovesOn(w: World, now: int, windowMs: int)
    requires windowMs > 0 && w.clock <= now && Exact(w, windowMs) && NothingAhead(w, windowMs)
    ensures Exact(w.(clock := now), windowMs) && NothingAhead(w.(clock := now), windowMs)
  {
    WindowStartMonotone(w.clock, now, windowMs);
  }

  /** Counting one usage at the clock adds it to its keys in the window of the clock, and to nothing else. */
  lemma UseKeepsExact(w: World, u: Usage, p: UsagePolicy, next: Windows)
    requires p.windowMs > 0 && Exact(w, p.windowMs) && NothingAhead(w, p.windowMs)
    requires Added(w.st.windows, u, WindowStart(w.clock, p.windowMs)) == Ok(next)
    ensures var w' := World(w.st.(windows := next), w.log + [Receipt(u, w.clock)], w.clock);
            Exact(w', p.windowMs) && NothingAhead(w', p.windowMs)
  {
  }

  lemma StepKeepsExact(w: World, e: Event, p: UsagePolicy)
    requires p.windowMs > 0 && Exact(w, p.windowMs) && NothingAhead(w, p.windowMs)
    requires !e.Clear? ==> w.clock <= e.now
    ensures Exact(Advance(w, e, p), p.windowMs) && NothingAhead(Advance(w, e, p), p.windowMs)
  {
    hide WithJitter, FallbackDelay, ProviderDelay, Added, WindowStart;
    if !e.Clear? {
      ClockMovesOn(w, e.now, p.windowMs);
    }
    if IsCounted(w.st, e, p) {
      var windows := Added(w.st.windows, e.usage, WindowStart(e.now, p.windowMs)).value;
      UseKeepsExact(w.(clock := e.now), e.usage, p, windows);
    } else {
      assert Step(w.st, e, p).windows == w.st.windows;
    }
  }

  /** With one usage policy and a clock that never goes back, every counter of the current window equals
      the sum of all usages counted for its key in that window, at any point of any run. */
  lemma {:induction false} CountersAreExact(events: seq<Event>, p: UsagePolicy)
    requires p.windowMs > 0 && ClockNeverGoesBack(events, p)
    ensures Exact(After(events, p), p.windowMs) && NothingAhead(After(events, p), p.windowMs)
  {
    if events == [] {
      assert WindowStart(0, p.windowMs) == 0;
    } else {
      var w, e := After(events[..|events| - 1], p), events[|events| - 1];
      PrefixClock(events, p);
      CountersAreExact(events[..|events| - 1], p);
      StepKeepsExact(w, e, p);
    }
  }

  // ---------- caps over whole runs ----------

  /** Every counted usage is one run, recorded when a start was allowed. */
  ghost predicate Disciplined(events: seq<Event>, p: UsagePolicy)
    requires p.windowMs > 0
  {
    forall i :: 0 <= i < |events| && IsCounted(After(events[..i], p).st, events[i], p) ==>
        events[i].usage.runs == 1 && CanStart(After(events[..i], p).st, events[i].now, events[i].usage.scope, Some(p))
  }

  /** No level of any scope is ever charged more runs than its cap in one window. */
  ghost predicate WithinCaps(log: seq<Receipt>, p: UsagePolicy)
    requires p.windowMs > 0
  {
    forall s, l, start :: ValidScope(s) && HasLevel(s, l) && CapsOf(p, l).Some? && CapsOf(p, l).value.maxRuns.Some? ==>
        SumRuns(log, KeyOf(s, l), start, p.windowMs) <= CapsOf(p, l).value.maxRuns.value
  }

  lemma AllowedUseStaysWithinCaps(w: World, u: Usage, p: UsagePolicy)
    requires p.windowMs > 0 && Exact(w, p.windowMs) && WithinCaps(w.log, p) && ValidScope(u.scope)
    requires u.runs == 1 && CanStart(w.st, w.clock, u.scope, Some(p))
    ensures WithinCaps(w.log + [Receipt(u, w.clock)], p)
  {
    var ms, start, log := p.windowMs, WindowStart(w.clock, p.windowMs), w.log + [Receipt(u, w.clock)];
    WindowStartBounds(w.clock, ms);
    assert log[..|w.log|] == w.log;
    forall s, l, at | ValidScope(s) && HasLevel(s, l) && CapsOf(p, l).Some? && CapsOf(p, l).value.maxRuns.Some?
      ensures SumRuns(log, KeyOf(s, l), at, ms) <= CapsOf(p, l).value.maxRuns.value
    {
      var key := KeyOf(s, l);
      if InWindow(Receipt(u, w.clock), key, at, ms) {
        var l' :| l' in LevelsOf(u.scope) && HasLevel(u.scope, l') && KeyOf(u.scope, l') == key;
        KeysAreInjective(s, l, u.scope, l');
        assert !LevelReached(w.st, start, u.scope, p, l');
        assert CurrentCount(w.st.windows, key, start).runs == SumRuns(w.log, key, start, ms);
      }
    }
  }

  /** If each one-run usage is recorded only when a start was allowed, no window of any level ever
      holds more runs than its cap. */
  lemma {:induction false} CapsAreNeverExceeded(events: seq<Event>, p: UsagePolicy)
    requires p.windowMs > 0 && ClockNeverGoesBack(events, p) && Disciplined(events, p)
    ensures WithinCaps(After(events, p).log, p)
  {
    if events != [] {
      var front := events[..|events| - 1];
      var w, e := After(front, p), events[|events| - 1];
      PrefixClock(events, p);
      assert Disciplined(front, p) by {
        forall i | 0 <= i < |front| ensures front[..i] == events[..i] {}
      }
      CapsAreNeverExceeded(front, p);
      CountersAreExact(front, p);
      if IsCounted(w.st, e, p) {
        ClockMovesOn(w, e.now, p.windowMs);
        AllowedUseStaysWithinCaps(w.(clock := e.now), e.usage, p);
      }
    }
  }

  /** In every reachable state, asked at the clock or later, the announced start is exact: nothing
      before it can start, and it can start exactly when no applicable cap is zero. */
  lemma AnnouncedStartIsExact(events: seq<Event>, p: UsagePolicy, now: int, s: Scope, t: int)
    requires p.windowMs > 0 && ClockNeverGoesBack(events, p)
    requires After(events, p).clock <= now && After(events, p).st.status != Exhausted
    ensures var st := After(events, p).st;
            var at := Allowed(st, now, s, Some(p)).value;
            && (now <= t < at ==> !CanStart(st, t, s, Some(p)))
            && (CanStart(st, at, s, Some(p)) <==> !SomeZeroCap(s, p))
  {
    CountersAreExact(events, p);
    ClockMovesOn(After(events, p), now, p.windowMs);
    var st := After(events, p).st;
    AnswerWithoutFutureWindow(st, now, s, p);
    if now <= t < Allowed(st, now, s, Some(p)).value {
      NothingEarlier(st, now, t, s, Some(p));
    }
  }

  // ---------- when a start is allowed, told on the receipts ----------

  /** Both scopes are charged together at this level: same organisation, and same project or agent. */
  predicate SharesLevel(a: Scope, b: Scope, l: Level) {
    && a.organization == b.organization
    && (l == ProjectLevel ==> a.project.Some? && a.project == b.project)
    && (l == AgentLevel ==> a.agent.Some? && a.agent == b.agent)
  }

  /** Runs counted at this level of the scope, in the window of `now`. */
  function TotalRuns(log: seq<Receipt>, s: Scope, l: Level, now: int, w: int): nat
    requires w > 0
  {
    if log == [] then 0
    else
      var last := log[|log| - 1];
      TotalRuns(log[..|log| - 1], s, l, now, w)
      + if SharesLevel(last.usage.scope, s, l) && last.at / w == now / w then last.usage.runs else 0
  }

  function TotalTokens(log: seq<Receipt>, s: Scope, l: Level, now: int, w: int): nat
    requires w > 0
  {
    if log == [] then 0
    else
      var last := log[|log| - 1];
      TotalTokens(log[..|log| - 1], s, l, now, w)
      + if SharesLevel(last.usage.scope, s, l) && last.at / w == now / w then last.usage.tokens else 0
  }

  ghost predicate ScopesAreValid(log: seq<Receipt>) {
    forall i :: 0 <= i < |log| ==> ValidScope(log[i].usage.scope)
  }

  lemma {:induction false} LogIsValid(events: seq<Event>, p: UsagePolicy)
    ensures ScopesAreValid(After(events, p).log)
  {
    if events != [] {
      hide Step, ValidScope, Added;
      LogIsValid(events[..|events| - 1], p);
    }
  }

  lemma SameWindow(a: int, b: int, w: int)
    requires w > 0
    ensures WindowStart(a, w) == WindowStart(b, w) <==> a / w == b / w
  {
    if WindowStart(a, w) == WindowStart(b, w) {
      WindowStartBounds(a, w);
      WindowStartBounds(b, w);
      var x, y := a / w, b / w;
      if x < y { TimesMonotone(x + 1, y, w); }
      if y < x { TimesMonotone(y + 1, x, w); }
    }
  }

  lemma SharedKey(a: Scope, s: Scope, l: Level)
    requires ValidScope(a) && ValidScope(s) && HasLevel(s, l)
    ensures KeyOf(s, l) in KeysOf(a) <==> SharesLevel(a, s, l)
  {
    if KeyOf(s, l) in KeysOf(a) {
      var l' :| l' in LevelsOf(a) && HasLevel(a, l') && KeyOf(a, l') == KeyOf(s, l);
      KeysAreInjective(s, l, a, l');
    }
    if SharesLevel(a, s, l) {
      assert l in LevelsOf(a) && HasLevel(a, l) && KeyOf(a, l) == KeyOf(s, l);
    }
  }

  lemma {:induction false} TotalsAreSums(log: seq<Receipt>, s: Scope, l: Level, now: int, w: int)
    requires w > 0 && ScopesAreValid(log) && ValidScope(s) && HasLevel(s, l)
    ensures TotalRuns(log, s, l, now, w) == SumRuns(log, KeyOf(s, l), WindowStart(now, w), w)
    ensures TotalTokens(log, s, l, now, w) == SumTokens(log, KeyOf(s, l), WindowStart(now, w), w)
  {
    if log != [] {
      var last := log[|log| - 1];
      hide ValidScope, KeyOf, KeysOf, WindowStart, SharesLevel, HasLevel;
      TotalsAreSums(log[..|log| - 1], s, l, now, w);
      SharedKey(last.usage.scope, s, l);
      SameWindow(last.at, now, w);
    }
  }

  /** Neither cap, where one is set, is reached by these totals. */
  predicate IsBelow(caps: Option<Caps>, runs: nat, tokens: nat) {
    match caps
    case None => true
    case Some(c) => (c.maxRuns.Some? ==> runs < c.maxRuns.value) && (c.maxTokens.Some? ==> tokens < c.maxTokens.value)
  }

  /** Room at every level that the scope has, by the receipts of the window of `now`. */
  predicate HasRoom(log: seq<Receipt>, s: Scope, now: int, p: UsagePolicy)
    requires p.windowMs > 0
  {
    var w := p.windowMs;
    && IsBelow(p.organization, TotalRuns(log, s, OrganizationLevel, now, w), TotalTokens(log, s, OrganizationLevel,
        now, w))
    && (s.project.Some? ==>
          IsBelow(p.project, TotalRuns(log, s, ProjectLevel, now, w), TotalTokens(log, s, ProjectLevel, now, w)))
    && (s.agent.Some? ==>
          IsBelow(p.agent, TotalRuns(log, s, AgentLevel, now, w), TotalTokens(log, s, AgentLevel, now, w)))
  }

  lemma LevelIsBelow(st: State, log: seq<Receipt>, s: Scope, l: Level, now: int, p: UsagePolicy)
    requires p.windowMs > 0 && ScopesAreValid(log) && ValidScope(s) && HasLevel(s, l)
    requires Exact(World(st, log, now), p.windowMs)
    ensures IsBelow(CapsOf(p, l), TotalRuns(log, s, l, now, p.windowMs), TotalTokens(log, s, l, now, p.windowMs))
       <==> !LevelReached(st, WindowStart(now, p.windowMs), s, p, l)
  {
    TotalsAreSums(log, s, l, now, p.windowMs);
    hide WindowStart, KeyOf, TotalRuns, TotalTokens, SumRuns, SumTokens;
    assert CurrentCount(st.windows, KeyOf(s, l), WindowStart(now, p.windowMs))
        == WindowCount(WindowStart(now, p.windowMs), TotalRuns(log, s, l, now, p.windowMs),
                       TotalTokens(log, s, l, now, p.windowMs));
  }

  lemma ExactSoFar(w: World, now: int, ms: int)
    requires ms > 0 && Exact(w.(clock := now), ms)
    ensures Exact(World(w.st, w.log, now), ms)
  {
  }

  lemma RoomIsFree(st: State, log: seq<Receipt>, s: Scope, now: int, p: UsagePolicy)
    requires p.windowMs > 0 && ScopesAreValid(log) && ValidScope(s) && Exact(World(st, log, now), p.windowMs)
    ensures HasRoom(log, s, now, p) <==> !SomeReached(st, WindowStart(now, p.windowMs), s, p)
  {
    forall l | HasLevel(s, l)
      ensures IsBelow(CapsOf(p, l), TotalRuns(log, s, l, now, p.windowMs), TotalTokens(log, s, l, now, p.windowMs))
         <==> !LevelReached(st, WindowStart(now, p.windowMs), s, p, l)
    {
      LevelIsBelow(st, log, s, l, now, p);
    }
    hide WindowStart, LevelReached, IsBelow, TotalRuns, TotalTokens, Exact, ValidScope, ScopesAreValid;
    assert HasLevel(s, OrganizationLevel) && CapsOf(p, OrganizationLevel) == p.organization;
    assert s.project.Some? ==> HasLevel(s, ProjectLevel) && CapsOf(p, ProjectLevel) == p.project;
    assert s.agent.Some? ==> HasLevel(s, AgentLevel) && CapsOf(p, AgentLevel) == p.agent;
    forall l ensures l in LevelsOf(s) <==> HasLevel(s, l) {
      LevelsMembers(s, l);
    }
  }

  /** At any point of any run, with one policy and a clock that never goes back, a start is allowed exactly when
      the state is not exhausted, no resume date lies ahead, and by the counted usages of the window every level
      of the scope is below each of its caps, in runs and in tokens. */
  lemma StartIsAllowedIff(events: seq<Event>, p: UsagePolicy, now: int, s: Scope)
    requires p.windowMs > 0 && ClockNeverGoesBack(events, p) && After(events, p).clock <= now && ValidScope(s)
    ensures var w := After(events, p);
            CanStart(w.st, now, s, Some(p)) <==>
              && w.st.status != Exhausted
              && (w.st.resumeAt.Some? ==> w.st.resumeAt.value <= now)
              && HasRoom(w.log, s, now, p)
  {
    var w := After(events, p);
    CountersAreExact(events, p);
    ClockMovesOn(w, now, p.windowMs);
    LogIsValid(events, p);
    AlwaysSane(events, p);
    ExactSoFar(w, now, p.windowMs);
    RoomIsFree(w.st, w.log, s, now, p);
    WindowStartBounds(now, p.windowMs);
    hide After, ClockNeverGoesBack, Exact, NothingAhead, WindowStart, SomeReached, HasRoom, ValidScope;
  }

  /** The same of the decision: it is to start exactly then. */
  lemma DecisionToStartIff(events: seq<Event>, p: UsagePolicy, now: int, s: Scope)
    requires ClockNeverGoesBack(events, p) && After(events, p).clock <= now && ValidCall(now, s, Some(p))
    ensures var w := After(events, p);
            QuotaDecision(w.st, now, s, Some(p)) == Ok(StartNow) <==>
              && w.st.status != Exhausted
              && (w.st.resumeAt.Some? ==> w.st.resumeAt.value <= now)
              && HasRoom(w.log, s, now, p)
  {
    StartIsAllowedIff(events, p, now, s);
    DecisionMeaning(After(events, p).st, now, now, s, Some(p));
  }
}
