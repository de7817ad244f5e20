/** Reaction to a quota signal: provider dates, exponential fallback, jitter, bursts and exhaustion
    (packages/delivery/src/quota-reset.ts, packages/delivery/src/quota-backoff.ts). */
module QuotaBackoff {
  import opened Common
  import opened QuotaState

  const MINUTE_MS: int := 60_000
  const MAX_EXPONENT: nat := 52
  const MAX_OFFSET_MINUTES: int := 1440

  datatype SignalKind = RateWindow | ExhaustedLimit | UnknownLimit

  datatype Strength = Strong | Weak

  datatype ClockHint = ClockHint(hour: int, minute: int, zone: Option<string>)

  datatype Signal = Signal(kind: SignalKind, strength: Strength, resetAt: Option<nat>, retryAfterMs: Option<nat>,
                           resetHint: Option<ClockHint>, id: Option<string>)

  datatype BackoffPolicy = BackoffPolicy(baseMs: int, maxDelayMs: int, jitterRatio: real, maxConsecutiveHits: int,
                                         utcOffsetMinutes: Option<int>)

  predicate ValidOffset(minutes: int) { -MAX_OFFSET_MINUTES < minutes < MAX_OFFSET_MINUTES }

  predicate ValidPolicy(p: BackoffPolicy) {
    && 0 < p.baseMs <= p.maxDelayMs <= DAY_MS
    && 0.0 <= p.jitterRatio <= 1.0
    && 0 < p.maxConsecutiveHits <= MAX_SAFE_INTEGER
    && (p.utcOffsetMinutes.Some? ==> ValidOffset(p.utcOffsetMinutes.value))
  }

  predicate ValidHint(h: ClockHint) { 0 <= h.hour <= 23 && 0 <= h.minute <= 59 }

  function Floor(x: real): int { x.Floor }

  /** Next occurrence, strictly in the future, of a wall-clock time. */
  function NextWallClock(h: ClockHint, now: int, offsetMinutes: int): int {
    var local := now + offsetMinutes * MINUTE_MS;
    var dayStart := local / DAY_MS * DAY_MS;
    var candidate := dayStart + (h.hour * 60 + h.minute) * MINUTE_MS;
    (if candidate > local then candidate else candidate + DAY_MS) - offsetMinutes * MINUTE_MS
  }

  /** Instant announced by a signal, or nothing when only the exponential fallback is left. */
  function ResolveResetAt(signal: Signal, now: int, offset: Option<int>): Result<Option<int>, QuotaError> {
    if signal.resetAt.Some? then Ok(Some(signal.resetAt.value))
    else if signal.retryAfterMs.Some? then Ok(Some(now + Min(signal.retryAfterMs.value, DAY_MS)))
    else if signal.resetHint.None? || signal.resetHint.value.zone.Some? then Ok(None)
    else if !ValidHint(signal.resetHint.value) then Err(InvalidQuota)
    else if offset.None? then Ok(None)
    else if !ValidOffset(offset.value) then Err(InvalidQuota)
    else Ok(Some(NextWallClock(signal.resetHint.value, now, offset.value)))
  }

  /** Announced delay when it lies in the future, capped. */
  function ProviderDelay(signal: Signal, now: int, p: BackoffPolicy): Result<Option<int>, QuotaError> {
    var at := ResolveResetAt(signal, now, p.utcOffsetMinutes);
    if at.Err? then Err(at.error)
    else if at.value.Some? && at.value.value > now then Ok(Some(Min(at.value.value - now, p.maxDelayMs)))
    else Ok(None)
  }

  function Power2(n: nat): nat { if n == 0 then 1 else 2 * Power2(n - 1) }

  function FallbackDelay(hits: nat, p: BackoffPolicy): int {
    Min(p.maxDelayMs, p.baseMs * Power2(Min(hits, MAX_EXPONENT)))
  }

  /** Jitter is added, never taken away; the cap applies after it. */
  function WithJitter(delay: int, jitter: real, p: BackoffPolicy): int {
    Min(p.maxDelayMs, Floor(delay as real * (1.0 + jitter * p.jitterRatio)))
  }

  function ExtendBurst(st: State, resumeAt: int, signal: Signal, now: int, candidate: Option<int>): State {
    if candidate.None? || candidate.value <= resumeAt then st
    else st.(resumeAt := candidate, lastHitAt := Some(now), lastSignalId := signal.id, version := st.version + 1)
  }

  function NextStep(st: State, signal: Signal, now: int, delay: int, p: BackoffPolicy): State
    requires p.maxConsecutiveHits > 0
  {
    var strong := signal.strength == Strong;
    var hits := if strong then Min(st.consecutiveHits + 1, p.maxConsecutiveHits) else st.consecutiveHits;
    var exhausted := strong && (signal.kind == ExhaustedLimit || hits >= p.maxConsecutiveHits);
    var floor := if st.resumeAt.Some? then st.resumeAt.value else 0;
    st.(status := if exhausted then Exhausted else Backoff,
        resumeAt := if exhausted then None else Some(Max(floor, now + delay)),
        consecutiveHits := hits, lastHitAt := Some(now), lastSignalId := signal.id, version := st.version + 1)
  }

  /** A backoff is under way: further hits extend it, but are no new step. */
  predicate InBurst(st: State, now: int) {
    st.status == Backoff && st.resumeAt.Some? && now < st.resumeAt.value
  }

  function ApplyHit(st: State, signal: Signal, now: int, jitter: real, p: BackoffPolicy): Result<State, QuotaError>
    requires p.maxConsecutiveHits > 0
  {
    var provider := ProviderDelay(signal, now, p);
    if provider.Err? then Err(provider.error)
    else if InBurst(st, now) then
      var candidate := if provider.value.None? then None else Some(now + WithJitter(provider.value.value, jitter, p));
      Ok(ExtendBurst(st, st.resumeAt.value, signal, now, candidate))
    else
      var delay := if provider.value.Some? then provider.value.value else FallbackDelay(st.consecutiveHits, p);
      Ok(NextStep(st, signal, now, WithJitter(delay, jitter, p), p))
  }

  predicate ValidSignal(signal: Signal) {
    && IsOptionalText(signal.id)
    && (signal.resetAt.Some? ==> signal.resetAt.value <= MAX_SAFE_INTEGER)
    && (signal.retryAfterMs.Some? ==> signal.retryAfterMs.value <= MAX_SAFE_INTEGER)
  }

  predicate ValidHit(signal: Signal, now: int, jitter: real, p: BackoffPolicy) {
    ValidSignal(signal) && IsInstant(now) && 0.0 <= jitter < 1.0 && ValidPolicy(p)
  }

  /** What is checked of a state that may have been forged. */
  predicate ValidState(st: State) {
    && st.consecutiveHits <= MAX_SAFE_INTEGER && st.version <= MAX_SAFE_INTEGER
    && (st.resumeAt.Some? ==> IsInstant(st.resumeAt.value))
  }

  /** Validation, replay of the same signal, stale version, then the step; exhaustion is sticky. */
  function OnQuotaHit(st: State, signal: Signal, now: int, jitter: real, p: BackoffPolicy, expected: Option<nat>)
    : Result<State, QuotaError>
  {
    if !ValidHit(signal, now, jitter, p) || !ValidState(st) then Err(InvalidQuota)
    else if signal.id.Some? && signal.id == st.lastSignalId then Ok(st)
    else if AssertFresh(st.version, expected).Some? then Err(AssertFresh(st.version, expected).value)
    else if st.status == Exhausted then Ok(st)
    else ApplyHit(st, signal, now, jitter, p)
  }

  // ---------- properties ----------

  /** The announced wall-clock instant shows the hinted time, is in the future, and no earlier future
      instant shows that time. */
  lemma WallClockIsNext(h: ClockHint, now: int, offset: int, t: int)
    requires ValidHint(h)
    ensures var r := NextWallClock(h, now, offset);
            && now < r <= now + DAY_MS
            && (r + offset * MINUTE_MS) % DAY_MS == (h.hour * 60 + h.minute) * MINUTE_MS
            && (now < t < r ==> (t + offset * MINUTE_MS) % DAY_MS != (h.hour * 60 + h.minute) * MINUTE_MS)
  {
    var shift, clock := offset * MINUTE_MS, (h.hour * 60 + h.minute) * MINUTE_MS;
    var local := now + shift;
    var day := local / DAY_MS;
    assert 0 <= clock < DAY_MS;
    var r := NextWallClock(h, now, offset);
    assert r + shift == day * DAY_MS + clock || r + shift == (day + 1) * DAY_MS + clock;
    if now < t < r {
      var u := t + shift;
      assert u == u / DAY_MS * DAY_MS + u % DAY_MS;
    }
  }

  lemma PowerIsPositive(n: nat)
    ensures Power2(n) >= 1
  {
  }

  lemma FallbackBounds(hits: nat, p: BackoffPolicy)
    requires ValidPolicy(p)
    ensures 1 <= FallbackDelay(hits, p) <= p.maxDelayMs
  {
    hide Power2;
    PowerIsPositive(Min(hits, MAX_EXPONENT));
    TimesMonotone(1, Power2(Min(hits, MAX_EXPONENT)), p.baseMs);
  }

  /** The fallback never shrinks as hits accumulate. */
  lemma {:induction false} PowerGrows(a: nat, b: nat)
    requires a <= b
    ensures Power2(a) <= Power2(b)
    decreases b - a
  {
    if a < b {
      PowerGrows(a + 1, b);
    }
  }

  lemma FallbackGrows(a: nat, b: nat, p: BackoffPolicy)
    requires ValidPolicy(p) && a <= b
    ensures FallbackDelay(a, p) <= FallbackDelay(b, p)
  {
    hide Power2;
    PowerGrows(Min(a, MAX_EXPONENT), Min(b, MAX_EXPONENT));
    TimesMonotone(Power2(Min(a, MAX_EXPONENT)), Power2(Min(b, MAX_EXPONENT)), p.baseMs);
  }

  /** The pause is the delay and, up to the cap, the whole milliseconds of the share of it that jitter adds. */
  ghost predicate IsJittered(pause: int, delay: int, jitter: real, p: BackoffPolicy) {
    var share, added := delay as real * jitter * p.jitterRatio, pause - delay;
    && 0 <= added && pause <= p.maxDelayMs && added as real <= share
    && (pause < p.maxDelayMs ==> share < (added + 1) as real)
  }

  /** Jitter never shortens a delay within the cap, never passes the cap, and adds its share in between. */
  lemma JitterBounds(delay: int, jitter: real, p: BackoffPolicy)
    requires ValidPolicy(p) && 0.0 <= jitter < 1.0 && 1 <= delay <= p.maxDelayMs
    ensures delay <= WithJitter(delay, jitter, p) <= p.maxDelayMs
    ensures IsJittered(WithJitter(delay, jitter, p), delay, jitter, p)
  {
    var f := jitter * p.jitterRatio;
    assert f >= 0.0;
    assert delay as real * (1.0 + f) >= delay as real by { assert delay as real * f >= 0.0; }
    assert delay as real * jitter * p.jitterRatio == delay as real * f;
    assert delay as real * (1.0 + f) == delay as real + delay as real * f;
  }

  lemma ProviderBounds(signal: Signal, now: int, p: BackoffPolicy)
    requires ValidPolicy(p) && ProviderDelay(signal, now, p).Ok? && ProviderDelay(signal, now, p).value.Some?
    ensures 1 <= ProviderDelay(signal, now, p).value.value <= p.maxDelayMs
  {
  }

  /** A resume date is set exactly in backoff, lies strictly after the last hit and at most a day after. */
  ghost predicate Sane(st: State) {
    && (st.resumeAt.Some? <==> st.status == Backoff)
    && (st.status == Backoff ==>
          st.lastHitAt.Some? && st.lastHitAt.value < st.resumeAt.value <= st.lastHitAt.value + DAY_MS)
  }

  /** Every delay a hit can lead to is at least one millisecond and at most the cap. */
  lemma HitDelay(st: State, signal: Signal, now: int, jitter: real, p: BackoffPolicy)
    requires ValidHit(signal, now, jitter, p)
    ensures ProviderDelay(signal, now, p).Ok? && ProviderDelay(signal, now, p).value.Some? ==>
        1 <= WithJitter(ProviderDelay(signal, now, p).value.value, jitter, p) <= DAY_MS
    ensures 1 <= WithJitter(FallbackDelay(st.consecutiveHits, p), jitter, p) <= DAY_MS
  {
    if ProviderDelay(signal, now, p).Ok? && ProviderDelay(signal, now, p).value.Some? {
      ProviderBounds(signal, now, p);
      JitterBounds(ProviderDelay(signal, now, p).value.value, jitter, p);
    }
    FallbackBounds(st.consecutiveHits, p);
    JitterBounds(FallbackDelay(st.consecutiveHits, p), jitter, p);
  }

  lemma HitKeepsSane(st: State, signal: Signal, now: int, jitter: real, p: BackoffPolicy, expected: Option<nat>)
    requires Sane(st) && OnQuotaHit(st, signal, now, jitter, p, expected).Ok?
    ensures Sane(OnQuotaHit(st, signal, now, jitter, p, expected).value)
  {
    hide WithJitter, FallbackDelay, ProviderDelay;
    if ValidHit(signal, now, jitter, p) {
      HitDelay(st, signal, now, jitter, p);
    }
  }

  lemma HitKeepsWindows(st: State, signal: Signal, now: int, jitter: real, p: BackoffPolicy, expected: Option<nat>)
    requires OnQuotaHit(st, signal, now, jitter, p, expected).Ok?
    ensures var after := OnQuotaHit(st, signal, now, jitter, p, expected).value;
            after.windows == st.windows && after.usageIds == st.usageIds
                && st.version <= after.version <= st.version + 1
  {
  }

  lemma SameWindowsSameCaps(a: State, b: State, t: int, s: Scope, u: UsagePolicy)
    requires a.windows == b.windows && u.windowMs > 0
    ensures CapsFreeAt(a, t, s, u) == CapsFreeAt(b, t, s, u)
  {
  }

  /** A hit never makes the allowed instant earlier: at any instant, scope and policy, the answer after
      the hit is a human wait or no earlier than before. */
  lemma HitNeverEarlier(st: State, signal: Signal, now: int, jitter: real, p: BackoffPolicy, expected: Option<nat>,
                        t: int, s: Scope, u: Option<UsagePolicy>)
    requires Sane(st) && OnQuotaHit(st, signal, now, jitter, p, expected).Ok?
    requires u.Some? ==> u.value.windowMs > 0
    ensures var after := OnQuotaHit(st, signal, now, jitter, p, expected).value;
            || Allowed(after, t, s, u).None?
            || (Allowed(st, t, s, u).Some? && Allowed(st, t, s, u).value <= Allowed(after, t, s, u).value)
  {
    hide WithJitter, FallbackDelay, ProviderDelay, SomeReached, WindowStart;
    var after := OnQuotaHit(st, signal, now, jitter, p, expected).value;
    HitKeepsWindows(st, signal, now, jitter, p, expected);
    if u.Some? {
      SameWindowsSameCaps(st, after, t, s, u.value);
    }
  }

  /** Only a strong signal exhausts: one that says so, or the last of the allowed consecutive hits. */
  lemma WhenExhausted(st: State, signal: Signal, now: int, jitter: real, p: BackoffPolicy, expected: Option<nat>)
    requires Sane(st) && st.status != Exhausted && OnQuotaHit(st, signal, now, jitter, p, expected).Ok?
    ensures OnQuotaHit(st, signal, now, jitter, p, expected).value.status == Exhausted <==>
            && !(signal.id.Some? && signal.id == st.lastSignalId)
            && !InBurst(st, now)
            && signal.strength == Strong
            && (signal.kind == ExhaustedLimit || st.consecutiveHits + 1 >= p.maxConsecutiveHits)
  {
  }

  /** The fallback starts at the base delay and doubles with each counted hit until the cap is near. */
  lemma FallbackDoubles(hits: nat, p: BackoffPolicy)
    requires ValidPolicy(p) && hits < MAX_EXPONENT
    ensures FallbackDelay(0, p) == p.baseMs
    ensures FallbackDelay(hits + 1, p) == Min(p.maxDelayMs, 2 * FallbackDelay(hits, p))
  {
    var k := Power2(hits);
    assert Power2(hits + 1) == 2 * k;
    assert p.baseMs * (2 * k) == 2 * (p.baseMs * k);
  }

  lemma NoJitter(delay: int, p: BackoffPolicy)
    ensures WithJitter(delay, 0.0, p) == Min(p.maxDelayMs, delay)
  {
  }

  /** Unless it exhausts, a new signal that announces a future date is honoured up to the cap. */
  lemma AnnouncedDateIsHonoured(st: State, signal: Signal, now: int, jitter: real, p: BackoffPolicy,
                                expected: Option<nat>)
    requires Sane(st) && OnQuotaHit(st, signal, now, jitter, p, expected).Ok?
    requires !(signal.id.Some? && signal.id == st.lastSignalId)
    requires OnQuotaHit(st, signal, now, jitter, p, expected).value.status != Exhausted
    requires ResolveResetAt(signal, now, p.utcOffsetMinutes).Ok?
    ensures var at := ResolveResetAt(signal, now, p.utcOffsetMinutes).value;
            at.Some? && at.value > now ==>
              OnQuotaHit(st, signal, now, jitter, p, expected).value.resumeAt.value >= Min(at.value, now + p.maxDelayMs)
    ensures var at := ResolveResetAt(signal, now, p.utcOffsetMinutes).value;
            var floor := if InBurst(st, now) then st.resumeAt.value else 0;
            at.Some? && at.value > now && jitter == 0.0 ==>
              OnQuotaHit(st, signal, now, jitter, p, expected).value.resumeAt.value
              == Max(floor, Min(at.value, now + p.maxDelayMs))
  {
    var at := ResolveResetAt(signal, now, p.utcOffsetMinutes).value;
    if at.Some? && at.value > now {
      HitDelay(st, signal, now, jitter, p);
      JitterBounds(Min(at.value - now, p.maxDelayMs), jitter, p);
      if jitter == 0.0 {
        NoJitter(Min(at.value - now, p.maxDelayMs), p);
      }
    }
    hide WithJitter, FallbackDelay, ResolveResetAt, NextWallClock;
  }

  lemma HitIsValid(st: State, signal: Signal, now: int, jitter: real, p: BackoffPolicy, expected: Option<nat>)
    requires OnQuotaHit(st, signal, now, jitter, p, expected).Ok?
    ensures ValidHit(signal, now, jitter, p)
  {
  }

  lemma HitResumesAt(st: State, signal: Signal, now: int, jitter: real, p: BackoffPolicy, expected: Option<nat>)
    requires Sane(st) && OnQuotaHit(st, signal, now, jitter, p, expected).Ok?
    requires !(signal.id.Some? && signal.id == st.lastSignalId)
    requires OnQuotaHit(st, signal, now, jitter, p, expected).value.status != Exhausted
    requires ProviderDelay(signal, now, p).Ok? && ProviderDelay(signal, now, p).value.Some?
    ensures var floor := if InBurst(st, now) then st.resumeAt.value else 0;
            var pause := WithJitter(ProviderDelay(signal, now, p).value.value, jitter, p);
            OnQuotaHit(st, signal, now, jitter, p, expected).value.resumeAt == Some(Max(floor, now + pause))
  {
    hide WithJitter, FallbackDelay, ProviderDelay;
    HitDelay(st, signal, now, jitter, p);
  }

  /** The resume date is the end of the jittered pause, or `floor` if that is later. */
  ghost predicate ResumesAfter(st: State, now: int, floor: int, delay: int, jitter: real, p: BackoffPolicy) {
    exists pause :: IsJittered(pause, delay, jitter, p) && st.resumeAt == Some(Max(floor, now + pause))
  }

  lemma AfterPause(st: State, now: int, floor: int, delay: int, jitter: real, p: BackoffPolicy, pause: int)
    requires IsJittered(pause, delay, jitter, p) && st.resumeAt == Some(Max(floor, now + pause))
    ensures ResumesAfter(st, now, floor, delay, jitter, p)
  {
  }

  /** The pause for an announced date is its distance, within the cap, and the share that jitter adds; a burst
      under way is not cut short by it. */
  lemma AnnouncedPause(st: State, signal: Signal, now: int, jitter: real, p: BackoffPolicy, expected: Option<nat>)
    requires Sane(st) && OnQuotaHit(st, signal, now, jitter, p, expected).Ok?
    requires !(signal.id.Some? && signal.id == st.lastSignalId)
    requires OnQuotaHit(st, signal, now, jitter, p, expected).value.status != Exhausted
    requires ResolveResetAt(signal, now, p.utcOffsetMinutes).Ok?
    ensures var at := ResolveResetAt(signal, now, p.utcOffsetMinutes).value;
            at.Some? && at.value > now ==>
              var delay, floor := Min(at.value - now, p.maxDelayMs), if InBurst(st, now) then st.resumeAt.value else 0;
              ResumesAfter(OnQuotaHit(st, signal, now, jitter, p, expected).value, now, floor, delay, jitter, p)
  {
    var at := ResolveResetAt(signal, now, p.utcOffsetMinutes).value;
    hide WithJitter, FallbackDelay, ResolveResetAt, IsJittered, OnQuotaHit, ResumesAfter;
    if at.Some? && at.value > now {
      var delay := Min(at.value - now, p.maxDelayMs);
      HitIsValid(st, signal, now, jitter, p, expected);
      HitResumesAt(st, signal, now, jitter, p, expected);
      JitterBounds(delay, jitter, p);
      var pause, floor := WithJitter(delay, jitter, p), if InBurst(st, now) then st.resumeAt.value else 0;
      AfterPause(OnQuotaHit(st, signal, now, jitter, p, expected).value, now, floor, delay, jitter, p, pause);
    }
  }

  /** When a signal announces nothing, so that the fallback decides: its date has passed, its delay is zero, or it
      has neither and its hint is absent, names a zone, or cannot be placed for want of an offset. A hint without
      zone that is no time of day is refused, unless a date or a delay makes it idle. */
  lemma NothingIsAnnounced(signal: Signal, now: int, p: BackoffPolicy)
    requires ValidPolicy(p)
    ensures var hint := signal.resetHint;
            var placeable := hint.Some? && hint.value.zone.None?;
            var isTime := hint.Some? && 0 <= hint.value.hour < 24 && 0 <= hint.value.minute < 60;
            && (ProviderDelay(signal, now, p) == Ok(None) <==>
                  if signal.resetAt.Some? then signal.resetAt.value <= now
                  else if signal.retryAfterMs.Some? then signal.retryAfterMs.value == 0
                  else !placeable || (isTime && p.utcOffsetMinutes.None?))
            && (ProviderDelay(signal, now, p).Err? <==>
                  signal.resetAt.None? && signal.retryAfterMs.None? && placeable && !isTime)
  {
    if signal.resetHint.Some? && p.utcOffsetMinutes.Some? && ValidHint(signal.resetHint.value) {
      WallClockIsNext(signal.resetHint.value, now, p.utcOffsetMinutes.value, now);
    }
    hide NextWallClock;
  }

  /** The same told on the fields of a signal, without jitter: a date wins over a delay, and a delay over a
      wall-clock hint without zone, which means its next occurrence; each within the cap. */
  lemma SignalIsRead(st: State, signal: Signal, now: int, p: BackoffPolicy, expected: Option<nat>)
    requires Sane(st) && OnQuotaHit(st, signal, now, 0.0, p, expected).Ok?
    requires !(signal.id.Some? && signal.id == st.lastSignalId) && !InBurst(st, now)
    requires OnQuotaHit(st, signal, now, 0.0, p, expected).value.status != Exhausted
    ensures var pause := OnQuotaHit(st, signal, now, 0.0, p, expected).value.resumeAt.value - now;
            && (signal.resetAt.Some? && signal.resetAt.value > now ==>
                  pause == Min(signal.resetAt.value - now, p.maxDelayMs))
            && (signal.resetAt.None? && signal.retryAfterMs.Some? && signal.retryAfterMs.value > 0 ==>
                  pause == Min(signal.retryAfterMs.value, p.maxDelayMs))
            && (signal.resetAt.None? && signal.retryAfterMs.None? && signal.resetHint.Some?
                && signal.resetHint.value.zone.None? && p.utcOffsetMinutes.Some? ==>
                  pause == Min(NextWallClock(signal.resetHint.value, now, p.utcOffsetMinutes.value) - now,
                      p.maxDelayMs))
  {
    AnnouncedDateIsHonoured(st, signal, now, 0.0, p, expected);
    if signal.resetHint.Some? && p.utcOffsetMinutes.Some? && ValidHint(signal.resetHint.value) {
      WallClockIsNext(signal.resetHint.value, now, p.utcOffsetMinutes.value, now);
    }
    hide WithJitter, FallbackDelay, NextWallClock;
  }

  /** No hit, in a burst or outside, sets a resume date further away than the cap. */
  lemma PauseStaysWithinCap(st: State, signal: Signal, now: int, jitter: real, p: BackoffPolicy, expected: Option<nat>)
    requires Sane(st) && OnQuotaHit(st, signal, now, jitter, p, expected).Ok?
    ensures var after := OnQuotaHit(st, signal, now, jitter, p, expected).value;
            after.resumeAt.Some? && after.resumeAt != st.resumeAt ==> after.resumeAt.value <= now + p.maxDelayMs
  {
    hide FallbackDelay, ProviderDelay;
  }

  // ---------- redelivery ----------

  /** The signal is the last one recorded, or nothing counts any more. */
  predicate IsRecognised(st: State, signal: Signal) {
    (signal.id.Some? && st.lastSignalId == signal.id) || st.status == Exhausted
  }

  /** A hit that announces no date, outside a burst, pauses for the step that the counter has reached: at least
      for the fallback delay of that many hits, at most for the cap, and for that very delay without jitter. */
  lemma FallbackPause(st: State, signal: Signal, now: int, jitter: real, p: BackoffPolicy, expected: Option<nat>)
    requires Sane(st) && OnQuotaHit(st, signal, now, jitter, p, expected).Ok?
    requires !IsRecognised(st, signal) && !InBurst(st, now) && ProviderDelay(signal, now, p) == Ok(None)
    ensures var after := OnQuotaHit(st, signal, now, jitter, p, expected).value;
            after.status != Exhausted ==>
              && after.resumeAt.Some?
              && now + FallbackDelay(st.consecutiveHits, p) <= after.resumeAt.value <= now + p.maxDelayMs
              && (jitter == 0.0 ==> after.resumeAt.value == now + FallbackDelay(st.consecutiveHits, p))
              && IsJittered(after.resumeAt.value - now, FallbackDelay(st.consecutiveHits, p), jitter, p)
  {
    FallbackBounds(st.consecutiveHits, p);
    JitterBounds(FallbackDelay(st.consecutiveHits, p), jitter, p);
    if jitter == 0.0 {
      NoJitter(FallbackDelay(st.consecutiveHits, p), p);
    }
    hide WithJitter, FallbackDelay, ProviderDelay, IsJittered;
  }

  /** The burst swallows the signal: one is under way, and the signal brings no date beyond its end. */
  predicate IsSwallowed(st: State, signal: Signal, now: int, jitter: real, p: BackoffPolicy) {
    && !IsRecognised(st, signal)
    && InBurst(st, now)
    && var provider := ProviderDelay(signal, now, p);
       provider.Ok?
       && (provider.value.Some? ==> now + WithJitter(provider.value.value, jitter, p) <= st.resumeAt.value)
  }

  /** A signal that is not recognised changes the state unless a burst swallows it. */
  lemma ChangesUnlessSwallowed(st: State, signal: Signal, now: int, jitter: real, p: BackoffPolicy,
                               expected: Option<nat>)
    requires Sane(st) && OnQuotaHit(st, signal, now, jitter, p, expected).Ok? && !IsRecognised(st, signal)
    ensures OnQuotaHit(st, signal, now, jitter, p, expected).value == st <==> IsSwallowed(st, signal, now, jitter, p)
  {
    hide WithJitter, FallbackDelay, ProviderDelay;
  }

  /** A delivery makes its signal recognised exactly when no burst swallows it. */
  lemma RecognisedUnlessSwallowed(st: State, signal: Signal, now: int, jitter: real, p: BackoffPolicy,
                                  expected: Option<nat>)
    requires Sane(st) && signal.id.Some? && OnQuotaHit(st, signal, now, jitter, p, expected).Ok?
    ensures IsRecognised(OnQuotaHit(st, signal, now, jitter, p, expected).value, signal)
       <==> !IsSwallowed(st, signal, now, jitter, p)
  {
    hide WithJitter, FallbackDelay, ProviderDelay;
  }

  /** No delivery of the signal from `now` on changes the state, whatever its jitter and expected version;
      a refused delivery changes nothing. */
  ghost predicate NeverCounts(st: State, signal: Signal, now: int, p: BackoffPolicy) {
    forall later, jitter, expected ::
        later >= now && OnQuotaHit(st, signal, later, jitter, p, expected).Ok? ==>
          OnQuotaHit(st, signal, later, jitter, p, expected).value == st
  }

  /** A signal that comes again, from any state and after anything, is ignored for good exactly when it is the
      last one recorded, or the state is exhausted, or every delivery is refused: the state is beyond the safe
      integers, or the hint of the signal is malformed. */
  lemma ReplayIsNoop(st: State, signal: Signal, now: int, p: BackoffPolicy)
    requires Sane(st) && ValidSignal(signal) && IsInstant(now) && ValidPolicy(p)
    ensures NeverCounts(st, signal, now, p) <==>
        IsRecognised(st, signal) || !ValidState(st) || ProviderDelay(signal, now, p).Err?
  {
    assert forall later :: ProviderDelay(signal, later, p).Err? <==> ProviderDelay(signal, now, p).Err?;
    hide WithJitter, FallbackDelay, ProviderDelay;
    if !IsRecognised(st, signal) && ValidState(st) && ProviderDelay(signal, now, p).Ok? {
      var later := if st.status == Backoff then Max(now, st.resumeAt.value) else now;
      assert ProviderDelay(signal, later, p).Ok?;
      assert OnQuotaHit(st, signal, later, 0.0, p, None).Ok?;
      ChangesUnlessSwallowed(st, signal, later, 0.0, p, None);
    }
  }

  /** A concrete case: a signal without a date is swallowed by a burst, then counts as a hit when it is
      delivered again after the resume date. */
  lemma BurstForgetsSignal()
    ensures var p := BackoffPolicy(1000, 60_000, 0.0, 5, None);
            var signal := Signal(RateWindow, Strong, None, None, None, Some("s"));
            var st := START.(status := Backoff, resumeAt := Some(2000), lastHitAt := Some(1000), consecutiveHits := 1);
            && OnQuotaHit(st, signal, 1500, 0.0, p, None) == Ok(st)
            && OnQuotaHit(st, signal, 2000, 0.0, p, None).Ok?
            && OnQuotaHit(st, signal, 2000, 0.0, p, None).value.consecutiveHits == 2
  {
    assert IsText("s") by { assert !IsBlank("s"[0]); }
  }

  /** A concrete case: only the last recorded signal is recognised. The first of two signals counts again
      when it is delivered a second time after the other one. */
  lemma OtherSignalForgets()
    ensures var p := BackoffPolicy(1000, 60_000, 0.0, 5, None);
            var a := Signal(RateWindow, Strong, None, None, None, Some("a"));
            var b := a.(id := Some("b"));
            var first := OnQuotaHit(START, a, 0, 0.0, p, None);
            && first.Ok? && first.value.lastSignalId == Some("a")
            && var second := OnQuotaHit(first.value, b, 2000, 0.0, p, None);
               && second.Ok? && second.value.lastSignalId == Some("b")
               && var again := OnQuotaHit(second.value, a, 100_000, 0.0, p, None);
                  again.Ok? && again.value.consecutiveHits == 3
  {
    assert IsText("a") by { assert !IsBlank("a"[0]); }
    assert IsText("b") by { assert !IsBlank("b"[0]); }
    var p := BackoffPolicy(1000, 60_000, 0.0, 5, None);
    assert FallbackDelay(0, p) == 1000;
    assert FallbackDelay(1, p) == 2000 by { assert Power2(1) == 2; }
  }
}
