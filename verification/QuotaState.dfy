/** The shared quota state, its fixed usage windows and the earliest allowed start
    (packages/delivery/src/quota-state.ts, quota-window.ts, quota-policy.ts, quota-check.ts). */
module QuotaState {
  import opened Common

  const DAY_MS: int := 86_400_000

  datatype QuotaError = InvalidQuota | StaleQuota(expected: nat, actual: nat)

  datatype QuotaStatus = Ready | Backoff | Exhausted

  datatype WindowCount = WindowCount(start: int, runs: nat, tokens: nat)

  /** One value per runner; instants are epoch milliseconds. */
  datatype State = State(status: QuotaStatus, resumeAt: Option<int>, consecutiveHits: nat, lastHitAt: Option<int>,
                         lastSignalId: Option<string>, windows: map<string, WindowCount>, usageIds: seq<string>,
                         version: nat)

  const START := State(Ready, None, 0, None, None, map[], [], 0)

  datatype Scope = Scope(organization: string, project: Option<string>, agent: Option<string>)

  datatype Caps = Caps(maxRuns: Option<nat>, maxTokens: Option<nat>)

  datatype UsagePolicy = UsagePolicy(windowMs: int, maxSeenIds: int, organization: Option<Caps>,
                                     project: Option<Caps>, agent: Option<Caps>)

  datatype Usage = Usage(id: string, scope: Scope, runs: nat, tokens: nat)

  predicate IsInstant(now: int) { 0 <= now <= MAX_SAFE_INTEGER }

  /** An organisation has no slash, so that keys below stay unambiguous. */
  predicate ValidScope(s: Scope) {
    IsText(s.organization) && '/' !in s.organization && IsOptionalText(s.project) && IsOptionalText(s.agent)
  }

  predicate ValidUsagePolicy(p: UsagePolicy) {
    0 < p.windowMs <= MAX_SAFE_INTEGER && 0 < p.maxSeenIds <= 1000
  }

  function AssertFresh(actual: nat, expected: Option<nat>): Option<QuotaError> {
    if expected.Some? && expected.value != actual then Some(StaleQuota(expected.value, actual)) else None
  }

  // ---------- windows ----------

  /** Start of the aligned window that holds `now`. */
  function WindowStart(now: int, windowMs: int): int
    requires windowMs > 0
  {
    now / windowMs * windowMs
  }

  datatype Level = OrganizationLevel | ProjectLevel | AgentLevel

  predicate HasLevel(s: Scope, l: Level) {
    match l case OrganizationLevel => true case ProjectLevel => s.project.Some? case AgentLevel => s.agent.Some?
  }

  function KeyOf(s: Scope, l: Level): string
    requires HasLevel(s, l)
  {
    match l
    case OrganizationLevel => "o:" + s.organization
    case ProjectLevel => "p:" + s.organization + "/" + s.project.value
    case AgentLevel => "a:" + s.organization + "/" + s.agent.value
  }

  /** Levels present in a scope, from the widest. */
  function LevelsOf(s: Scope): seq<Level> {
    [OrganizationLevel]
    + (if s.project.Some? then [ProjectLevel] else [])
    + (if s.agent.Some? then [AgentLevel] else [])
  }

  lemma LevelsMembers(s: Scope, l: Level)
    ensures l in LevelsOf(s) <==> HasLevel(s, l)
  {
  }

  /** An expired or absent window counts nothing. */
  function CurrentCount(windows: map<string, WindowCount>, key: string, start: int): WindowCount {
    if key in windows && windows[key].start == start then windows[key] else WindowCount(start, 0, 0)
  }

  function CapsOf(p: UsagePolicy, l: Level): Option<Caps> {
    match l case OrganizationLevel => p.organization case ProjectLevel => p.project case AgentLevel => p.agent
  }

  /** A cap of zero is always reached. */
  predicate IsReached(count: WindowCount, caps: Caps) {
    || (caps.maxRuns.Some? && count.runs >= caps.maxRuns.value)
    || (caps.maxTokens.Some? && count.tokens >= caps.maxTokens.value)
  }

  predicate LevelReached(st: State, start: int, s: Scope, p: UsagePolicy, l: Level) {
    HasLevel(s, l) && CapsOf(p, l).Some? && IsReached(CurrentCount(st.windows, KeyOf(s, l), start), CapsOf(p, l).value)
  }

  predicate SomeReached(st: State, start: int, s: Scope, p: UsagePolicy) {
    exists l :: l in LevelsOf(s) && LevelReached(st, start, s, p, l)
  }

  function CapsFreeAt(st: State, now: int, s: Scope, p: UsagePolicy): int
    requires p.windowMs > 0
  {
    var start := WindowStart(now, p.windowMs);
    if SomeReached(st, start, s, p) then start + p.windowMs else now
  }

  // ---------- earliest start ----------

  predicate ValidCall(now: int, s: Scope, p: Option<UsagePolicy>) {
    IsInstant(now) && ValidScope(s) && (p.Some? ==> ValidUsagePolicy(p.value))
  }

  /** `now` if free, a later instant, or nothing while a human has to intervene. */
  function Allowed(st: State, now: int, s: Scope, p: Option<UsagePolicy>): Option<int>
    requires p.Some? ==> p.value.windowMs > 0
  {
    if st.status == Exhausted then None
    else
      var inBackoff := st.status == Backoff && st.resumeAt.Some? && now < st.resumeAt.value;
      var backoffUntil := if inBackoff then st.resumeAt.value else now;
      var capsUntil := if p.None? then now else CapsFreeAt(st, now, s, p.value);
      Some(Max(backoffUntil, capsUntil))
  }

  function NextAllowedAt(st: State, now: int, s: Scope, p: Option<UsagePolicy>): Result<Option<int>, QuotaError> {
    if ValidCall(now, s, p) then Ok(Allowed(st, now, s, p)) else Err(InvalidQuota)
  }

  predicate CanStart(st: State, now: int, s: Scope, p: Option<UsagePolicy>)
    requires p.Some? ==> p.value.windowMs > 0
  {
    Allowed(st, now, s, p) == Some(now)
  }

  datatype Decision = StartNow | Wait(until: int) | Halt

  function QuotaDecision(st: State, now: int, s: Scope, p: Option<UsagePolicy>): Result<Decision, QuotaError> {
    var until := NextAllowedAt(st, now, s, p);
    if until.Err? then Err(until.error)
    else if until.value.None? then Ok(Halt)
    else Ok(if until.value.value == now then StartNow else Wait(until.value.value))
  }

  /** Human reset; no effect on a state already free. */
  function ClearQuota(st: State, expected: Option<nat>): Result<State, QuotaError> {
    if AssertFresh(st.version, expected).Some? then Err(AssertFresh(st.version, expected).value)
    else if st.status == Ready && st.consecutiveHits == 0 then Ok(st)
    else Ok(st.(status := Ready, resumeAt := None, consecutiveHits := 0, version := st.version + 1))
  }

  // ---------- properties of windows and starts ----------

  lemma WindowStartBounds(now: int, w: int)
    requires w > 0
    ensures WindowStart(now, w) <= now < WindowStart(now, w) + w
  {
    assert now == now / w * w + now % w;
  }

  lemma TimesMonotone(a: int, b: int, w: int)
    requires a <= b && w > 0
    ensures a * w <= b * w
  {
    assert (b - a) * w >= 0;
  }

  lemma WindowStartUnique(now: int, w: int, k: int)
    requires w > 0 && k * w <= now < k * w + w
    ensures WindowStart(now, w) == k * w
  {
    var q := now / w;
    WindowStartBounds(now, w);
    if q > k {
      TimesMonotone(k + 1, q, w);
    } else if q < k {
      TimesMonotone(q + 1, k, w);
    }
  }

  lemma WindowStartMonotone(a: int, b: int, w: int)
    requires w > 0 && a <= b
    ensures WindowStart(a, w) <= WindowStart(b, w)
    ensures b < WindowStart(a, w) + w ==> WindowStart(b, w) == WindowStart(a, w)
    ensures b >= WindowStart(a, w) + w ==> WindowStart(b, w) > WindowStart(a, w)
  {
    WindowStartBounds(a, w);
    WindowStartBounds(b, w);
    if b < WindowStart(a, w) + w {
      WindowStartUnique(b, w, a / w);
    }
  }

  /** Text before the first slash and text after it are determined by the whole. */
  lemma SlashSplit(a: string, x: string, b: string, y: string)
    requires '/' !in a && '/' !in b && a + "/" + x == b + "/" + y
    ensures a == b && x == y
  {
    var s, t := a + "/" + x, b + "/" + y;
    assert s[|a|] == '/' && t[|b|] == '/';
    assert |a| == |b| by {
      assert forall i :: 0 <= i < |a| ==> s[i] == a[i];
      assert forall i :: 0 <= i < |b| ==> t[i] == b[i];
    }
    assert a == s[..|a|] && b == t[..|b|] && x == s[|a| + 1..] && y == t[|b| + 1..];
  }

  /** A window key tells its level and everything the level looks at: scopes never share a key by accident. */
  lemma KeysAreInjective(s: Scope, l: Level, s': Scope, l': Level)
    requires ValidScope(s) && ValidScope(s') && HasLevel(s, l) && HasLevel(s', l') && KeyOf(s, l) == KeyOf(s', l')
    ensures l == l' && s.organization == s'.organization
    ensures l == ProjectLevel ==> s.project == s'.project
    ensures l == AgentLevel ==> s.agent == s'.agent
  {
    var k, k' := KeyOf(s, l), KeyOf(s', l');
    assert k[0] == k'[0];
    match l
    case OrganizationLevel =>
      assert s.organization == k[2..] && s'.organization == k'[2..];
    case ProjectLevel =>
      assert k[2..] == s.organization + "/" + s.project.value && k'[2..] == s'.organization + "/" + s'.project.value;
      SlashSplit(s.organization, s.project.value, s'.organization, s'.project.value);
    case AgentLevel =>
      assert k[2..] == s.organization + "/" + s.agent.value && k'[2..] == s'.organization + "/" + s'.agent.value;
      SlashSplit(s.organization, s.agent.value, s'.organization, s'.agent.value);
  }

  predicate NoFutureWindow(st: State, now: int, w: int)
    requires w > 0
  {
    forall k :: k in st.windows ==> st.windows[k].start <= WindowStart(now, w)
  }

  predicate ZeroCap(p: UsagePolicy, l: Level) {
    CapsOf(p, l).Some? && (CapsOf(p, l).value.maxRuns == Some(0) || CapsOf(p, l).value.maxTokens == Some(0))
  }

  predicate SomeZeroCap(s: Scope, p: UsagePolicy) {
    exists l :: l in LevelsOf(s) && ZeroCap(p, l)
  }

  /** No instant before the answer can start, whatever the windows hold. */
  lemma NothingEarlier(st: State, now: int, t: int, s: Scope, p: Option<UsagePolicy>)
    requires p.Some? ==> p.value.windowMs > 0
    requires now <= t && (Allowed(st, now, s, p).None? || t < Allowed(st, now, s, p).value)
    ensures !CanStart(st, t, s, p)
  {
    if p.Some? && st.status != Exhausted {
      WindowStartMonotone(now, t, p.value.windowMs);
      WindowStartBounds(t, p.value.windowMs);
    }
  }

  lemma ZeroCapBlocks(st: State, start: int, s: Scope, p: UsagePolicy)
    requires SomeZeroCap(s, p)
    ensures SomeReached(st, start, s, p)
  {
  }

  /** The level has a cap that is already reached in a stored window later than that of `now`: the very
      window that holds `at`. */
  predicate ReachedAhead(st: State, now: int, at: int, s: Scope, p: UsagePolicy, l: Level)
    requires p.windowMs > 0
  {
    && HasLevel(s, l) && CapsOf(p, l).Some? && KeyOf(s, l) in st.windows
    && var stored := st.windows[KeyOf(s, l)];
       stored.start == WindowStart(at, p.windowMs) > WindowStart(now, p.windowMs)
           && IsReached(stored, CapsOf(p, l).value)
  }

  predicate SomeReachedAhead(st: State, now: int, at: int, s: Scope, p: UsagePolicy)
    requires p.windowMs > 0
  {
    exists l :: l in LevelsOf(s) && ReachedAhead(st, now, at, s, p, l)
  }

  /** The answer is exact: the announced instant can start exactly when no applicable cap is zero and none
      is already reached in a window stored ahead of the clock. */
  lemma AnswerIsExact(st: State, now: int, s: Scope, p: UsagePolicy)
    requires p.windowMs > 0 && st.status != Exhausted
    ensures var at := Allowed(st, now, s, Some(p)).value;
            CanStart(st, at, s, Some(p)) <==> !SomeZeroCap(s, p) && !SomeReachedAhead(st, now, at, s, p)
    ensures CanStart(st, Allowed(st, now, s, None).value, s, None)
  {
    var w, at := p.windowMs, Allowed(st, now, s, Some(p)).value;
    WindowStartBounds(now, w);
    WindowStartMonotone(now, at, w);
    WindowStartBounds(at, w);
    if SomeZeroCap(s, p) {
      ZeroCapBlocks(st, WindowStart(at, w), s, p);
    }
    if SomeReachedAhead(st, now, at, s, p) {
      var l :| l in LevelsOf(s) && ReachedAhead(st, now, at, s, p, l);
      assert LevelReached(st, WindowStart(at, w), s, p, l);
    }
  }

  /** With no stored window in the future, only a cap of zero can mislead. */
  lemma AnswerWithoutFutureWindow(st: State, now: int, s: Scope, p: UsagePolicy)
    requires p.windowMs > 0 && st.status != Exhausted && NoFutureWindow(st, now, p.windowMs)
    ensures CanStart(st, Allowed(st, now, s, Some(p)).value, s, Some(p)) <==> !SomeZeroCap(s, p)
  {
    hide WindowStart, Allowed, CanStart;
    AnswerIsExact(st, now, s, p);
  }

  /** Why a cap of zero has to be excluded: the wait it announces never ends. */
  lemma ZeroCapNeverStarts(st: State, t: int, s: Scope, p: UsagePolicy)
    requires p.windowMs > 0 && SomeZeroCap(s, p)
    ensures !CanStart(st, t, s, Some(p))
  {
    ZeroCapBlocks(st, WindowStart(t, p.windowMs), s, p);
    WindowStartBounds(t, p.windowMs);
  }

  /** Why stored windows must not lie in the future: a concrete state where the announced instant is
      blocked by a window that was recorded ahead of the clock. */
  lemma FutureWindowMisleads()
    ensures var s := Scope("acme", None, None);
            var p := UsagePolicy(10, 5, Some(Caps(Some(1), None)), None, None);
            var full := map["o:acme" := WindowCount(10, 1, 0)];
            var st := START.(status := Backoff, resumeAt := Some(12), windows := full);
            !SomeZeroCap(s, p) && Allowed(st, 3, s, Some(p)) == Some(12) && !CanStart(st, 12, s, Some(p))
  {
    var s := Scope("acme", None, None);
    var p := UsagePolicy(10, 5, Some(Caps(Some(1), None)), None, None);
    var st := START.(status := Backoff, resumeAt := Some(12), windows := map["o:acme" := WindowCount(10, 1, 0)]);
    assert LevelsOf(s) == [OrganizationLevel];
    assert KeyOf(s, OrganizationLevel) == "o:acme";
    assert WindowStart(3, 10) == 0 && WindowStart(12, 10) == 10;
    assert !LevelReached(st, 0, s, p, OrganizationLevel) && !SomeReached(st, 0, s, p);
    assert LevelReached(st, 10, s, p, OrganizationLevel) && OrganizationLevel in LevelsOf(s);
    assert SomeReached(st, 10, s, p);
  }

  /** A call is refused exactly when its instant, scope or policy is malformed. A decision to wait names a
      later instant before which nothing can start; a halt means that only a human can help: no instant at
      all can start. */
  lemma DecisionMeaning(st: State, now: int, t: int, s: Scope, p: Option<UsagePolicy>)
    ensures QuotaDecision(st, now, s, p).Err? <==> !ValidCall(now, s, p)
    ensures ValidCall(now, s, p) ==>
        var d := QuotaDecision(st, now, s, p).value;
        && (d.StartNow? <==> CanStart(st, now, s, p))
        && (d.Halt? ==> !CanStart(st, t, s, p))
        && (d.Wait? ==> d.until > now && (now <= t < d.until ==> !CanStart(st, t, s, p)))
  {
    if ValidCall(now, s, p) {
      if p.Some? {
        WindowStartBounds(now, p.value.windowMs);
      }
      var d := QuotaDecision(st, now, s, p).value;
      if d.Wait? && now <= t < d.until {
        NothingEarlier(st, now, t, s, p);
      }
    }
  }
}
