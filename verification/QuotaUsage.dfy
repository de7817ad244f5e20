/** Recording consumption in fixed windows (packages/delivery/src/quota-usage.ts,
    packages/delivery/src/quota-usage-check.ts). */
module QuotaUsage {
  import opened Common
  import opened QuotaState

  type Windows = map<string, WindowCount>

  predicate Overflows(count: WindowCount, u: Usage) {
    count.runs + u.runs > MAX_SAFE_INTEGER || count.tokens + u.tokens > MAX_SAFE_INTEGER
  }

  function Plus(count: WindowCount, u: Usage): WindowCount {
    WindowCount(count.start, count.runs + u.runs, count.tokens + u.tokens)
  }

  function KeysOf(s: Scope): set<string> {
    set l | l in LevelsOf(s) && HasLevel(s, l) :: KeyOf(s, l)
  }

  /** Expired windows are dropped, every level of the scope is counted in the current one. */
  function Added(windows: Windows, u: Usage, start: int): Result<Windows, QuotaError> {
    if exists k :: k in KeysOf(u.scope) && Overflows(CurrentCount(windows, k, start), u) then Err(InvalidQuota)
    else
      var kept := map k | k in windows && windows[k].start >= start :: windows[k];
      Ok(kept + map k | k in KeysOf(u.scope) :: Plus(CurrentCount(windows, k, start), u))
  }

  /** The usage would take a counter of this level beyond the safe integers. */
  predicate IsTooMuch(windows: Windows, u: Usage, start: int, l: Level)
    requires HasLevel(u.scope, l)
  {
    var key := KeyOf(u.scope, l);
    if key in windows && windows[key].start == start
    then windows[key].runs + u.runs > MAX_SAFE_INTEGER || windows[key].tokens + u.tokens > MAX_SAFE_INTEGER
    else u.runs > MAX_SAFE_INTEGER || u.tokens > MAX_SAFE_INTEGER
  }

  /** A usage is refused exactly when it is too much for a level of its scope; one that is not is counted at every
      level and at no other key, from nothing when the window is a new one. */
  lemma UsageIsAdded(windows: Windows, u: Usage, start: int)
    ensures Added(windows, u, start).Err? <==> exists l :: HasLevel(u.scope, l) && IsTooMuch(windows, u, start, l)
    ensures Added(windows, u, start).Ok? ==>
        var next := Added(windows, u, start).value;
        && (forall l :: HasLevel(u.scope, l) ==>
              var key := KeyOf(u.scope, l);
              var goesOn := key in windows && windows[key].start == start;
              var runs, tokens := if goesOn then windows[key].runs else 0, if goesOn then windows[key].tokens else 0;
              key in next && next[key] == WindowCount(start, runs + u.runs, tokens + u.tokens))
        && (forall k :: (forall l :: HasLevel(u.scope, l) ==> KeyOf(u.scope, l) != k) ==>
              && (k in next <==> k in windows && windows[k].start >= start)
              && (k in next ==> next[k] == windows[k]))
  {
    hide KeyOf, LevelsOf, HasLevel;
    forall l | HasLevel(u.scope, l) ensures KeyOf(u.scope, l) in KeysOf(u.scope) {
      LevelsMembers(u.scope, l);
    }
  }

  /** The same as a loop over the levels that fills a new record. */
  method AddToWindows(windows: Windows, u: Usage, start: int) returns (r: Result<Windows, QuotaError>)
    ensures r == Added(windows, u, start)
  {
    hide LevelsOf, KeyOf, CurrentCount, Overflows, Plus;
    var kept: Windows := map k | k in windows && windows[k].start >= start :: windows[k];
    var next, levels := kept, LevelsOf(u.scope);
    ghost var done: set<string> := {};
    for i := 0 to |levels|
      invariant forall j :: 0 <= j < i ==> HasLevel(u.scope, levels[j]) && KeyOf(u.scope, levels[j]) in done
      invariant done <= KeysOf(u.scope)
      invariant forall k :: k in done ==> !Overflows(CurrentCount(windows, k, start), u)
      invariant next.Keys == kept.Keys + done
      invariant forall k :: k in next ==>
          next[k] == if k in done then Plus(CurrentCount(windows, k, start), u) else kept[k]
    {
      LevelsMembers(u.scope, levels[i]);
      var key := KeyOf(u.scope, levels[i]);
      assert key in KeysOf(u.scope);
      var count := CurrentCount(windows, key, start);
      if Overflows(count, u) {
        return Err(InvalidQuota);
      }
      next := next[key := Plus(count, u)];
      done := done + {key};
    }
    assert done == KeysOf(u.scope);
    assert next == kept + map k | k in KeysOf(u.scope) :: Plus(CurrentCount(windows, k, start), u);
    r := Ok(next);
  }

  /** A usage after the resume date ends the backoff. */
  predicate Recovered(st: State, now: int) {
    st.status == Backoff && st.resumeAt.Some? && now >= st.resumeAt.value
  }

  predicate ValidUse(u: Usage, now: int, p: UsagePolicy) {
    && IsInstant(now) && ValidUsagePolicy(p) && IsText(u.id) && ValidScope(u.scope)
    && u.runs <= MAX_SAFE_INTEGER && u.tokens <= MAX_SAFE_INTEGER
  }

  function LastOf(ids: seq<string>, n: int): seq<string>
    requires n > 0
  {
    if |ids| <= n then ids else ids[|ids| - n..]
  }

  /** Counts a usage once per remembered id. */
  function RecordUsage(st: State, u: Usage, now: int, p: UsagePolicy, expected: Option<nat>): Result<State, QuotaError>
  {
    if !ValidUse(u, now, p) then Err(InvalidQuota)
    else if u.id in st.usageIds then Ok(st)
    else if AssertFresh(st.version, expected).Some? then Err(AssertFresh(st.version, expected).value)
    else
      var windows := Added(st.windows, u, WindowStart(now, p.windowMs));
      if windows.Err? then Err(windows.error)
      else
        var reset := if Recovered(st, now) then st.(status := Ready, resumeAt := None, consecutiveHits := 0) else st;
        Ok(reset.(windows := windows.value, usageIds := LastOf(st.usageIds + [u.id], p.maxSeenIds),
            version := st.version + 1))
  }

  predicate Counted(st: State, u: Usage, now: int, p: UsagePolicy, expected: Option<nat>) {
    RecordUsage(st, u, now, p, expected).Ok? && u.id !in st.usageIds
  }

  /** A usage just recorded is recognised when it comes again, whatever the policy or version it comes
      with; at most the configured number of ids is remembered. */
  lemma RepeatedUsageIsIgnored(st: State, u: Usage, now: int, p: UsagePolicy, expected: Option<nat>,
                               later: int, q: UsagePolicy, stale: Option<nat>)
    requires RecordUsage(st, u, now, p, expected).Ok? && ValidUse(u, later, q)
    ensures var after := RecordUsage(st, u, now, p, expected).value;
            && RecordUsage(after, u, later, q, stale) == Ok(after)
            && (|st.usageIds| <= p.maxSeenIds ==> |after.usageIds| <= p.maxSeenIds)
  {
    if u.id !in st.usageIds {
      var ids := st.usageIds + [u.id];
      assert ids[|ids| - 1] == u.id;
      var kept := LastOf(ids, p.maxSeenIds);
      assert kept[|kept| - 1] == u.id;
    }
  }
}
