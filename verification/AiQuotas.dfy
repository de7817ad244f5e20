/** The hourly quotas hold in every run: no scope ever admits more than its cap in any trailing hour
    (apps/api/src/ai/ai-ledger.ts). */
module AiQuotas {
  import opened Common
  import opened AiLedger
  import opened AiAdmissions

  predicate IsAdmitted(r: Row, organization: string, s: Scope, after: int) {
    r.admitted && InScope(r, organization, s) && r.at > after
  }

  /** Admitted lines of a scope later than an instant. */
  function AdmittedSince(log: seq<Row>, organization: string, s: Scope, after: int): nat {
    if log == [] then 0
    else
      AdmittedSince(log[..|log| - 1], organization, s, after)
      + if IsAdmitted(log[|log| - 1], organization, s, after) then 1 else 0
  }

  /** Admitted lines of a scope in the hour that ends at `t`. */
  function AdmittedInHour(log: seq<Row>, organization: string, s: Scope, t: int): nat {
    if log == [] then 0
    else
      var last := log[|log| - 1];
      AdmittedInHour(log[..|log| - 1], organization, s, t)
      + if IsAdmitted(last, organization, s, t - WINDOW_MS) && last.at <= t then 1 else 0
  }

  lemma {:induction false} AdmittedBounds(log: seq<Row>, organization: string, s: Scope, after: int, t: int)
    ensures AdmittedSince(log, organization, s, after) <= Count(log, organization, s, after)
    ensures after <= t - WINDOW_MS ==>
        AdmittedInHour(log, organization, s, t) <= AdmittedSince(log, organization, s, after)
  {
    if log != [] {
      AdmittedBounds(log[..|log| - 1], organization, s, after, t);
    }
  }

  lemma AdmittedAppend(log: seq<Row>, r: Row, organization: string, s: Scope, after: int, t: int)
    ensures AdmittedSince(log + [r], organization, s, after)
         == AdmittedSince(log, organization, s, after) + if IsAdmitted(r, organization, s, after) then 1 else 0
    ensures AdmittedInHour(log + [r], organization, s, t)
         == AdmittedInHour(log, organization, s, t)
            + if IsAdmitted(r, organization, s, t - WINDOW_MS) && r.at <= t then 1 else 0
  {
    assert (log + [r])[..|log|] == log;
  }

  /** The scopes of a call are the only ones its line can fall in. */
  lemma LineFallsInOwnScopes(kind: Kind, user: string, action: string, kind': Kind, user': string, l: Limits, s: Scope)
    requires ActionFits(kind, action) && s in ScopesOf(kind', user', l)
    requires (if s.byPrefix then s.action <= action else s.action == action) && (s.actor.None? || s.actor.value == user)
    ensures s in ScopesOf(kind, user, l)
  {
    assert VERIFY_ACTION[0] == 'l' && AI_PREFIX[0] == 'a';
    assert !(AI_PREFIX <= VERIFY_ACTION);
    if kind == Verify {
      assert s == ScopesOf(kind, user, l)[0];
    } else {
      assert action[0] == 'a';
      assert kind' == AiCall;
      if s == ScopesOf(kind', user', l)[0] {
        assert s == ScopesOf(kind, user, l)[0];
      } else {
        assert s == ScopesOf(kind, user, l)[1];
      }
    }
  }

  /** No scope holds more admitted lines than its cap in any trailing hour. */
  ghost predicate WithinQuota(s: Server) {
    forall o, kind, user, scope, t :: scope in ScopesOf(kind, user, s.limits) ==>
        AdmittedInHour(s.log, o, scope, t) <= scope.limit
  }

  /** A call that counted free places in all its scopes still has them. */
  ghost predicate HasRoom(s: Server, c: Call) {
    c.phase.Counted? && c.phase.wait == 0 ==>
      c.phase.at <= s.now && forall scope :: scope in ScopesOf(c.kind, c.user, s.limits) ==>
        AdmittedSince(s.log, c.organization, scope, c.phase.at - WINDOW_MS) < scope.limit
  }

  ghost predicate Safe(s: Server) {
    && Chained(s) && WithinQuota(s)
    && (forall i :: 0 <= i < |s.calls| ==> HasRoom(s, s.calls[i]) && ActionFits(s.calls[i].kind, s.calls[i].action))
  }

  lemma {:induction false} NoWaitMeansRoom(log: seq<Row>, organization: string, scopes: seq<Scope>, now: int,
                                           scope: Scope)
    requires LongestWait(log, organization, scopes, now) == 0 && scope in scopes
    ensures AdmittedSince(log, organization, scope, now - WINDOW_MS) < scope.limit
  {
    if scope == scopes[0] {
      AdmittedBounds(log, organization, scope, now - WINDOW_MS, now);
      assert WaitFor(log, organization, scope, now) == 0;
    } else {
      assert scopes == [scopes[0]] + scopes[1..];
      NoWaitMeansRoom(log, organization, scopes[1..], now, scope);
    }
  }

  /** Writing the line of a call that had room keeps every scope within its cap, in every hour. */
  lemma AdmissionKeepsQuota(s: Server, i: nat)
    requires Safe(s) && i < |s.calls| && s.calls[i].phase.Counted? && s.calls[i].phase.wait == 0
    ensures var c := s.calls[i];
            WithinQuota(s.(log := s.log + [Row(c.organization, c.action, c.user, s.now, true)]))
  {
    var c := s.calls[i];
    var r := Row(c.organization, c.action, c.user, s.now, true);
    forall o, kind, user, scope, t | scope in ScopesOf(kind, user, s.limits)
      ensures AdmittedInHour(s.log + [r], o, scope, t) <= scope.limit
    {
      AdmittedAppend(s.log, r, o, scope, 0, t);
      assert AdmittedInHour(s.log, o, scope, t) <= scope.limit;
      if IsAdmitted(r, o, scope, t - WINDOW_MS) && r.at <= t {
        LineFallsInOwnScopes(c.kind, c.user, c.action, kind, user, s.limits, scope);
        AdmittedBounds(s.log, o, scope, c.phase.at - WINDOW_MS, t);
        assert HasRoom(s, c);
      }
    }
  }

  lemma OtherQueuesKeepRoom(s: Server, i: nat, j: nat)
    requires Safe(s) && i < |s.calls| && j < |s.calls| && i != j && s.calls[i].phase.Counted?
    ensures var c := s.calls[i];
            HasRoom(s.(log := s.log + [Row(c.organization, c.action, c.user, s.now, true)]), s.calls[j])
  {
    var c, d := s.calls[i], s.calls[j];
    if d.phase.Counted? && d.phase.wait == 0 {
      assert c.organization != d.organization by {
        if c.organization == d.organization { OneAtATime(s, i, j); }
      }
      assert HasRoom(s, d);
      forall scope | scope in ScopesOf(d.kind, d.user, s.limits)
        ensures AdmittedSince(s.log + [Row(c.organization, c.action, c.user, s.now, true)], d.organization, scope,
            d.phase.at - WINDOW_MS) < scope.limit
      {
        AdmittedAppend(s.log, Row(c.organization, c.action, c.user, s.now, true), d.organization, scope,
            d.phase.at - WINDOW_MS, 0);
      }
    }
  }

  lemma SameRoom(a: Server, b: Server, c: Call)
    requires HasRoom(a, c) && a.log == b.log && a.limits == b.limits && a.now <= b.now
    ensures HasRoom(b, c)
  {
  }

  lemma OneDone(s: Server, c: Call)
    ensures c.phase == Done ==> HasRoom(s, c)
  {
  }

  lemma SameLogSameQuota(a: Server, b: Server)
    requires WithinQuota(a) && a.log == b.log && a.limits == b.limits
    ensures WithinQuota(b)
  {
  }

  lemma FinishKeepsSafe(s: Server, i: nat, fails: bool)
    requires Safe(s)
    ensures Safe(Apply(s, Finish(i, fails)))
  {
    var s' := Apply(s, Finish(i, fails));
    StepKeepsChain(s, Finish(i, fails));
    if i < |s.calls| && s.calls[i].phase.Counted? && s.calls[i].phase.wait == 0 && !fails {
      AdmissionKeepsQuota(s, i);
      hide WithinQuota, Chained, HasRoom, ActionFits;
      OneDone(s', s'.calls[i]);
      SameLogSameQuota(s.(log := s'.log), s');
      forall j | 0 <= j < |s.calls| ensures HasRoom(s', s'.calls[j]) {
        if j != i {
          OtherQueuesKeepRoom(s, i, j);
          SameRoom(s.(log := s'.log), s', s.calls[j]);
        }
      }
    } else {
      hide WithinQuota, Chained, HasRoom, ActionFits;
      SameLogSameQuota(s, s');
      forall j | 0 <= j < |s.calls| ensures HasRoom(s', s'.calls[j]) {
        OneDone(s', s'.calls[j]);
        SameRoom(s, s', s.calls[j]);
      }
    }
  }

  lemma OtherLineKeepsSafe(s: Server, o: string, action: string, user: string)
    requires Safe(s)
    ensures Safe(Apply(s, OtherLine(o, action, user)))
  {
    var r := Row(o, action, user, s.now, false);
    var s' := Apply(s, OtherLine(o, action, user));
    StepKeepsChain(s, OtherLine(o, action, user));
    forall o', kind, user', scope, t | scope in ScopesOf(kind, user', s.limits)
      ensures AdmittedInHour(s'.log, o', scope, t) <= scope.limit
    {
      AdmittedAppend(s.log, r, o', scope, 0, t);
      assert AdmittedInHour(s.log, o', scope, t) <= scope.limit;
    }
    forall i | 0 <= i < |s.calls| ensures HasRoom(s', s.calls[i]) {
      var c := s.calls[i];
      assert HasRoom(s, c);
      if c.phase.Counted? && c.phase.wait == 0 {
        forall scope | scope in ScopesOf(c.kind, c.user, s.limits)
          ensures AdmittedSince(s'.log, c.organization, scope, c.phase.at - WINDOW_MS) < scope.limit
        {
          AdmittedAppend(s.log, r, c.organization, scope, c.phase.at - WINDOW_MS, 0);
        }
      }
    }
  }

  lemma CountedHasRoom(s: Server, c: Call)
    requires c.phase == Counted(LongestWait(s.log, c.organization, ScopesOf(c.kind, c.user, s.limits), s.now), s.now)
    ensures HasRoom(s, c)
  {
    if c.phase.wait == 0 {
      forall scope | scope in ScopesOf(c.kind, c.user, s.limits)
        ensures AdmittedSince(s.log, c.organization, scope, s.now - WINDOW_MS) < scope.limit
      {
        NoWaitMeansRoom(s.log, c.organization, ScopesOf(c.kind, c.user, s.limits), s.now, scope);
      }
    }
  }

  lemma BeginKeepsSafe(s: Server, i: nat)
    requires Safe(s)
    ensures Safe(Apply(s, Begin(i)))
  {
    var s' := Apply(s, Begin(i));
    StepKeepsChain(s, Begin(i));
    if i < |s.calls| && MayBegin(s, i) {
      var scopes := ScopesOf(s.calls[i].kind, s.calls[i].user, s.limits);
      assert s'.calls[i].phase == Counted(LongestWait(s.log, s.calls[i].organization, scopes, s.now), s.now);
      hide WithinQuota, Chained, LongestWait, ScopesOf, ActionFits, HasRoom, MayBegin;
      SameLogSameQuota(s, s');
      CountedHasRoom(s', s'.calls[i]);
      forall j | 0 <= j < |s.calls| && j != i ensures HasRoom(s', s'.calls[j]) {
        SameRoom(s, s', s.calls[j]);
      }
    }
  }

  lemma StepKeepsSafe(s: Server, step: Step)
    requires Safe(s)
    ensures Safe(Apply(s, step))
  {
    match step
    case Begin(i) => BeginKeepsSafe(s, i);
    case Finish(i, fails) => FinishKeepsSafe(s, i, fails);
    case OtherLine(o, action, user) => OtherLineKeepsSafe(s, o, action, user);
    case _ =>
      StepKeepsChain(s, step);
      hide WithinQuota, Chained;
      SameLogSameQuota(s, Apply(s, step));
      forall i | 0 <= i < |s.calls| ensures HasRoom(Apply(s, step), s.calls[i]) {
        SameRoom(s, Apply(s, step), s.calls[i]);
      }
  }

  /** In every run, with any interleaving of the two halves of admissions, clean-ups of the queues and
      audit lines written by others, at most `limit` admitted lines lie in any trailing hour of any scope. */
  lemma {:induction false} QuotasAlwaysHold(limits: Limits, now: int, steps: seq<Step>)
    ensures Safe(Run(limits, now, steps))
  {
    if steps == [] {
      assert forall o, scope, t :: AdmittedInHour([], o, scope, t) == 0;
    } else {
      QuotasAlwaysHold(limits, now, steps[..|steps| - 1]);
      StepKeepsSafe(Run(limits, now, steps[..|steps| - 1]), steps[|steps| - 1]);
    }
  }

  /** In every run, whatever call is unfinished, some call of its organisation can take its next step. */
  lemma NoQueueStalls(limits: Limits, now: int, steps: seq<Step>, i: nat)
    requires var s := Run(limits, now, steps); i < |s.calls| && s.calls[i].phase != Done
    ensures var s := Run(limits, now, steps);
            exists j: nat :: j <= i && SameQueue(s, j, i) && CanMove(s, j)
  {
    QuotasAlwaysHold(limits, now, steps);
    QueueNeverStalls(Run(limits, now, steps), i);
  }

  lemma {:induction false} RunIsStamped(limits: Limits, now: int, steps: seq<Step>)
    ensures Stamped(Run(limits, now, steps).log, Run(limits, now, steps).now)
    ensures Run(limits, now, steps).limits == limits
  {
    if steps != [] {
      RunIsStamped(limits, now, steps[..|steps| - 1]);
    }
  }

  /** At any point of any run, the wait announced to a caller is exact to the second: if no line is added,
      every scope has a place from then on, and one second earlier some scope has none. */
  lemma AnnouncedWaitIsExact(limits: Limits, now: int, steps: seq<Step>, o: string, kind: Kind, user: string,
                             later: int)
    requires forall scope :: scope in ScopesOf(kind, user, limits) ==> scope.limit >= 1
    ensures var s := Run(limits, now, steps);
            var w: int := LongestWait(s.log, o, ScopesOf(kind, user, limits), s.now);
            && (later >= s.now + w * 1000 ==> AllFree(s.log, o, ScopesOf(kind, user, limits), later))
            && (w > 0 ==> !AllFree(s.log, o, ScopesOf(kind, user, limits), s.now + (w - 1) * 1000))
  {
    var s := Run(limits, now, steps);
    RunIsStamped(limits, now, steps);
    LongestWaitIsExact(s.log, o, ScopesOf(kind, user, limits), s.now, later);
  }

  // ---------- the quotas told on the lines themselves ----------

  predicate IsAiLine(r: Row) { |r.action| >= 3 && r.action[..3] == "ai." }

  predicate IsVerifyLine(r: Row) { r.action == "llm_credential.verify" }

  /** Lines that pass a test, in the hour that ends at `t`. */
  function LinesInHour(log: seq<Row>, t: int, test: Row -> bool): nat {
    if log == [] then 0
    else
      var last := log[|log| - 1];
      LinesInHour(log[..|log| - 1], t, test) + if t - 3_600_000 < last.at <= t && test(last) then 1 else 0
  }

  lemma {:induction false} CountIsLines(log: seq<Row>, o: string, s: Scope, t: int, test: Row -> bool)
    requires forall r :: test(r) <==> InScope(r, o, s)
    requires forall i :: 0 <= i < |log| ==> log[i].at <= t
    ensures Count(log, o, s, t - WINDOW_MS) == LinesInHour(log, t, test)
  {
    if log != [] {
      CountIsLines(log[..|log| - 1], o, s, t, test);
    }
  }

  lemma {:induction false} AdmittedIsLines(log: seq<Row>, o: string, s: Scope, t: int, test: Row -> bool)
    requires forall r :: test(r) <==> r.admitted && InScope(r, o, s)
    ensures AdmittedInHour(log, o, s, t) == LinesInHour(log, t, test)
  {
    if log != [] {
      AdmittedIsLines(log[..|log| - 1], o, s, t, test);
    }
  }

  /** In every run, in any trailing hour: at most so many admitted model calls of an organisation, so many of one
      of its users, and so many admitted verifications, as the limit of each says. */
  lemma HourlyLimitsHold(limits: Limits, now: int, steps: seq<Step>, o: string, user: string, t: int)
    ensures var log := Run(limits, now, steps).log;
            && LinesInHour(log, t, (r: Row) => r.admitted && r.organization == o && IsAiLine(r))
               <= limits.maxCallsPerHourOrg
            && LinesInHour(log, t, (r: Row) => r.admitted && r.organization == o && IsAiLine(r) && r.actor == user)
               <= limits.maxCallsPerHourUser
            && LinesInHour(log, t, (r: Row) => r.admitted && r.organization == o && IsVerifyLine(r))
               <= limits.maxVerifyPerHourOrg
  {
    var s := Run(limits, now, steps);
    QuotasAlwaysHold(limits, now, steps);
    RunIsStamped(limits, now, steps);
    var ai, verify := ScopesOf(AiCall, user, limits), ScopesOf(Verify, user, limits);
    assert ai[0] in ai && ai[1] in ai && verify[0] in verify;
    AdmittedIsLines(s.log, o, ai[0], t, (r: Row) => r.admitted && r.organization == o && IsAiLine(r));
    AdmittedIsLines(s.log, o, ai[1], t, (r: Row) => r.admitted && r.organization == o && IsAiLine(r)
        && r.actor == user);
    AdmittedIsLines(s.log, o, verify[0], t, (r: Row) => r.admitted && r.organization == o && IsVerifyLine(r));
    hide Run, AdmittedInHour, LinesInHour, Chained, HasRoom;
  }

  lemma NoWaitBelowLimit(log: seq<Row>, o: string, s: Scope, now: int)
    ensures WaitFor(log, o, s, now) == 0 <==> Count(log, o, s, now - WINDOW_MS) < s.limit
  {
    hide Since;
  }

  lemma TwoWaits(log: seq<Row>, o: string, scopes: seq<Scope>, now: int)
    requires |scopes| == 2 && scopes[1..] == [scopes[1]] && scopes[1..][1..] == []
    ensures LongestWait(log, o, scopes, now) == 0 <==>
        && Count(log, o, scopes[0], now - WINDOW_MS) < scopes[0].limit
        && Count(log, o, scopes[1], now - WINDOW_MS) < scopes[1].limit
  {
    NoWaitBelowLimit(log, o, scopes[0], now);
    NoWaitBelowLimit(log, o, scopes[1], now);
    hide WaitFor, Count;
    assert LongestWait(log, o, scopes[1..], now) == Max(WaitFor(log, o, scopes[1], now), 0);
  }

  /** The lines of the last hour, whoever wrote them, are below every limit that applies to the call. */
  ghost predicate IsBelowLimits(log: seq<Row>, now: int, o: string, kind: Kind, user: string, limits: Limits) {
    match kind
    case AiCall =>
      && LinesInHour(log, now, (r: Row) => r.organization == o && IsAiLine(r)) < limits.maxCallsPerHourOrg
      && LinesInHour(log, now, (r: Row) => r.organization == o && IsAiLine(r) && r.actor == user)
         < limits.maxCallsPerHourUser
    case Verify =>
      LinesInHour(log, now, (r: Row) => r.organization == o && IsVerifyLine(r)) < limits.maxVerifyPerHourOrg
  }

  lemma NoWaitIffBelow(log: seq<Row>, now: int, o: string, kind: Kind, user: string, limits: Limits)
    requires forall k :: 0 <= k < |log| ==> log[k].at <= now
    ensures LongestWait(log, o, ScopesOf(kind, user, limits), now) == 0
       <==> IsBelowLimits(log, now, o, kind, user, limits)
  {
    var scopes := ScopesOf(kind, user, limits);
    match kind {
      case AiCall =>
        assert scopes[1..] == [scopes[1]] && scopes[1..][1..] == [];
        CountIsLines(log, o, scopes[0], now, (r: Row) => r.organization == o && IsAiLine(r));
        CountIsLines(log, o, scopes[1], now, (r: Row) => r.organization == o && IsAiLine(r) && r.actor == user);
        TwoWaits(log, o, scopes, now);
      case Verify =>
        assert scopes[1..] == [];
        CountIsLines(log, o, scopes[0], now, (r: Row) => r.organization == o && IsVerifyLine(r));
        NoWaitBelowLimit(log, o, scopes[0], now);
        assert LongestWait(log, o, scopes, now) == Max(WaitFor(log, o, scopes[0], now), 0);
    }
  }

  /** A call whose turn has come is admitted exactly if the lines of the last hour, whoever wrote them, are below
      every limit that applies to it. */
  lemma AdmittedExactlyBelowLimits(limits: Limits, now: int, steps: seq<Step>, i: nat)
    requires var s := Run(limits, now, steps); i < |s.calls| && MayBegin(s, i)
    ensures var s := Run(limits, now, steps);
            var c, phase := s.calls[i], Apply(s, Begin(i)).calls[i].phase;
            && phase.Counted?
            && (phase.wait == 0 <==> IsBelowLimits(s.log, s.now, c.organization, c.kind, c.user, limits))
  {
    var s := Run(limits, now, steps);
    RunIsStamped(limits, now, steps);
    var c := s.calls[i];
    var scopes := ScopesOf(c.kind, c.user, limits);
    assert Apply(s, Begin(i)).calls[i].phase == Counted(LongestWait(s.log, c.organization, scopes, s.now), s.now);
    assert forall k :: 0 <= k < |s.log| ==> s.log[k].at <= s.now;
    hide Run, MayBegin, Apply, LongestWait, IsBelowLimits, ScopesOf;
    NoWaitIffBelow(s.log, s.now, c.organization, c.kind, c.user, limits);
  }

  /** A call that found room writes exactly its own line when it finishes, unless writing fails; one that did not
      writes nothing. Nothing else changes but its phase. */
  lemma FinishWritesTheLine(s: Server, i: nat, fails: bool)
    requires i < |s.calls| && s.calls[i].phase.Counted?
    ensures var c, s' := s.calls[i], Apply(s, Finish(i, fails));
            && s'.log == s.log + (if c.phase.wait == 0 && !fails
                                  then [Row(c.organization, c.action, c.user, s.now, true)] else [])
            && s'.calls == s.calls[i := c.(phase := Done)] && s'.tails == s.tails && s'.now == s.now
  {
  }

  /** The log is only ever added to: by a call that found room, and by lines that come from elsewhere. */
  lemma LogOnlyGrows(s: Server, step: Step)
    ensures Apply(s, step).log == s.log + match step
        case OtherLine(o, action, user) => [Row(o, action, user, s.now, false)]
        case Finish(i, fails) =>
          if i < |s.calls| && s.calls[i].phase.Counted? && s.calls[i].phase.wait == 0 && !fails
          then [Row(s.calls[i].organization, s.calls[i].action, s.calls[i].user, s.now, true)] else []
        case _ => []
  {
  }
}
