/** Hourly quotas counted in the audit log, and the exact wait announced to a refused caller
    (apps/api/src/ai/ai-ledger.ts, `scopesOf` and `waitFor`). */
module AiLedger {
  import opened Common

  const WINDOW_SECONDS: int := 3600
  const WINDOW_MS: int := 3_600_000
  const AI_PREFIX := "ai."
  const VERIFY_ACTION := "llm_credential.verify"

  datatype Kind = AiCall | Verify

  datatype Limits = Limits(maxCallsPerHourOrg: nat, maxCallsPerHourUser: nat, maxVerifyPerHourOrg: nat)

  /** A line of the audit log. `admitted` tells lines written by an admission from all others. */
  datatype Row = Row(organization: string, action: string, actor: string, at: int, admitted: bool)

  datatype Scope = Scope(byPrefix: bool, action: string, actor: Option<string>, limit: nat)

  function ScopesOf(kind: Kind, user: string, l: Limits): seq<Scope> {
    match kind
    case Verify => [Scope(false, VERIFY_ACTION, None, l.maxVerifyPerHourOrg)]
    case AiCall =>
      [Scope(true, AI_PREFIX, None, l.maxCallsPerHourOrg), Scope(true, AI_PREFIX, Some(user), l.maxCallsPerHourUser)]
  }

  predicate InScope(r: Row, organization: string, s: Scope) {
    && r.organization == organization
    && (if s.byPrefix then s.action <= r.action else s.action == r.action)
    && (s.actor.None? || s.actor.value == r.actor)
  }

  /** Lines of the scope later than an instant, in log order. */
  function Since(log: seq<Row>, organization: string, s: Scope, after: int): seq<Row> {
    if log == [] then []
    else
      var last := log[|log| - 1];
      Since(log[..|log| - 1], organization, s, after)
      + if InScope(last, organization, s) && last.at > after then [last] else []
  }

  function Count(log: seq<Row>, organization: string, s: Scope, after: int): nat {
    |Since(log, organization, s, after)|
  }

  function CeilSeconds(ms: int): int { (ms + 999) / 1000 }

  /** Seconds until a place is free; 0 when the cap is not reached. */
  function WaitFor(log: seq<Row>, organization: string, s: Scope, now: int): nat {
    var rows := Since(log, organization, s, now - WINDOW_MS);
    if |rows| < s.limit then 0
    else
      var skip := |rows| - s.limit;
      var leavesAt := (if skip < |rows| then rows[skip].at else now) + WINDOW_MS;
      Min(WINDOW_SECONDS, Max(1, CeilSeconds(leavesAt - now)))
  }

  /** The longest wait over a list of scopes. */
  function LongestWait(log: seq<Row>, organization: string, scopes: seq<Scope>, now: int): nat {
    if scopes == [] then 0
    else Max(WaitFor(log, organization, scopes[0], now), LongestWait(log, organization, scopes[1..], now))
  }

  /** The log is stamped by one clock that never goes back, and not in the future. */
  ghost predicate Stamped(log: seq<Row>, now: int) {
    && (forall i, j :: 0 <= i < j < |log| ==> log[i].at <= log[j].at)
    && (forall i :: 0 <= i < |log| ==> log[i].at <= now)
  }

  lemma {:induction false} SinceIsOrdered(log: seq<Row>, organization: string, s: Scope, after: int, now: int)
    requires Stamped(log, now)
    ensures var rows := Since(log, organization, s, after);
            Stamped(rows, now) && forall i :: 0 <= i < |rows| ==>
                rows[i].at > after && InScope(rows[i], organization, s)
    ensures log != [] ==> forall i :: 0 <= i < |Since(log, organization, s, after)| ==>
        Since(log, organization, s, after)[i].at <= log[|log| - 1].at
  {
    if log != [] {
      var front := log[..|log| - 1];
      assert Stamped(front, now);
      SinceIsOrdered(front, organization, s, after, now);
      assert front != [] ==> front[|front| - 1].at <= log[|log| - 1].at;
    }
  }

  lemma SinceAppend(log: seq<Row>, organization: string, s: Scope, after: int, r: Row)
    ensures Since(log + [r], organization, s, after)
         == Since(log, organization, s, after) + if InScope(r, organization, s) && r.at > after then [r] else []
  {
    assert (log + [r])[..|log|] == log;
  }

  /** Looking from a later instant at the lines of an earlier window gives the later window. */
  lemma {:induction false} SinceLater(log: seq<Row>, organization: string, s: Scope, after: int, later: int)
    requires after <= later
    ensures Since(Since(log, organization, s, after), organization, s, later) == Since(log, organization, s, later)
    ensures Count(log, organization, s, later) <= Count(log, organization, s, after)
  {
    hide InScope;
    if log != [] {
      var front, last := log[..|log| - 1], log[|log| - 1];
      SinceLater(front, organization, s, after, later);
      if InScope(last, organization, s) && last.at > after {
        SinceAppend(Since(front, organization, s, after), organization, s, later, last);
      } else {
        assert Since(front, organization, s, after) + [] == Since(front, organization, s, after);
      }
    }
  }

  lemma {:induction false} NoneLater(rows: seq<Row>, organization: string, s: Scope, after: int)
    requires forall i :: 0 <= i < |rows| ==> rows[i].at <= after
    ensures Count(rows, organization, s, after) == 0
  {
    if rows != [] {
      NoneLater(rows[..|rows| - 1], organization, s, after);
    }
  }

  /** In an ordered list of lines, the number later than an instant is settled by any line on either side of it. */
  lemma {:induction false} CountAround(rows: seq<Row>, organization: string, s: Scope, after: int, k: nat, now: int)
    requires Stamped(rows, now) && k < |rows| && forall i :: 0 <= i < |rows| ==> InScope(rows[i], organization, s)
    ensures rows[k].at <= after ==> Count(rows, organization, s, after) <= |rows| - k - 1
    ensures rows[k].at > after ==> Count(rows, organization, s, after) >= |rows| - k
  {
    var front, last := rows[..|rows| - 1], rows[|rows| - 1];
    assert rows[k].at <= last.at;
    if k < |rows| - 1 {
      CountAround(front, organization, s, after, k, now);
    } else if rows[k].at <= after {
      NoneLater(rows, organization, s, after);
    }
  }

  lemma CeilBounds(ms: int)
    ensures (CeilSeconds(ms) - 1) * 1000 < ms <= CeilSeconds(ms) * 1000
  {
  }

  /** Seen from a later instant, line `k` of the present window decides on which side of its rank the count is. */
  lemma CountLater(log: seq<Row>, organization: string, s: Scope, now: int, later: int, k: nat)
    requires Stamped(log, now) && now - WINDOW_MS <= later
    requires k < |Since(log, organization, s, now - WINDOW_MS)|
    ensures var rows := Since(log, organization, s, now - WINDOW_MS);
            && (rows[k].at <= later ==> Count(log, organization, s, later) <= |rows| - k - 1)
            && (rows[k].at > later ==> Count(log, organization, s, later) >= |rows| - k)
  {
    SinceIsOrdered(log, organization, s, now - WINDOW_MS, now);
    SinceLater(log, organization, s, now - WINDOW_MS, later);
    CountAround(Since(log, organization, s, now - WINDOW_MS), organization, s, later, k, now);
  }

  /** The announced wait is exact to the second for a cap of at least one: after that long with no new
      line a place is free, one second earlier none is; and nothing is announced exactly when a place is free now. */
  lemma WaitIsExact(log: seq<Row>, organization: string, s: Scope, now: int)
    requires Stamped(log, now) && s.limit >= 1
    ensures var w := WaitFor(log, organization, s, now);
            && (w == 0 <==> Count(log, organization, s, now - WINDOW_MS) < s.limit)
            && Count(log, organization, s, now + w * 1000 - WINDOW_MS) < s.limit
            && (w > 0 ==> Count(log, organization, s, now + (w - 1) * 1000 - WINDOW_MS) >= s.limit)
  {
    var after, w := now - WINDOW_MS, WaitFor(log, organization, s, now);
    var rows := Since(log, organization, s, after);
    SinceIsOrdered(log, organization, s, after, now);
    if |rows| >= s.limit {
      var k := |rows| - s.limit;
      var left := rows[k].at + WINDOW_MS - now;
      assert 1 <= left <= WINDOW_MS;
      CeilBounds(left);
      assert w == CeilSeconds(left);
      hide CeilSeconds, WaitFor, InScope, Since;
      CountLater(log, organization, s, now, now + w * 1000 - WINDOW_MS, k);
      CountLater(log, organization, s, now, now + (w - 1) * 1000 - WINDOW_MS, k);
    }
  }

  /** A cap of zero announces an hour that frees nothing. */
  lemma ZeroCapNeverFrees(log: seq<Row>, organization: string, s: Scope, now: int, later: int)
    requires s.limit == 0
    ensures WaitFor(log, organization, s, now) == WINDOW_SECONDS
    ensures Count(log, organization, s, later) >= s.limit
  {
  }

  /** A place is free in every scope at the given instant. */
  ghost predicate AllFree(log: seq<Row>, organization: string, scopes: seq<Scope>, at: int) {
    forall i :: 0 <= i < |scopes| ==> Count(log, organization, scopes[i], at - WINDOW_MS) < scopes[i].limit
  }

  lemma AllFreeSplit(log: seq<Row>, organization: string, scopes: seq<Scope>, at: int)
    requires scopes != []
    ensures AllFree(log, organization, scopes, at) <==>
        && Count(log, organization, scopes[0], at - WINDOW_MS) < scopes[0].limit
        && AllFree(log, organization, scopes[1..], at)
  {
  }

  lemma HeadWaitIsExact(log: seq<Row>, organization: string, s: Scope, now: int, later: int)
    requires Stamped(log, now) && s.limit >= 1
    ensures var w := WaitFor(log, organization, s, now);
            && (later >= now + w * 1000 ==> Count(log, organization, s, later - WINDOW_MS) < s.limit)
            && (w > 0 ==> Count(log, organization, s, now + (w - 1) * 1000 - WINDOW_MS) >= s.limit)
  {
    hide Count, WaitFor, Stamped;
    var w := WaitFor(log, organization, s, now);
    WaitIsExact(log, organization, s, now);
    if later >= now + w * 1000 {
      SinceLater(log, organization, s, now + w * 1000 - WINDOW_MS, later - WINDOW_MS);
    }
  }

  /** A refused caller that waits as announced, with no new line, finds a place in every scope from then
      on; one second earlier some scope is still full; and nobody is made to wait without need. */
  lemma {:induction false} LongestWaitIsExact(log: seq<Row>, organization: string, scopes: seq<Scope>, now: int,
                                              later: int)
    requires Stamped(log, now) && forall i :: 0 <= i < |scopes| ==> scopes[i].limit >= 1
    ensures var w := LongestWait(log, organization, scopes, now);
            && (later >= now + w * 1000 ==> AllFree(log, organization, scopes, later))
            && (w > 0 ==> !AllFree(log, organization, scopes, now + (w - 1) * 1000))
  {
    if scopes != [] {
      var w: int := LongestWait(log, organization, scopes, now);
      assert forall i :: 0 <= i < |scopes[1..]| ==> scopes[1..][i] == scopes[i + 1];
      hide Count, WaitFor, Stamped, AllFree;
      HeadWaitIsExact(log, organization, scopes[0], now, later);
      LongestWaitIsExact(log, organization, scopes[1..], now, later);
      AllFreeSplit(log, organization, scopes, later);
      AllFreeSplit(log, organization, scopes, now + (w - 1) * 1000);
    }
  }
}
