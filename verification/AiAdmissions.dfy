/** Admissions queued per organisation: any interleaving of arrivals, counts, writes, clean-ups and other
    audit lines (apps/api/src/ai/ai-ledger.ts, `admit`, `admitNow` and `serialized`). */
module AiAdmissions {
  import opened Common
  import opened AiLedger

  /** A call waits for its predecessor, then counts, then writes (or not), then is done. */
  datatype Phase = Waiting | Counted(wait: nat, at: int) | Done

  datatype Call = Call(organization: string, kind: Kind, user: string, action: string, previous: Option<nat>,
                       phase: Phase)

  /** `tails` maps an organisation to the last call of its queue. */
  datatype Server = Server(calls: seq<Call>, tails: map<string, nat>, log: seq<Row>, now: int, limits: Limits)

  datatype Step =
    | Arrive(organization: string, kind: Kind, user: string, action: string)
    | Begin(i: nat)
    | Finish(i: nat, fails: bool)
    | CleanUp(i: nat)
    | OtherLine(organization: string, action: string, user: string)
    | Tick(ms: nat)

  /** The line an admission writes is of the kind it was counted for. */
  predicate ActionFits(kind: Kind, action: string) {
    if kind == AiCall then AI_PREFIX <= action else action == VERIFY_ACTION
  }

  predicate MayBegin(s: Server, i: nat)
    requires i < |s.calls|
  {
    var c := s.calls[i];
    && c.phase == Waiting
    && (c.previous.None? || (c.previous.value < |s.calls| && s.calls[c.previous.value].phase == Done))
  }

  function SetPhase(s: Server, i: nat, p: Phase): Server
    requires i < |s.calls|
  {
    s.(calls := s.calls[i := s.calls[i].(phase := p)])
  }

  /** One step; a step that is not possible changes nothing. */
  function Apply(s: Server, step: Step): Server {
    match step
    case Arrive(o, kind, user, action) =>
      if !ActionFits(kind, action) then s
      else
        var previous := if o in s.tails then Some(s.tails[o]) else None;
        s.(calls := s.calls + [Call(o, kind, user, action, previous, Waiting)], tails := s.tails[o := |s.calls|])
    case Begin(i) =>
      if i < |s.calls| && MayBegin(s, i) then
        var c := s.calls[i];
        SetPhase(s, i, Counted(LongestWait(s.log, c.organization, ScopesOf(c.kind, c.user, s.limits), s.now), s.now))
      else s
    case Finish(i, fails) =>
      if i < |s.calls| && s.calls[i].phase.Counted? then
        var c := s.calls[i];
        var done := SetPhase(s, i, Done);
        if c.phase.wait == 0 && !fails
        then done.(log := s.log + [Row(c.organization, c.action, c.user, s.now, true)])
        else done
      else s
    case CleanUp(i) =>
      if && i < |s.calls| && s.calls[i].phase == Done
         && s.calls[i].organization in s.tails && s.tails[s.calls[i].organization] == i
      then s.(tails := s.tails - {s.calls[i].organization}) else s
    case OtherLine(o, action, user) => s.(log := s.log + [Row(o, action, user, s.now, false)])
    case Tick(ms) => s.(now := s.now + ms)
  }

  function Run(limits: Limits, now: int, steps: seq<Step>): Server {
    if steps == [] then Server([], map[], [], now, limits)
    else Apply(Run(limits, now, steps[..|steps| - 1]), steps[|steps| - 1])
  }

  // ---------- one call at a time ----------

  ghost predicate SameQueue(s: Server, i: nat, j: nat)
    requires i < |s.calls| && j < |s.calls|
  {
    s.calls[i].organization == s.calls[j].organization
  }

  /** Every call before `n` of this organisation is done. */
  ghost predicate AllDoneBefore(s: Server, o: string, n: nat) {
    forall j :: 0 <= j < |s.calls| && j < n && s.calls[j].organization == o ==> s.calls[j].phase == Done
  }

  /** No call of this organisation stands strictly between `j` and `i`. */
  ghost predicate NoneBetween(s: Server, o: string, j: nat, i: nat) {
    forall k :: j < k < i && k < |s.calls| ==> s.calls[k].organization != o
  }

  /** A call that has begun, or had no predecessor, has only finished ones before it; a predecessor is
      the call just before in the queue; with no recorded tail the whole queue is done. */
  ghost predicate CallInPlace(s: Server, i: nat)
    requires i < |s.calls|
  {
    var c := s.calls[i];
    && (c.phase != Waiting || c.previous.None? ==> AllDoneBefore(s, c.organization, i))
    && (c.previous.Some? ==> c.previous.value < i && s.calls[c.previous.value].organization == c.organization
                             && NoneBetween(s, c.organization, c.previous.value, i))
    && (c.organization !in s.tails ==> AllDoneBefore(s, c.organization, |s.calls|))
  }

  /** A recorded tail is the last call of its queue. */
  ghost predicate TailInPlace(s: Server, o: string)
    requires o in s.tails
  {
    && s.tails[o] < |s.calls| && s.calls[s.tails[o]].organization == o
    && NoneBetween(s, o, s.tails[o], |s.calls|)
  }

  /** The queue of each organisation is a chain. */
  ghost predicate Chained(s: Server) {
    && (forall i :: 0 <= i < |s.calls| ==> CallInPlace(s, i))
    && (forall o :: o in s.tails ==> TailInPlace(s, o))
  }

  /** Calls of one organisation never overlap: while one has counted and not yet written, no other has. */
  lemma OneAtATime(s: Server, i: nat, j: nat)
    requires Chained(s) && i < |s.calls| && j < |s.calls| && SameQueue(s, i, j)
    requires s.calls[i].phase.Counted? && s.calls[j].phase.Counted?
    ensures i == j
  {
    assert CallInPlace(s, j);
    assert CallInPlace(s, i);
  }

  /** With no recorded tail, the whole queue of an organisation is done. */
  lemma NoTailAllDone(s: Server, o: string)
    requires Chained(s) && o !in s.tails
    ensures AllDoneBefore(s, o, |s.calls|)
  {
    forall j | 0 <= j < |s.calls| && s.calls[j].organization == o ensures s.calls[j].phase == Done {
      assert CallInPlace(s, j);
    }
  }

  lemma ArriveKeepsChain(s: Server, o: string, kind: Kind, user: string, action: string)
    requires Chained(s) && ActionFits(kind, action)
    ensures Chained(Apply(s, Arrive(o, kind, user, action)))
  {
    var n, s' := |s.calls|, Apply(s, Arrive(o, kind, user, action));
    assert forall k :: 0 <= k < n ==> s'.calls[k] == s.calls[k];
    forall i | 0 <= i < n ensures CallInPlace(s', i) {
      assert CallInPlace(s, i);
    }
    if o in s.tails {
      assert TailInPlace(s, o);
    } else {
      NoTailAllDone(s, o);
    }
    forall p | p in s'.tails ensures TailInPlace(s', p) {
      assert p != o ==> TailInPlace(s, p);
    }
  }

  /** Moving a call forward keeps the chain, provided every earlier one of its queue is done. */
  lemma PhaseKeepsChain(s: Server, i: nat, p: Phase)
    requires Chained(s) && i < |s.calls| && s.calls[i].phase != Done && p != Waiting
    requires AllDoneBefore(s, s.calls[i].organization, i)
    ensures Chained(SetPhase(s, i, p))
  {
    var s' := SetPhase(s, i, p);
    assert forall k :: 0 <= k < |s.calls| && k != i ==> s'.calls[k] == s.calls[k];
    assert s'.calls[i] == s.calls[i].(phase := p);
    forall k | 0 <= k < |s.calls| ensures CallInPlace(s', k) {
      assert CallInPlace(s, k);
    }
    forall o | o in s'.tails ensures TailInPlace(s', o) {
      assert TailInPlace(s, o);
    }
  }

  lemma BeginIsInTurn(s: Server, i: nat)
    requires Chained(s) && i < |s.calls| && MayBegin(s, i)
    ensures AllDoneBefore(s, s.calls[i].organization, i)
  {
    assert CallInPlace(s, i);
    if s.calls[i].previous.Some? {
      var j := s.calls[i].previous.value;
      assert CallInPlace(s, j);
      forall k | 0 <= k < i && SameQueue(s, k, i) ensures s.calls[k].phase == Done {
        assert k < j || k == j || j < k;
      }
    }
  }

  lemma CleanUpKeepsChain(s: Server, i: nat)
    requires Chained(s)
    ensures Chained(Apply(s, CleanUp(i)))
  {
    var s' := Apply(s, CleanUp(i));
    if s' != s {
      var o := s.calls[i].organization;
      assert CallInPlace(s, i) && TailInPlace(s, o);
      forall k | 0 <= k < |s.calls| && s.calls[k].organization == o ensures s.calls[k].phase == Done {
        assert k < i || k == i || i < k;
      }
      forall k | 0 <= k < |s.calls| ensures CallInPlace(s', k) {
        assert CallInPlace(s, k);
      }
      forall p | p in s'.tails ensures TailInPlace(s', p) {
        assert TailInPlace(s, p);
      }
    }
  }

  lemma ChainIgnoresLog(a: Server, b: Server)
    requires Chained(a) && b.calls == a.calls && b.tails == a.tails
    ensures Chained(b)
  {
    forall k | 0 <= k < |b.calls| ensures CallInPlace(b, k) {
      assert CallInPlace(a, k);
    }
    forall p | p in b.tails ensures TailInPlace(b, p) {
      assert TailInPlace(a, p);
    }
  }

  lemma StepKeepsChain(s: Server, step: Step)
    requires Chained(s)
    ensures Chained(Apply(s, step))
  {
    match step
    case Arrive(o, kind, user, action) =>
      if ActionFits(kind, action) { ArriveKeepsChain(s, o, kind, user, action); }
    case Begin(i) =>
      if i < |s.calls| && MayBegin(s, i) {
        BeginIsInTurn(s, i);
        PhaseKeepsChain(s, i, Apply(s, step).calls[i].phase);
      }
    case Finish(i, fails) =>
      if i < |s.calls| && s.calls[i].phase.Counted? {
        assert CallInPlace(s, i);
        PhaseKeepsChain(s, i, Done);
        ChainIgnoresLog(SetPhase(s, i, Done), Apply(s, step));
      }
    case CleanUp(i) => CleanUpKeepsChain(s, i);
    case OtherLine(o, action, user) => ChainIgnoresLog(s, Apply(s, step));
    case Tick(ms) => ChainIgnoresLog(s, Apply(s, step));
  }

  /** The call can take its next step. */
  ghost predicate CanMove(s: Server, i: nat)
    requires i < |s.calls|
  {
    s.calls[i].phase.Counted? || MayBegin(s, i)
  }

  /** A queue never stalls: at or before any unfinished call of an organisation, one of its calls can take
      its next step, and the first unfinished one always can. */
  lemma {:induction false} QueueNeverStalls(s: Server, i: nat)
    requires Chained(s) && i < |s.calls| && s.calls[i].phase != Done
    ensures AllDoneBefore(s, s.calls[i].organization, i) ==> CanMove(s, i)
    ensures exists j: nat :: j <= i && SameQueue(s, j, i) && s.calls[j].phase != Done && CanMove(s, j)
  {
    assert CallInPlace(s, i);
    if !AllDoneBefore(s, s.calls[i].organization, i) {
      var k: nat :| k < i && SameQueue(s, k, i) && s.calls[k].phase != Done;
      QueueNeverStalls(s, k);
    }
  }
}
