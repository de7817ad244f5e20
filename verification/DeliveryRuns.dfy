/** Whole delivery runs: what every reachable run satisfies, and how long a run can last. */
module DeliveryRuns {
  import opened Common
  import opened DeliveryRun

  /** The event is accepted and moves the run on; neutral events and replays are accepted without effect. */
  predicate IsEffective(r: Run, i: Input, l: Limits) {
    ApplyEvent(r, i, l).Ok? && Table(r.state, i.event).Some? && Table(r.state, i.event).value.Go?
  }

  /** A refused event leaves the run as it was. */
  function Next(r: Run, i: Input, l: Limits): Run {
    if ApplyEvent(r, i, l).Ok? then ApplyEvent(r, i, l).value.run else r
  }

  function Play(r: Run, inputs: seq<Input>, l: Limits): Run {
    if inputs == [] then r else Next(Play(r, inputs[..|inputs| - 1], l), inputs[|inputs| - 1], l)
  }

  /** Number of effective steps, and how many of them were conflicts with the target branch. */
  function Steps(r: Run, inputs: seq<Input>, l: Limits): nat {
    if inputs == [] then 0
    else
      var front, last := inputs[..|inputs| - 1], inputs[|inputs| - 1];
      Steps(r, front, l) + if IsEffective(Play(r, front, l), last, l) then 1 else 0
  }

  function Conflicts(r: Run, inputs: seq<Input>, l: Limits): nat {
    if inputs == [] then 0
    else
      var front, last := inputs[..|inputs| - 1], inputs[|inputs| - 1];
      Conflicts(r, front, l)
      + if IsEffective(Play(r, front, l), last, l) && last.event.ConflictDetected? then 1 else 0
  }

  /** Only effective steps change a run, each by exactly one version. */
  lemma StepVersion(r: Run, i: Input, l: Limits)
    ensures IsEffective(r, i, l) ==> Next(r, i, l).version == r.version + 1
    ensures !IsEffective(r, i, l) ==> Next(r, i, l) == r
  {
  }

  /** Optimistic concurrency: an event that carries a stale version changes nothing; only a replay is accepted
      with one. */
  lemma StaleChangesNothing(r: Run, i: Input, l: Limits)
    requires i.expectedVersion.Some? && i.expectedVersion.value != r.version
    ensures Next(r, i, l) == r
    ensures ApplyEvent(r, i, l).Ok? <==> WellFormed(i.event) && Table(r.state, i.event) == Some(Replay)
  {
  }

  // ---------- invariants of every reachable run ----------

  /** What holds of a run in every state, given fixed limits. */
  ghost predicate Sound(r: Run, l: Limits) {
    && (r.blocked.Some? <==> r.state == Blocked || r.state == Escalated)
    && (r.state == Leased ==> CanRestartDevelopment(r))
    && (r.state == Reviewing ==> (r.lastReviewedAfterFix <==> r.reviewRounds >= l.maxReviewRounds))
    && (!r.state.Leased? && !r.state.Blocked? && !r.state.Escalated? ==> r.branch.Some?)
    && (r.state in {CiWait, Reviewing, MergeRequested, Merged, DeployedStaging} ==> r.pullRequest.Some?)
  }

  lemma StepKeepsSound(r: Run, i: Input, l: Limits)
    requires Sound(r, l)
    ensures Sound(Next(r, i, l), l)
  {
  }

  lemma StepKeepsBranch(r: Run, i: Input, l: Limits)
    ensures r.branch.Some? ==> Next(r, i, l).branch == r.branch
    ensures r.ticket == Next(r, i, l).ticket
  {
  }

  /** In every run that starts properly: block information is present exactly in blocked or escalated,
      the branch never changes once set, the last-fix flag means that the cap of rounds is reached, and
      work past development always has its branch and pull request. */
  lemma {:induction false} EveryRunIsSound(s: StartInput, inputs: seq<Input>, l: Limits)
    requires StartRun(s).Ok?
    ensures Sound(Play(StartRun(s).value, inputs, l), l)
    ensures forall k :: 0 <= k <= |inputs| && Play(StartRun(s).value, inputs[..k], l).branch.Some? ==>
        Play(StartRun(s).value, inputs, l).branch == Play(StartRun(s).value, inputs[..k], l).branch
  {
    var r := StartRun(s).value;
    if inputs != [] {
      var front, last := inputs[..|inputs| - 1], inputs[|inputs| - 1];
      EveryRunIsSound(s, front, l);
      StepKeepsSound(Play(r, front, l), last, l);
      StepKeepsBranch(Play(r, front, l), last, l);
      hide Next, Sound;
      forall k | 0 <= k <= |inputs| && Play(r, inputs[..k], l).branch.Some?
        ensures Play(r, inputs, l).branch == Play(r, inputs[..k], l).branch
      {
        if k < |inputs| {
          assert front[..k] == inputs[..k];
        } else {
          assert inputs[..k] == inputs;
        }
      }
    } else {
      assert inputs[..0] == inputs;
    }
  }

  /** A run keeps what its ticket brings along, and asks first for a worktree, or for CI when a pushed branch
      with an open pull request is resumed. */
  lemma StartKeeps(s: StartInput)
    requires StartRun(s).Ok?
    ensures var r := StartRun(s).value;
            && r.ticket == s.ticket && r.branch == s.branch && r.pullRequest == s.pullRequest
            && r.attempts == s.attempts && r.reviewRounds == s.reviewRounds && r.ciWaits == 0 && r.version == 0
            && r.blocked.None? && !r.lastReviewedAfterFix
            && ResumePoint(r)
               == Ok(Some(if s.branch.Some? && s.pullRequest.Some? then WaitCi else PrepareWorktree))
  {
  }

  /** A killed runner can always resume, and has nothing to resume exactly in a terminal state. */
  lemma ResumeNeverFails(s: StartInput, inputs: seq<Input>, l: Limits)
    requires StartRun(s).Ok?
    ensures var r := Play(StartRun(s).value, inputs, l);
            ResumePoint(r).Ok? && (ResumePoint(r).value.None? <==> IsTerminal(r.state))
  {
    EveryRunIsSound(s, inputs, l);
  }

  /** Resuming asks for the very effect that led into the current state; a block only notifies its cause. */
  lemma ResumeRepeatsEffect(r: Run, i: Input, l: Limits)
    requires IsEffective(r, i, l)
    ensures var step := ApplyEvent(r, i, l).value;
            step.effects ==
              if step.run.blocked.Some? && step.run.state == Blocked then [Notify(step.run.blocked.value.cause)]
              else if step.run.state == Escalated then [RaiseEscalation]
              else if Resume(step.run.state).Some? then [Resume(step.run.state).value] else []
  {
  }

  // ---------- counters ----------

  datatype Counter = Attempts | ReviewRounds | CiWaits

  predicate Charges(e: Event, c: Counter) {
    match c
    case Attempts => e == GatesRed || e == CiRed
    case ReviewRounds => e == VerdictRequestChanges
    case CiWaits => e == CiTimeout
  }

  function CounterOf(r: Run, c: Counter): nat {
    match c
    case Attempts => r.attempts
    case ReviewRounds => r.reviewRounds
    case CiWaits => r.ciWaits
  }

  function CapOf(l: Limits, c: Counter): nat {
    match c
    case Attempts => l.maxAttempts
    case ReviewRounds => l.maxReviewRounds
    case CiWaits => l.maxCiWaits
  }

  function CauseOf(c: Counter): BlockCause {
    match c
    case Attempts => CiFailed
    case ReviewRounds => ReviewExhausted
    case CiWaits => CiTimedOut
  }

  /** How often a counter was charged along a run. */
  function Charged(r: Run, inputs: seq<Input>, l: Limits, c: Counter): nat {
    if inputs == [] then 0
    else
      var front, last := inputs[..|inputs| - 1], inputs[|inputs| - 1];
      Charged(r, front, l, c) + if IsEffective(Play(r, front, l), last, l) && Charges(last.event, c) then 1 else 0
  }

  function Left(cap: nat, used: nat): nat { if used >= cap then 0 else cap - used }

  /** The counter stands where `charged` charges have brought it; only the charge that met the cap is not
      counted, and that one blocked the run for its own cause. Escalation resets. */
  ghost predicate Tallied(start: nat, r: Run, l: Limits, c: Counter, charged: nat) {
    && charged <= Left(CapOf(l, c), start) + 1
    && (r.state == Escalated ==> CounterOf(r, c) == 0)
    && (r.state != Escalated ==> CounterOf(r, c) <= Max(start, CapOf(l, c)))
    && (r.state != Escalated ==>
        || start + charged == CounterOf(r, c)
        || (&& start + charged == CounterOf(r, c) + 1 && CounterOf(r, c) >= CapOf(l, c)
            && r.state == Blocked && r.blocked.Some? && r.blocked.value.cause == CauseOf(c)))
  }

  lemma StepTallies(start: nat, r: Run, i: Input, l: Limits, c: Counter, charged: nat)
    requires Tallied(start, r, l, c, charged)
    ensures Tallied(start, Next(r, i, l), l, c, charged + if IsEffective(r, i, l) && Charges(i.event, c) then 1 else 0)
  {
    hide IsText;
  }

  /** Along any run each counter counts exactly the events that charge it, and never passes its cap. */
  lemma {:induction false} CountersCountEvents(s: StartInput, inputs: seq<Input>, l: Limits, c: Counter)
    requires StartRun(s).Ok?
    ensures var r := StartRun(s).value;
            Tallied(CounterOf(r, c), Play(r, inputs, l), l, c, Charged(r, inputs, l, c))
  {
    var r := StartRun(s).value;
    if inputs != [] {
      var front, last := inputs[..|inputs| - 1], inputs[|inputs| - 1];
      CountersCountEvents(s, front, l, c);
      StepTallies(CounterOf(r, c), Play(r, front, l), last, l, c, Charged(r, front, l, c));
    }
  }

  // ---------- history ----------

  /** Effective events since development was last entered (or since the start), oldest first. */
  function SinceDevelopment(r: Run, inputs: seq<Input>, l: Limits): seq<Event> {
    if inputs == [] then []
    else
      var front, last := inputs[..|inputs| - 1], inputs[|inputs| - 1];
      var before := Play(r, front, l);
      if !IsEffective(before, last, l) then SinceDevelopment(r, front, l)
      else if Next(before, last, l).state == Developing then []
      else SinceDevelopment(r, front, l) + [last.event]
  }

  predicate GreenSeen(h: seq<Event>) { exists i :: 0 <= i < |h| && h[i] == CiGreen }

  predicate ApprovedAfterGreen(h: seq<Event>) {
    exists i, j :: 0 <= i < j < |h| && h[i] == CiGreen && h[j] == VerdictApprove
  }

  /** Which event leads into each state, and from where. */
  lemma LateStates(r: Run, i: Input, l: Limits)
    requires IsEffective(r, i, l)
    ensures var next := Next(r, i, l).state;
            && (next == LocalGates ==> r.state == Developing && i.event.DevDone? && !i.event.diffEmpty)
            && (next == PrOpen ==> r.state == LocalGates && i.event == GatesGreen)
            && (next == CiWait ==>
                  (r.state == PrOpen && i.event.PrOpened?) || (r.state == CiWait && i.event == CiTimeout))
            && (next == Reviewing ==> r.state == CiWait && i.event == CiGreen)
            && (next == MergeRequested ==> r.state == Reviewing && i.event == VerdictApprove)
            && (next == Merged ==> r.state == MergeRequested && i.event == MergeDone)
            && (next == DeployedStaging ==> r.state == Merged && i.event == DeployGreen)
            && (next == Escalated ==> r.state == Blocked && i.event == Escalate)
            && next != Leased
  {
  }

  /** Trouble leads back to development, or to a block: red gates or CI, changes asked for, a conflict. */
  lemma TroubleReturns(r: Run, i: Input, l: Limits)
    requires IsEffective(r, i, l)
    ensures i.event in {GatesRed, CiRed, VerdictRequestChanges} ==> Next(r, i, l).state in {Developing, Blocked}
    ensures i.event == ConflictDetected ==> Next(r, i, l).state == Developing
    ensures Next(r, i, l).state == Developing ==>
        || i.event.WorktreeReady? || i.event in {GatesRed, CiRed, VerdictRequestChanges, ConflictDetected}
  {
  }

  /** A development without difference always blocks, as output missing, and carries what the event says. */
  lemma EmptyDiffBlocks(r: Run, i: Input, l: Limits)
    requires IsEffective(r, i, l) && i.event.DevDone?
    ensures var next := Next(r, i, l);
            if i.event.diffEmpty
            then next.state == Blocked
                 && next.blocked == Some(BlockInfo(NoOutput, i.event.output, Some(i.event.remoteBranchExists)))
            else next.state == LocalGates
  {
  }

  function Plain(e: Event): Input { Input(e, None) }

  predicate Accepts(r: Run, e: Event, l: Limits) { IsEffective(r, Plain(e), l) }

  predicate Reaches(r: Run, e: Event, l: Limits, to: RunState) {
    Accepts(r, e, l) && Next(r, Plain(e), l).state == to
  }

  /** The way to the pull request is always open: each state accepts the event that completes its work, and red
      gates. */
  lemma WorkGoesOn(r: Run, l: Limits, text: string, pushed: bool)
    requires Sound(r, l) && IsText(text)
    ensures r.state == Leased && (r.branch.None? || r.branch.value == text) ==>
        Reaches(r, WorktreeReady(text), l, Developing) && Next(r, Plain(WorktreeReady(text)), l).branch == Some(text)
    ensures r.state == Developing ==> Reaches(r, DevDone(false, pushed, text), l, LocalGates)
    ensures r.state == LocalGates ==> Reaches(r, GatesGreen, l, PrOpen) && Accepts(r, GatesRed, l)
    ensures r.state == PrOpen ==>
        Reaches(r, PrOpened(text), l, CiWait) && Next(r, Plain(PrOpened(text)), l).pullRequest == Some(text)
  {
  }

  /** So is the way from CI to review, with every way back. */
  lemma CiGoesOn(r: Run, l: Limits)
    requires r.state == CiWait
    ensures Reaches(r, CiGreen, l, Reviewing) && Reaches(r, ConflictDetected, l, Developing)
    ensures Accepts(r, CiRed, l) && Accepts(r, CiTimeout, l)
  {
    hide IsText, CreateBlock;
  }

  /** So is the way from review to the deployment, where it ends, and that from a block to its escalation. */
  lemma ReviewGoesOn(r: Run, l: Limits)
    ensures r.state == Reviewing ==>
        Reaches(r, VerdictApprove, l, MergeRequested) && Accepts(r, VerdictRequestChanges, l)
    ensures r.state == MergeRequested ==> Reaches(r, MergeDone, l, Merged)
    ensures r.state == Merged ==> Reaches(r, DeployGreen, l, DeployedStaging) && IsTerminal(DeployedStaging)
    ensures r.state == Blocked ==> Reaches(r, Escalate, l, Escalated) && IsTerminal(Escalated)
  {
    hide IsText, CreateBlock;
  }

  /** A quota signal changes nothing while the run is at work, and a block is accepted then with its cause. */
  lemma AtWork(r: Run, l: Limits, cause: BlockCause, output: string, remote: Option<bool>)
    requires r.state !in {DeployedStaging, Blocked, Escalated}
    requires IsText(output) && (cause == NoOutput ==> remote.Some?)
    ensures ApplyEvent(r, Plain(QuotaHit), l) == Ok(Step(r, []))
    ensures Reaches(r, Block(cause, output, remote), l, Blocked)
    ensures Next(r, Plain(Block(cause, output, remote)), l).blocked
         == Some(BlockInfo(cause, output, if cause == NoOutput then remote else None))
  {
  }

  /** The last event of a merge, a deployment or an escalation may be delivered again, with any version, and
      changes nothing. */
  lemma LastEventMayRepeat(r: Run, i: Input, l: Limits, version: Option<nat>)
    requires IsEffective(r, i, l) && i.event in {MergeDone, DeployGreen, Escalate}
    ensures ApplyEvent(Next(r, i, l), Input(i.event, version), l) == Ok(Step(Next(r, i, l), []))
  {
  }

  /** The state in which an event is for something new, told event by event. */
  ghost predicate IsExpected(s: RunState, e: Event) {
    match e
    case WorktreeReady(_) => s == Leased
    case DevDone(_, _, _) => s == Developing
    case GatesGreen | GatesRed => s == LocalGates
    case PrOpened(_) => s == PrOpen
    case CiGreen | CiRed | CiTimeout | ConflictDetected => s == CiWait
    case VerdictApprove | VerdictRequestChanges => s == Reviewing
    case MergeDone => s == MergeRequested
    case DeployGreen => s == Merged
    case Escalate => s == Blocked
    case Block(_, _, _) | QuotaHit => s !in {DeployedStaging, Blocked, Escalated}
  }

  /** The event is the one that led here, delivered again. */
  ghost predicate IsRepeated(s: RunState, e: Event) {
    (s == Merged && e == MergeDone) || (s == DeployedStaging && e == DeployGreen) || (s == Escalated && e == Escalate)
  }

  /** A branch or a pull request without text. */
  ghost predicate IsMalformed(e: Event) {
    (e.WorktreeReady? && !IsText(e.branch)) || (e.PrOpened? && !IsText(e.pullRequest))
  }

  /** A block must say what it saw and, for a missing output, whether a branch was pushed. */
  ghost predicate HasBadBlock(e: Event) {
    || (e.Block? && (!IsText(e.output) || (e.cause == NoOutput && e.remote.None?)))
    || (e.DevDone? && e.diffEmpty && !IsText(e.output))
  }

  /** Every event is accepted or refused for one reason, the first of these: it is malformed; it is stale; it is
      not for this state; the work is to be resumed, not restarted; it is for another branch or has a bad block. A
      repeated event is accepted whatever its version. */
  lemma RefusalIsRight(r: Run, i: Input, l: Limits)
    ensures var e := i.event;
            var stale := i.expectedVersion.Some? && i.expectedVersion.value != r.version;
            var resumes := e.WorktreeReady? && r.branch.Some? && r.pullRequest.Some?;
            var otherBranch := e.WorktreeReady? && r.branch.Some? && r.branch.value != e.branch;
            ApplyEvent(r, i, l).Err? <==>
              || IsMalformed(e)
              || (!IsRepeated(r.state, e)
                  && (stale || !IsExpected(r.state, e) || resumes || otherBranch || HasBadBlock(e)))
    ensures ApplyEvent(r, i, l).Err? ==>
        ApplyEvent(r, i, l).error ==
          if IsMalformed(i.event) then InvalidEvent
          else if i.expectedVersion.Some? && i.expectedVersion.value != r.version then StaleRun
          else if !IsExpected(r.state, i.event) then InvalidTransition
          else if i.event.WorktreeReady? && r.branch.Some? && r.pullRequest.Some? then ResumeRequired
          else InvalidEvent
  {
    hide IsText, ApplyCounters, PatchOf;
  }

  /** What has happened since development began, told state by state: the only way to get there. `resumed`
      holds of a run that started at the wait for CI and has not been developed since. */
  predicate IsCourse(s: RunState, h: seq<Event>, resumed: bool)
    decreases |h|
  {
    match s
    case Leased => h == []
    case Developing => h == []
    case LocalGates => |h| == 1 && h[0].DevDone? && !h[0].diffEmpty
    case PrOpen => |h| == 2 && h[1] == GatesGreen && IsCourse(LocalGates, h[..1], resumed)
    case CiWait =>
      if h == [] then resumed
      else if h[|h| - 1].PrOpened? then IsCourse(PrOpen, h[..|h| - 1], resumed)
      else h[|h| - 1] == CiTimeout && IsCourse(CiWait, h[..|h| - 1], resumed)
    case Reviewing => h != [] && h[|h| - 1] == CiGreen && IsCourse(CiWait, h[..|h| - 1], resumed)
    case MergeRequested => h != [] && h[|h| - 1] == VerdictApprove && IsCourse(Reviewing, h[..|h| - 1], resumed)
    case Merged => h != [] && h[|h| - 1] == MergeDone && IsCourse(MergeRequested, h[..|h| - 1], resumed)
    case DeployedStaging => h != [] && h[|h| - 1] == DeployGreen && IsCourse(Merged, h[..|h| - 1], resumed)
    case Blocked => true
    case Escalated => true
  }

  lemma CourseStep(r: Run, i: Input, l: Limits, h: seq<Event>, resumed: bool)
    requires IsCourse(r.state, h, resumed)
    ensures var next := Next(r, i, l).state;
            var h' := if !IsEffective(r, i, l) then h else if next == Developing then [] else h + [i.event];
            IsCourse(next, h', resumed && next != Developing)
  {
    StepVersion(r, i, l);
    if IsEffective(r, i, l) {
      LateStates(r, i, l);
      assert (h + [i.event])[..|h|] == h;
      hide Next, IsEffective;
    }
  }

  /** Past the gates, green gates were seen in this development, unless the run resumed at the wait for CI. */
  lemma {:induction false} CourseHasGreenGates(s: RunState, h: seq<Event>, resumed: bool)
    requires IsCourse(s, h, resumed) && !resumed
    requires s in {PrOpen, CiWait, Reviewing, MergeRequested, Merged, DeployedStaging}
    ensures GatesGreen in h
    decreases |h|
  {
    if s != PrOpen {
      var front, e := h[..|h| - 1], h[|h| - 1];
      var from := if s == CiWait && e.PrOpened? then PrOpen
                  else if s == CiWait || s == Reviewing then CiWait
                  else if s == MergeRequested then Reviewing
                  else if s == Merged then MergeRequested else Merged;
      CourseHasGreenGates(from, front, resumed);
    }
  }

  /** The run has been in development at some time. */
  function WasDeveloped(r: Run, inputs: seq<Input>, l: Limits): bool {
    || (inputs != [] && WasDeveloped(r, inputs[..|inputs| - 1], l))
    || Play(r, inputs, l).state == Developing
  }

  function IsResumed(s: StartInput, inputs: seq<Input>, l: Limits): bool
    requires StartRun(s).Ok?
  {
    s.branch.Some? && s.pullRequest.Some? && !WasDeveloped(StartRun(s).value, inputs, l)
  }

  /** In every run, the effective events since development spell out the course to the state it is in: a
      difference, green gates, a pull request, any waits, a green CI, an approval, the merge, the deployment. */
  lemma {:induction false} RunFollowsCourse(s: StartInput, inputs: seq<Input>, l: Limits)
    requires StartRun(s).Ok?
    ensures var r := StartRun(s).value;
            IsCourse(Play(r, inputs, l).state, SinceDevelopment(r, inputs, l), IsResumed(s, inputs, l))
  {
    var r := StartRun(s).value;
    if inputs != [] {
      var front, last := inputs[..|inputs| - 1], inputs[|inputs| - 1];
      RunFollowsCourse(s, front, l);
      CourseStep(Play(r, front, l), last, l, SinceDevelopment(r, front, l), IsResumed(s, front, l));
      hide Next, IsEffective, IsCourse;
    }
  }

  lemma HistoryGrows(h: seq<Event>, e: Event)
    ensures e == CiGreen ==> GreenSeen(h + [e])
    ensures GreenSeen(h) && e == VerdictApprove ==> ApprovedAfterGreen(h + [e])
    ensures ApprovedAfterGreen(h) ==> ApprovedAfterGreen(h + [e])
  {
    var g := h + [e];
    assert g[|h|] == e && forall i :: 0 <= i < |h| ==> g[i] == h[i];
    if GreenSeen(h) && e == VerdictApprove {
      var i :| 0 <= i < |h| && h[i] == CiGreen;
      assert g[i] == CiGreen && g[|h|] == VerdictApprove;
    }
    if ApprovedAfterGreen(h) {
      var i, j :| 0 <= i < j < |h| && h[i] == CiGreen && h[j] == VerdictApprove;
      assert g[i] == CiGreen && g[j] == VerdictApprove;
    }
  }

  /** Nothing is merged, or even requested to be, without a green CI and then an approval of the
      development that is being merged. */
  lemma {:induction false} MergeNeedsGreenThenApproval(s: StartInput, inputs: seq<Input>, l: Limits)
    requires StartRun(s).Ok?
    ensures var r, h := Play(StartRun(s).value, inputs, l), SinceDevelopment(StartRun(s).value, inputs, l);
            && (r.state == Reviewing ==> GreenSeen(h))
            && (r.state in {MergeRequested, Merged, DeployedStaging} ==> ApprovedAfterGreen(h))
  {
    var r := StartRun(s).value;
    if inputs != [] {
      hide Next, IsEffective, GreenSeen, ApprovedAfterGreen;
      var front, last := inputs[..|inputs| - 1], inputs[|inputs| - 1];
      MergeNeedsGreenThenApproval(s, front, l);
      var before, h := Play(r, front, l), SinceDevelopment(r, front, l);
      StepVersion(before, last, l);
      if IsEffective(before, last, l) {
        LateStates(before, last, l);
        HistoryGrows(h, last.event);
      }
    }
  }

  // ---------- length of a run ----------

  /** Longest way from a state to the end when no counter moves. */
  function StraightLength(s: RunState): nat {
    match s
    case Leased => 9 case Developing => 8 case LocalGates => 7 case PrOpen => 6 case CiWait => 5
    case Reviewing => 4 case MergeRequested => 3 case Merged => 2 case DeployedStaging => 0
    case Blocked => 1 case Escalated => 0
  }

  /** Steps a run can still make without a conflict: the straight way, four more for each attempt left,
      five for each review round left, one for each wait left. */
  function Potential(r: Run, l: Limits): nat {
    StraightLength(r.state)
    + if IsWorking(r.state) then 4 * Left(l.maxAttempts, r.attempts) + 5 * Left(l.maxReviewRounds, r.reviewRounds)
                                 + Left(l.maxCiWaits, r.ciWaits)
      else 0
  }

  lemma StepSpendsPotential(r: Run, i: Input, l: Limits)
    requires IsEffective(r, i, l)
    ensures Potential(Next(r, i, l), l) + 1 <= Potential(r, l) + if i.event.ConflictDetected? then 4 else 0
  {
  }

  /** The version counts the effective steps, and their number is bounded by the start and the conflicts. */
  lemma {:induction false} StepsAreBounded(r: Run, inputs: seq<Input>, l: Limits)
    ensures Play(r, inputs, l).version == r.version + Steps(r, inputs, l)
    ensures Steps(r, inputs, l) + Potential(Play(r, inputs, l), l) <= Potential(r, l) + 4 * Conflicts(r, inputs, l)
  {
    if inputs != [] {
      var front, last := inputs[..|inputs| - 1], inputs[|inputs| - 1];
      StepsAreBounded(r, front, l);
      StepVersion(Play(r, front, l), last, l);
      if IsEffective(Play(r, front, l), last, l) {
        StepSpendsPotential(Play(r, front, l), last, l);
      }
    }
  }

  /** A run from the start makes at most nine steps, plus four per attempt left, five per review round
      left, one per wait and four per conflict: finitely many when conflicts are. */
  lemma {:induction false} RunLength(s: StartInput, inputs: seq<Input>, l: Limits)
    requires StartRun(s).Ok?
    ensures var r := StartRun(s).value;
            && Play(r, inputs, l).version == Steps(r, inputs, l)
            && Steps(r, inputs, l)
               <= 9 + 4 * Left(l.maxAttempts, s.attempts) + 5 * Left(l.maxReviewRounds, s.reviewRounds)
                  + l.maxCiWaits + 4 * Conflicts(r, inputs, l)
  {
    StepsAreBounded(StartRun(s).value, inputs, l);
  }

  // ---------- the bound is attained ----------

  lemma {:induction false} PlayFromFront(r: Run, first: Input, rest: seq<Input>, l: Limits)
    ensures var inputs, next := [first] + rest, Next(r, first, l);
            && Play(r, inputs, l) == Play(next, rest, l)
            && Steps(r, inputs, l) == Steps(next, rest, l) + (if IsEffective(r, first, l) then 1 else 0)
            && Conflicts(r, inputs, l) == Conflicts(next, rest, l)
                 + (if IsEffective(r, first, l) && first.event.ConflictDetected? then 1 else 0)
  {
    var inputs := [first] + rest;
    if rest == [] {
      assert inputs[..0] == [];
      assert Play(r, inputs[..0], l) == r;
    } else {
      assert inputs[..|inputs| - 1] == [first] + rest[..|rest| - 1];
      PlayFromFront(r, first, rest[..|rest| - 1], l);
    }
  }

  const SOME_TEXT := "x"

  lemma SomeTextIsText()
    ensures IsText(SOME_TEXT)
  {
    assert !IsBlank(SOME_TEXT[0]);
  }

  ghost predicate Lasts(r: Run, inputs: seq<Input>, l: Limits, steps: int, conflicts: int) {
    Steps(r, inputs, l) == steps && Conflicts(r, inputs, l) == conflicts
  }

  /** Some continuation makes exactly this many effective steps, with this many conflicts. */
  ghost predicate CanLast(r: Run, l: Limits, steps: int, conflicts: int) {
    exists inputs :: Lasts(r, inputs, l, steps, conflicts)
  }

  lemma OneMore(r: Run, e: Event, l: Limits, steps: nat, conflicts: nat)
    requires IsEffective(r, Plain(e), l) && CanLast(Next(r, Plain(e), l), l, steps, conflicts)
    ensures CanLast(r, l, steps + 1, conflicts + if e.ConflictDetected? then 1 else 0)
  {
    var rest :| Lasts(Next(r, Plain(e), l), rest, l, steps, conflicts);
    PlayFromFront(r, Plain(e), rest, l);
    assert Lasts(r, [Plain(e)] + rest, l, steps + 1, conflicts + if e.ConflictDetected? then 1 else 0);
  }

  const NO_TROUBLE := DevDone(false, true, "")
  const PUSHED := PrOpened(SOME_TEXT)

  /** The run after development, gates and pull request. */
  function Developed(r: Run): Run {
    r.(state := CiWait, pullRequest := Some(SOME_TEXT), version := r.version + 3)
  }

  lemma DevelopThenLast(r: Run, l: Limits, steps: nat, conflicts: nat)
    requires r.state == Developing && CanLast(Developed(r), l, steps, conflicts)
    ensures CanLast(r, l, steps + 3, conflicts)
  {
    SomeTextIsText();
    var gates := Next(r, Plain(NO_TROUBLE), l);
    var pr := Next(gates, Plain(GatesGreen), l);
    assert Next(pr, Plain(PUSHED), l) == Developed(r);
    OneMore(pr, PUSHED, l, steps, conflicts);
    OneMore(gates, GatesGreen, l, steps + 1, conflicts);
    OneMore(r, NO_TROUBLE, l, steps + 2, conflicts);
  }

  /** One way back to development and through to CI again costs four steps. */
  lemma DetourThenLast(r: Run, back: Event, l: Limits, steps: nat, conflicts: nat)
    requires IsEffective(r, Plain(back), l) && Next(r, Plain(back), l).state == Developing
    requires CanLast(Developed(Next(r, Plain(back), l)), l, steps, conflicts)
    ensures CanLast(r, l, steps + 4, conflicts + if back.ConflictDetected? then 1 else 0)
  {
    DevelopThenLast(Next(r, Plain(back), l), l, steps, conflicts);
    OneMore(r, back, l, steps + 3, conflicts);
  }

  function Moved(r: Run, to: RunState): Run { r.(state := to, version := r.version + 1) }

  /** The events that lead out of the wait for CI and of the review, while their counters allow. */
  ghost predicate Leads(r: Run, e: Event, l: Limits, to: Run) {
    IsEffective(r, Plain(e), l) && Next(r, Plain(e), l) == to
  }

  lemma AfterReview(r: Run, e: Event, l: Limits)
    ensures r.state == Reviewing && e == VerdictApprove ==> Leads(r, e, l, Moved(r, MergeRequested))
    ensures r.state == MergeRequested && e == MergeDone ==> Leads(r, e, l, Moved(r, Merged))
  {
  }

  /** A late block and its escalation. */
  lemma LastTwoSteps(r: Run, l: Limits)
    requires r.state == Merged
    ensures CanLast(r, l, 2, 0)
  {
    SomeTextIsText();
    var late := Block(GitError, SOME_TEXT, None);
    var blocked := Next(r, Plain(late), l);
    assert Lasts(Next(blocked, Plain(Escalate), l), [], l, 0, 0);
    OneMore(blocked, Escalate, l, 0, 0);
    OneMore(r, late, l, 1, 0);
  }

  /** Approval, merge, a late block and its escalation. */
  lemma LastFourSteps(r: Run, l: Limits)
    requires r.state == Reviewing
    ensures CanLast(r, l, 4, 0)
  {
    hide Next, IsEffective, CanLast;
    var a, b := Moved(r, MergeRequested), Moved(Moved(r, MergeRequested), Merged);
    AfterReview(r, VerdictApprove, l);
    AfterReview(a, MergeDone, l);
    LastTwoSteps(b, l);
    OneMore(a, MergeDone, l, 2, 0);
    OneMore(r, VerdictApprove, l, 3, 0);
  }

  lemma FromCiBack(r: Run, l: Limits)
    requires r.state == CiWait
    ensures Leads(r, ConflictDetected, l, Moved(r, Developing))
    ensures r.attempts < l.maxAttempts ==> Leads(r, CiRed, l, Moved(r, Developing).(attempts := r.attempts + 1))
  {
  }

  lemma FromCiOn(r: Run, l: Limits)
    requires r.state == CiWait
    ensures Leads(r, CiGreen, l, Moved(r, Reviewing).(lastReviewedAfterFix := r.reviewRounds >= l.maxReviewRounds))
    ensures r.ciWaits < l.maxCiWaits ==> Leads(r, CiTimeout, l, Moved(r, CiWait).(ciWaits := r.ciWaits + 1))
  {
  }

  lemma InReview(r: Run, l: Limits)
    requires r.state == Reviewing && r.reviewRounds < l.maxReviewRounds
    ensures Leads(r, VerdictRequestChanges, l,
                  Moved(r, Developing).(reviewRounds := r.reviewRounds + 1, lastReviewedAfterFix := false))
  {
  }

  /** How the potential changes on each of these moves. */
  lemma PotentialAlong(r: Run, l: Limits)
    ensures r.state == CiWait ==> Potential(Developed(Moved(r, Developing)), l) == Potential(r, l)
    ensures r.state == CiWait && r.ciWaits < l.maxCiWaits ==>
        Potential(Moved(r, CiWait).(ciWaits := r.ciWaits + 1), l) + 1 == Potential(r, l)
    ensures r.state == CiWait && r.attempts < l.maxAttempts ==>
        Potential(Developed(Moved(r, Developing).(attempts := r.attempts + 1)), l) + 4 == Potential(r, l)
    ensures r.state == CiWait ==> forall last ::
        Potential(Moved(r, Reviewing).(lastReviewedAfterFix := last), l) + 1 == Potential(r, l)
    ensures r.state == Reviewing && r.reviewRounds < l.maxReviewRounds ==>
        var next := Moved(r, Developing).(reviewRounds := r.reviewRounds + 1, lastReviewedAfterFix := false);
        Potential(Developed(next), l) + 4 == Potential(r, l)
    ensures r.state == Reviewing && Left(l.maxReviewRounds, r.reviewRounds) == 0
            && Left(l.maxAttempts, r.attempts) == 0 && Left(l.maxCiWaits, r.ciWaits) == 0 ==>
              Potential(r, l) == 4
  {
  }

  /** From the wait for CI or the review, the whole potential can be used up, with any number of
      conflicts on the way from CI. */
  lemma {:induction false} PotentialCanBeSpent(r: Run, l: Limits, conflicts: nat)
    requires || r.state == CiWait
             || (r.state == Reviewing && conflicts == 0 && r.attempts >= l.maxAttempts && r.ciWaits >= l.maxCiWaits)
    ensures CanLast(r, l, Potential(r, l) + 4 * conflicts, conflicts)
    decreases conflicts, Left(l.maxReviewRounds, r.reviewRounds), Left(l.maxAttempts, r.attempts),
              Left(l.maxCiWaits, r.ciWaits), r.state == CiWait
  {
    PotentialAlong(r, l);
    hide Next, IsEffective, CanLast, Potential;
    if r.state == CiWait {
      FromCiBack(r, l);
      FromCiOn(r, l);
    }
    if r.state == Reviewing && r.reviewRounds < l.maxReviewRounds {
      InReview(r, l);
      var again := Developed(Next(r, Plain(VerdictRequestChanges), l));
      PotentialCanBeSpent(again, l, 0);
      DetourThenLast(r, VerdictRequestChanges, l, Potential(again, l), 0);
    } else if r.state == Reviewing {
      LastFourSteps(r, l);
    } else if conflicts > 0 {
      var again := Developed(Next(r, Plain(ConflictDetected), l));
      PotentialCanBeSpent(again, l, conflicts - 1);
      DetourThenLast(r, ConflictDetected, l, Potential(again, l) + 4 * (conflicts - 1), conflicts - 1);
    } else if r.ciWaits < l.maxCiWaits {
      var next := Next(r, Plain(CiTimeout), l);
      PotentialCanBeSpent(next, l, 0);
      OneMore(r, CiTimeout, l, Potential(next, l), 0);
    } else if r.attempts < l.maxAttempts {
      var again := Developed(Next(r, Plain(CiRed), l));
      PotentialCanBeSpent(again, l, 0);
      DetourThenLast(r, CiRed, l, Potential(again, l), 0);
    } else {
      var next := Next(r, Plain(CiGreen), l);
      PotentialCanBeSpent(next, l, 0);
      OneMore(r, CiGreen, l, Potential(next, l), 0);
    }
  }

  lemma FirstStep(r: Run, branch: string, l: Limits)
    requires r.state == Leased && CanRestartDevelopment(r) && IsText(branch)
        && (r.branch.None? || r.branch.value == branch)
    ensures Leads(r, WorktreeReady(branch), l, Moved(r, Developing).(branch := Some(branch)))
    ensures Potential(Developed(Moved(r, Developing).(branch := Some(branch))), l) + 4 == Potential(r, l)
  {
  }

  /** The bound on the length of a run is sharp: for any start, any limits and any number of conflicts
      some run makes exactly that many steps. */
  lemma RunLengthIsSharp(s: StartInput, l: Limits, conflicts: nat)
    requires StartRun(s).Ok?
    ensures CanLast(StartRun(s).value, l, Potential(StartRun(s).value, l) + 4 * conflicts, conflicts)
  {
    var r := StartRun(s).value;
    if r.state == CiWait {
      PotentialCanBeSpent(r, l, conflicts);
    } else {
      SomeTextIsText();
      var branch := if s.branch.Some? then s.branch.value else SOME_TEXT;
      FirstStep(r, branch, l);
      hide Next, IsEffective, CanLast, Potential;
      var again := Developed(Next(r, Plain(WorktreeReady(branch)), l));
      PotentialCanBeSpent(again, l, conflicts);
      DetourThenLast(r, WorktreeReady(branch), l, Potential(again, l) + 4 * conflicts, conflicts);
    }
  }
}
