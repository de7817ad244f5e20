/** The delivery run: states, events, counters and transitions
    (packages/delivery/src/run.ts, run-transitions.ts, run-counters.ts, run-event-check.ts, run-resume.ts,
    block-cause.ts). */
module DeliveryRun {
  import opened Common

  datatype RunState = Leased | Developing | LocalGates | PrOpen | CiWait | Reviewing | MergeRequested | Merged
                    | DeployedStaging | Blocked | Escalated

  datatype BlockCause = Dependency | AmbiguousSpec | CiFailed | Conflicting | Quota | ReviewExhausted | NoOutput
                      | GitError | CiTimedOut

  datatype BlockInfo = BlockInfo(cause: BlockCause, output: string, remoteBranchExists: Option<bool>)

  datatype Run = Run(ticket: string, state: RunState, attempts: nat, reviewRounds: nat, ciWaits: nat,
                     blocked: Option<BlockInfo>, branch: Option<string>, pullRequest: Option<string>,
                     lastReviewedAfterFix: bool, version: nat)

  datatype Limits = Limits(maxAttempts: nat, maxReviewRounds: nat, maxCiWaits: nat)

  datatype Event =
    | WorktreeReady(branch: string)
    | DevDone(diffEmpty: bool, remoteBranchExists: bool, output: string)
    | GatesGreen | GatesRed
    | PrOpened(pullRequest: string)
    | CiGreen | CiRed | CiTimeout | ConflictDetected
    | VerdictApprove | VerdictRequestChanges
    | MergeDone | DeployGreen
    | Block(cause: BlockCause, output: string, remote: Option<bool>)
    | Escalate | QuotaHit

  /** An event as received; a missing `output` reads as the empty text. */
  datatype Input = Input(event: Event, expectedVersion: Option<nat>)

  datatype Effect = PrepareWorktree | StartDev | RunGates | OpenPr | WaitCi | StartReview | RequestMerge
                  | AwaitDeploy | RaiseEscalation | Notify(cause: BlockCause)

  datatype RunError = InvalidEvent | StaleRun | InvalidTransition | ResumeRequired

  datatype Step = Step(run: Run, effects: seq<Effect>)

  // ---------- start ----------

  datatype StartInput = StartInput(ticket: string, attempts: nat, reviewRounds: nat, branch: Option<string>,
                                   pullRequest: Option<string>)

  /** A pushed branch with an open pull request is resumed at the wait for CI, never restarted. */
  function StartRun(i: StartInput): Result<Run, RunError> {
    if !IsText(i.ticket) || !IsOptionalText(i.branch) || !IsOptionalText(i.pullRequest) then Err(InvalidEvent)
    else
      var state := if i.branch.Some? && i.pullRequest.Some? then CiWait else Leased;
      Ok(Run(i.ticket, state, i.attempts, i.reviewRounds, 0, None, i.branch, i.pullRequest, false, 0))
  }

  // ---------- transition table ----------

  datatype Transition = Go(to: RunState, effects: seq<Effect>) | Neutral | Replay

  predicate IsWorking(s: RunState) { !(s == DeployedStaging || s == Blocked || s == Escalated) }

  /** Allowed transitions; absent means refused. */
  function Table(s: RunState, e: Event): Option<Transition> {
    if e.QuotaHit? && IsWorking(s) then Some(Neutral)
    else if e.Block? && IsWorking(s) then Some(Go(Blocked, []))
    else match (s, e)
      case (Leased, WorktreeReady(_)) => Some(Go(Developing, [StartDev]))
      case (Developing, DevDone(_, _, _)) => Some(Go(LocalGates, [RunGates]))
      case (LocalGates, GatesGreen) => Some(Go(PrOpen, [OpenPr]))
      case (LocalGates, GatesRed) => Some(Go(Developing, [StartDev]))
      case (PrOpen, PrOpened(_)) => Some(Go(CiWait, [WaitCi]))
      case (CiWait, CiGreen) => Some(Go(Reviewing, [StartReview]))
      case (CiWait, CiRed) => Some(Go(Developing, [StartDev]))
      case (CiWait, CiTimeout) => Some(Go(CiWait, [WaitCi]))
      case (CiWait, ConflictDetected) => Some(Go(Developing, [StartDev]))
      case (Reviewing, VerdictApprove) => Some(Go(MergeRequested, [RequestMerge]))
      case (Reviewing, VerdictRequestChanges) => Some(Go(Developing, [StartDev]))
      case (MergeRequested, MergeDone) => Some(Go(Merged, [AwaitDeploy]))
      case (Merged, DeployGreen) => Some(Go(DeployedStaging, []))
      case (Merged, MergeDone) => Some(Replay)
      case (DeployedStaging, DeployGreen) => Some(Replay)
      case (Blocked, Escalate) => Some(Go(Escalated, [RaiseEscalation]))
      case (Escalated, Escalate) => Some(Replay)
      case _ => None
  }

  // ---------- counters ----------

  /** Fields of a run that an event changes, or the block it runs into. */
  datatype Outcome = Proceed(run: Run) | Stop(cause: BlockCause)

  function ApplyCounters(r: Run, e: Event, l: Limits): Outcome {
    match e
    case GatesRed => if r.attempts >= l.maxAttempts then Stop(CiFailed) else Proceed(r.(attempts := r.attempts + 1))
    case CiRed => if r.attempts >= l.maxAttempts then Stop(CiFailed) else Proceed(r.(attempts := r.attempts + 1))
    case VerdictRequestChanges =>
      if r.reviewRounds >= l.maxReviewRounds then Stop(ReviewExhausted)
      else Proceed(r.(reviewRounds := r.reviewRounds + 1, lastReviewedAfterFix := false))
    case CiTimeout => if r.ciWaits >= l.maxCiWaits then Stop(CiTimedOut) else Proceed(r.(ciWaits := r.ciWaits + 1))
    case CiGreen => Proceed(r.(lastReviewedAfterFix := r.reviewRounds >= l.maxReviewRounds))
    case Escalate => Proceed(r.(attempts := 0, reviewRounds := 0, ciWaits := 0))
    case _ => Proceed(r)
  }

  // ---------- events ----------

  predicate WellFormed(e: Event) {
    (e.WorktreeReady? ==> IsText(e.branch)) && (e.PrOpened? ==> IsText(e.pullRequest))
  }

  function CreateBlock(cause: BlockCause, output: string, remote: Option<bool>): Result<BlockInfo, RunError> {
    if !IsText(output) then Err(InvalidEvent)
    else if cause != NoOutput then Ok(BlockInfo(cause, output, None))
    else if remote.None? then Err(InvalidEvent)
    else Ok(BlockInfo(cause, output, remote))
  }

  /** The block an event carries: an explicit one, or a development that produced no difference. */
  function BlockOf(e: Event): Result<Option<BlockInfo>, RunError> {
    var b: Option<Result<BlockInfo, RunError>> := match e
      case Block(cause, output, remote) => Some(CreateBlock(cause, output, remote))
      case DevDone(true, remote, output) => Some(CreateBlock(NoOutput, output, Some(remote)))
      case _ => None;
    if b.None? then Ok(None) else if b.value.Err? then Err(b.value.error) else Ok(Some(b.value.value))
  }

  const REACHED := "cap reached"

  function PatchOf(r: Run, e: Event): Run {
    match e
    case WorktreeReady(branch) => r.(branch := Some(branch))
    case PrOpened(pullRequest) => r.(pullRequest := Some(pullRequest))
    case _ => r
  }

  predicate CanRestartDevelopment(r: Run) { r.branch.None? || r.pullRequest.None? }

  predicate BranchRefused(r: Run, e: Event) {
    e.WorktreeReady? && r.branch.Some? && r.branch.value != e.branch
  }

  /** Checks in order: payload, replay, version, transition, restart and branch; then counters and blocks. */
  function ApplyEvent(r: Run, i: Input, l: Limits): Result<Step, RunError> {
    var e := i.event;
    var t := Table(r.state, e);
    if !WellFormed(e) then Err(InvalidEvent)
    else if t == Some(Replay) then Ok(Step(r, []))
    else if i.expectedVersion.Some? && i.expectedVersion.value != r.version then Err(StaleRun)
    else if t.None? then Err(InvalidTransition)
    else if e.WorktreeReady? && r.state == Leased && !CanRestartDevelopment(r) then Err(ResumeRequired)
    else if BranchRefused(r, e) then Err(InvalidEvent)
    else if t == Some(Neutral) then Ok(Step(r, []))
    else
      var counted := ApplyCounters(r, e, l);
      var carried := BlockOf(e);
      if carried.Err? then Err(carried.error)
      else
        var block := if carried.value.Some? then carried.value
                     else if counted.Stop? then Some(BlockInfo(counted.cause, REACHED, None)) else None;
        var patched := PatchOf(if counted.Proceed? then counted.run else r, e);
        var next := patched.(blocked := if block.Some? then block else r.blocked,
                             state := if block.Some? then Blocked else t.value.to,
                             version := r.version + 1);
        Ok(Step(next, if block.Some? then [Notify(block.value.cause)] else t.value.effects))
  }

  // ---------- resumption ----------

  /** The effect to ask for again in each state; nothing in a terminal one. */
  function Resume(s: RunState): Option<Effect> {
    match s
    case Leased => Some(PrepareWorktree)
    case Developing => Some(StartDev)
    case LocalGates => Some(RunGates)
    case PrOpen => Some(OpenPr)
    case CiWait => Some(WaitCi)
    case Reviewing => Some(StartReview)
    case MergeRequested => Some(RequestMerge)
    case Merged => Some(AwaitDeploy)
    case DeployedStaging => None
    case Blocked => Some(RaiseEscalation)
    case Escalated => None
  }

  function ResumePoint(r: Run): Result<Option<Effect>, RunError> {
    if r.state == Leased && !CanRestartDevelopment(r) then Err(ResumeRequired) else Ok(Resume(r.state))
  }

  predicate IsTerminal(s: RunState) { s == DeployedStaging || s == Escalated }
}
