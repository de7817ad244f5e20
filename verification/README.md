# Verified model of the decision layer

This project models, in Dafny 4.11, the parts of the repository that decide things, and proves what they
promise. Everything is checked by `dafny verify dfyconfig.toml`.

| component | modules | what is hard about it |
|---|---|---|
| Dependency graph | `TicketKey`, `Reachability`, `Dependencies`, `EdgeKeys`, `DependencyGraph`, `GraphSearch`, `GraphStore` | Graphs are immutable values over one shared, mutable, append-only index. Each graph sees only entries up to its own version, and extending an old graph forks the index. The index of every live graph must go on agreeing with its plain edge list. |
| Scheduler | `Sorting`, `Scheduler`, `SchedulerProgress` | Ranking is a strict total order, and on an acyclic graph the scheduler never deadlocks. |
| Path patterns | `Wildcards`, `ScopeMatch` | A two-pointer loop and a backward table must equal a plain recursive meaning. |
| Layered rules | `RuleStrength`, `RuleLayers`, `RuleContext`, `RuleLocking`, `RuleEffects`, `RuleResolution`, `RuleVerdicts` | Nothing locked can later be weakened, from the first layer to the verdict that lets a delivery pass; and whatever a layer asks for takes effect at the end or is reported. |
| Shared quota | `QuotaState`, `QuotaBackoff`, `QuotaUsage`, `QuotaRuns` | Back-off with hard bounds, exact window counters and an exact "earliest start" over whole runs. |
| Delivery run | `DeliveryRun`, `DeliveryRuns` | Invariants, history and a sharp bound on the length of every run. |
| Leases and locks | `Leases`, `Locks` | Mutual exclusion in time and absence of wait cycles. |
| Key rotation | `KeyRings`, `KeyRotation` | A compare-and-swap rewrite racing with ordinary writers. |
| Hourly admission | `AiLedger`, `AiAdmissions`, `AiQuotas` | A sliding window over an audit log filled by interleaved calls. |

Code that changes state in the source is imperative here: the shared index, the table of indexes, the
composition context and the encrypted tables are classes, and each of their methods is proved against a
function of the old state. Laws over whole runs are lemmas about those functions. Everything that comes from
outside (clock, jitter, nonces, concurrent writers, refused updates, arrival order) is a parameter and the
theorems hold for every value of it.

## Where the code differs from what one expects

The model follows the code. The members named prove each point.

- `releaseLock` drops the first entry of the target and holder, which may be an expired one; the lock that was
  to be released is then still held. `Locks.ReleaseFreesWhen` gives the exact condition and
  `Locks.ExpiredEntryShadowsRelease` a run.
- A lock with a duration that is not positive is granted, and is never active (`Locks.AcquireMeaning`).
- An override that repeats the enforcement of a locked rule is refused when its `max` is a text or a fraction
  (`RuleStrength.LockedSafeIsKept`).
- A usage cap of zero is always reached and announces a wait that never ends (`QuotaState.AnswerIsExact`,
  `QuotaState.ZeroCapNeverStarts`). A limit of zero admissions does the same (`AiLedger.ZeroCapNeverFrees`);
  apps/api/src/config.ts:41-44 refuses one, so it takes limits built by hand.
- The earliest start misleads when an applicable cap is already reached in a window recorded ahead of the clock,
  the one that holds the announced instant. `QuotaState.AnswerIsExact` gives the exact condition and
  `QuotaState.FutureWindowMisleads` a state; no run with one policy and a clock that never goes
  back gets there (`QuotaRuns.AnnouncedStartIsExact`).
- A quota signal is recognised only while it is the last one recorded, as docs/domain-model.md:742 says; a second
  delivery counts after another signal was recorded (`QuotaBackoff.OtherSignalForgets`), and after a first
  delivery that a burst swallowed (`QuotaBackoff.BurstForgetsSignal`). The exact conditions, on the state before a
  delivery and on the inputs of the first one, are `QuotaBackoff.ReplayIsNoop` and
  `QuotaBackoff.RecognisedUnlessSwallowed`.
- Usage ids are deduplicated among the last `maxSeenIds` counted ones only (`QuotaRuns.RepetitionIsIgnored`).
- An encrypted empty text cannot be decrypted, because decryption demands more bytes than the tag
  (`KeyRings.RoundTripsUnlessEmpty`, on bytes). The rotation counts such a row as failed and leaves it alone.
- An override can fail in silence in three ways: it asks to change the protection of a rule, to enable a rule that
  an upper layer disabled, or to disable a rule and change it at once. `RuleLocking.SilentOverrides` shows one of
  each; `RuleLocking.UnreportedIsGrantedIff` proves that there is no fourth.
- A conflict with the target branch costs a run nothing: `conflict_detected` has no counter, so the length of a run
  is bounded only together with the number of conflicts (`DeliveryRuns.RunLength`, sharp by
  `DeliveryRuns.RunLengthIsSharp`).

## Model

| member | source | states |
|---|---|---|
| `TicketKey.ParseFormatted` | packages/domain/src/ticket-key.ts:8-20 | every number that has a key is recovered by parsing that key |
| `TicketKey.FormatParsed` | packages/domain/src/ticket-key.ts:3-20 | a key that parses is the formatted text of its number: no second spelling (leading zero, sign) is accepted |
| `TicketKey.ParseInjective` | packages/domain/src/ticket-key.ts:13-20 | two keys with one number are the same key, so ordering by number is a total order on keys |
| `TicketKey.AssertUniqueKeys` | packages/domain/src/ticket-key.ts:30-37 | silent exactly when all keys parse and differ; otherwise it names the first faulty key with the right error |
| `Dependencies.OrderIsTotal` | packages/domain/src/dependency-graph.ts:19-22 | on well-formed edges the comparison never throws, is antisymmetric, and is zero only for equal edges |
| `Dependencies.OrderIsTransitive` | packages/domain/src/dependency-graph.ts:19-22 | the edge order is transitive |
| `Dependencies.FaultReads` | packages/domain/src/dependency-graph.ts:90-95 | an edge is well formed exactly if both ends are keys and its type is one of the two; a fault of the ticket is told before one of the target, and one of the type last |
| `Dependencies.InsertSorted` | packages/domain/src/dependency-graph.ts:77-88 | binary insertion puts in one copy of the edge and changes nothing else; a strictly sorted list without the edge stays strictly sorted |
| `Dependencies.SortedIsCanonical` | packages/domain/src/dependency-graph.ts:19-22 | a strictly sorted edge list is determined by its set of edges |
| `Dependencies.SortedReads` | packages/domain/src/dependency-graph.ts:19-22 | a list is sorted exactly when its edges rise by ticket number, then target number, then `blocks` before `related` |
| `EdgeKeys.EdgeKeyInjective` | packages/domain/src/dependency-graph.ts:38 | a well-formed edge shares its NUL-separated key with no other edge, however the other is spelt |
| `DependencyGraph.VisibleMembers` | packages/domain/src/dependency-graph.ts:112-113 | the targets that a version sees are those of the entries no newer than it |
| `DependencyGraph.RecordExtends` | packages/domain/src/dependency-graph.ts:40-46 | recording an edge extends the view of a graph that saw the whole index by that edge alone |
| `DependencyGraph.RecordHidden` | packages/domain/src/dependency-graph.ts:24-28 | a new edge recorded at a newer version is invisible to every older version: same targets in the same order, same keys |
| `DependencyGraph.SharedIndex.Record` | packages/domain/src/dependency-graph.ts:40-46 | the mutating step files the key and appends one entry, and changes nothing else |
| `DependencyGraph.SharedIndex.RecordAll` | packages/domain/src/dependency-graph.ts:57-58 | an index filled from an edge list shows exactly that list at its head |
| `GraphSearch.Expand` | packages/domain/src/dependency-graph.ts:112-117 | pushes exactly unseen successors, marks them, keeps the parent links a tree of real arcs, and leaves no visible successor unseen |
| `GraphSearch.TraceBack` | packages/domain/src/dependency-graph.ts:104-111 | following the parent links backwards and reversing gives a path of visible arcs |
| `GraphSearch.FindPath` | packages/domain/src/dependency-graph.ts:97-120 | the iterative search terminates; it returns a genuine path, or nothing exactly when no path exists |
| `GraphStore.AppendAtHead` | packages/domain/src/dependency-graph.ts:71-73 | appending in place at the head adds one edge for the new version and hides it from every older version |
| `GraphStore.CycleTest` | packages/domain/src/dependency-graph.ts:133-134 | on an acyclic graph, a way back from target to source exists exactly when the edge would close a cycle (a self-loop included) |
| `GraphStore.CycleIsGenuine` | packages/domain/src/dependency-graph.ts:134 | the reported walk is the refused edge followed by existing edges and closes on itself |
| `GraphStore.FiledIffPresent` | packages/domain/src/dependency-graph.ts:131-132 | the key lookup with its version test answers whether the edge is in the edge list |
| `GraphStore.Insert` | packages/domain/src/dependency-graph.ts:133-135 | for an unknown edge: a cycle error with a genuine cycle exactly when the target reaches the source, else the list with the edge inserted |
| `GraphStore.Decide` | packages/domain/src/dependency-graph.ts:131-135 | known exactly when the edge is present; otherwise the right next list or refusal |
| `GraphStore.IndexFromEdges` | packages/domain/src/dependency-graph.ts:54-62 | the index rebuilt for a graph object made elsewhere shows exactly its edges |
| `GraphStore.Store.IndexOf` | packages/domain/src/dependency-graph.ts:54-62 | returns the known index unchanged, or files a fresh one that shows exactly the graph's edges; no other index is touched |
| `GraphStore.Store.ExtendIndex` | packages/domain/src/dependency-graph.ts:64-74 | the next index shows the longer list, appended in place at the head or on a fresh branch, and every graph filed so far keeps its exact view |
| `GraphStore.Store.AddDependency` | packages/domain/src/dependency-graph.ts:127-136 | the outcome predicate `AddOutcome` (first edge fault; same graph when present; cycle refusal if and only if the target reaches the source; sorted acyclic result), and the view of every live graph is unchanged, forks from old graphs included |
| `GraphStore.Store.CreateDependencyGraph` | packages/domain/src/dependency-graph.ts:138-139 | succeeds exactly when all edges are well formed and the edge set is acyclic; the result is sorted, duplicate-free and has exactly the given edges; a refusal is right for the first edge that cannot be added (its own fault, or a genuine cycle through it and earlier edges); the view of every live graph is unchanged |
| `GraphStore.PrefixStep` | packages/domain/src/dependency-graph.ts:128-139 | one step of the fold succeeds exactly as far as the prefix is sound |
| `GraphStore.OrderIndependent` | packages/domain/src/dependency-graph.ts:19-22 | success and the resulting edge list depend on the set of edges alone |
| `GraphStore.BuildTwice` | packages/domain/src/dependency-graph.ts:138-139 | two calls with the same edges in any order and with any repetition succeed together and give the identical edge list |
| `Reachability.ArcClosesCycle` | packages/domain/src/dependency-graph.ts:133-134 | an arc closes a cycle in an acyclic set exactly when its target already reaches its source |
| `Scheduler.RankIsSortedPermutation` | packages/domain/src/selection-order.ts:18-40 | the ranking keeps every ticket exactly once and no ticket stands before one that goes ahead of it |
| `Scheduler.AheadIsStrict` | packages/domain/src/selection-order.ts:31-38 | the five-level comparison is a strict order |
| `Scheduler.KeysSeparate` | packages/domain/src/selection-order.ts:31-38 | with unique keys the order tells any two different tickets apart |
| `Scheduler.RankIgnoresInputOrder` | packages/domain/src/selection-order.ts:18-59 | with unique keys ranking, selection order and next ticket do not depend on the order of the input |
| `Scheduler.NextIsLeast` | packages/domain/src/selection-order.ts:53-59 | the next ticket is the least eligible ticket of the active sprint, and null exactly when there is none |
| `Scheduler.RankingReads` | packages/domain/src/selection-order.ts:18-40 | told on fields: tickets of the active sprint come first, then Critical before High before Medium before Low, then those whose blocking targets are all present and done, then the older, then the smaller number |
| `Scheduler.SelectionReads` | packages/domain/src/selection-order.ts:42-51 | the selection holds exactly the todo tickets whose blocking targets are all present and done, in that order |
| `Scheduler.NextReads` | packages/domain/src/selection-order.ts:53-59 | the next ticket is todo, in the active sprint, with every blocking target present and done, and no other such ticket is more urgent, told on fields; none exactly when there is no such ticket |
| `Scheduler.ByKeyHas` | packages/domain/src/selection-order.ts:11-12 | the key map holds exactly the keys of the tickets, each with a ticket of that key |
| `SchedulerProgress.WalkToEligible` | packages/domain/src/eligibility.ts:5-18 | following unfinished blockers from a todo ticket ends at an eligible one |
| `SchedulerProgress.NoDeadlock` | packages/domain/src/eligibility.ts:5-18 | while a ticket is todo in an acyclic plan with all blocking targets present, some ticket is eligible |
| `SchedulerProgress.OrderHead` | packages/domain/src/selection-order.ts:42-51 | the selection order is empty exactly when nothing is eligible, and its head is eligible |
| `SchedulerProgress.DrainCompletes` | packages/domain/src/selection-order.ts:42-51 | finishing the head of the selection order again and again completes every todo ticket exactly once, each after all its blockers |
| `Wildcards.StarAbsorbsPrefix` | packages/rules/src/scope-match.ts:18-19 | `*` stands for any run of characters of a segment |
| `Wildcards.EarliestIsEnough` | packages/rules/src/scope-match.ts:25-33 | the greedy step: the earliest place of the literal between two stars suffices, so one remembered star is enough |
| `Wildcards.MatchSegment` | packages/rules/src/scope-match.ts:19-40 | the two-pointer loop terminates and agrees with the recursive meaning of `*` on every pattern and text |
| `Wildcards.NextRow` | packages/rules/src/scope-match.ts:48-55 | one row of the table, filled from the end, is the meaning of one more pattern segment |
| `Wildcards.MatchSegments` | packages/rules/src/scope-match.ts:44-59 | the backward table agrees with the recursive meaning of `**` on every pattern and path |
| `Wildcards.AnyDepthAbsorbsPrefix` | packages/rules/src/scope-match.ts:42-43 | `**` absorbs any number of segments, none included |
| `ScopeMatch.MatchesPath` | packages/rules/src/scope-match.ts:64-72 | the method decides `Covers`, the meaning of a pattern; invalid patterns and paths never match |
| `ScopeMatch.NormalForm` | packages/rules/src/scope-match.ts:7-12 | normalisation is idempotent, keeps the segments and keeps whether a wildcard occurs |
| `ScopeMatch.RefusedExactly` | packages/rules/src/scope-match.ts:7-12 | a path is refused exactly if it holds a backslash or a NUL, starts with a slash, or has `..` standing between slashes or ends |
| `ScopeMatch.CoversIgnoresSpelling` | packages/rules/src/scope-match.ts:64-72 | normalising pattern or path first changes no answer |
| `ScopeMatch.PlainMeansSubtree` | packages/rules/src/scope-match.ts:61-71 | a pattern without wildcard means the same as that pattern followed by `/**`: the path and everything below it |
| `ScopeMatch.SplitJoin` | packages/rules/src/scope-match.ts:4-11 | joining clean segments and splitting again gives them back |
| `RuleStrength.SameParamsIsEquality` | packages/rules/src/strength.ts:30-37 | counting keys and comparing one way is equality of everything but `max` |
| `RuleStrength.LockedSafeIsKept` | packages/rules/src/strength.ts:39-60 | a change is accepted on a locked rule if and only if it keeps target and parameters, raises no numeric `max`, and carries no `max` but a whole number that is not negative; repeating an enforcement whose `max` is a text or a fraction is refused |
| `RuleStrength.KeptIsTransitive` | packages/rules/src/strength.ts:39-60 | several accepted changes in a row are still within the first form |
| `RuleStrength.KeptIsNotWeaker` | packages/rules/src/strength.ts:25-28 | a kept enforcement with no lower severity is never weaker |
| `RuleStrength.WeakerReads` | packages/rules/src/strength.ts:8-28 | told on fields: a change weakens exactly by advising what was blocking, by demanding less (gate, evidence, instruction), or, within one kind, by raising or dropping a numeric `max` |
| `RuleStrength.NotWeakerIsTransitive` | packages/rules/src/strength.ts:25-28 | not weakening is a preorder: several changes of which none weakens do not weaken together |
| `RuleContext.Context.AddRule` | packages/rules/src/compose-add.ts:18-35 | the mutating step equals the value-level addition, conflict, refusal and fatal collision included |
| `RuleContext.Context.ApplyAdds` | packages/rules/src/compose-add.ts:38-44 | the loop equals the fold of additions and stops at the first collision |
| `RuleContext.Context.ApplyOverride` | packages/rules/src/compose-override.ts:86-100 | the mutating step equals the value-level override |
| `RuleContext.Context.ApplyOverrides` | packages/rules/src/compose-override.ts:103-105 | the loop equals the fold of overrides |
| `RuleContext.Context.ApplyWaiver` | packages/rules/src/compose-waiver.ts:5-16 | the mutating step equals the value-level waiver |
| `RuleContext.Context.ApplyWaivers` | packages/rules/src/compose-waiver.ts:19-21 | the loop equals the fold of waivers |
| `RuleContext.Context.ApplyLocks` | packages/rules/src/compose-lock.ts:5-24 | both loops equal the fold of locks, added protected rules first |
| `RuleContext.Context.ComposeLayers` | packages/rules/src/compose.ts:11-23 | the four mutating passes over all layers equal the value-level composition |
| `RuleLocking.AddHoldsLocks` | packages/rules/src/compose-add.ts:8-35 | no addition removes, replaces or re-adds a locked rule |
| `RuleLocking.ChangeStillBinds` | packages/rules/src/compose-override.ts:64-78 | an override without weakening effect leaves a locked rule as binding as before |
| `RuleLocking.OverrideHoldsLocks` | packages/rules/src/compose-override.ts:86-100 | no override breaks any lock |
| `RuleLocking.OverrideAppliesOrReports` | packages/rules/src/compose-override.ts:64-100 | an override is reported, by one conflict with its rule, level and reason and with no rule changed, exactly when its rule is unknown, it has expired, or the rule is locked and would be weakened; otherwise it is applied to its rule (disabled and left as it is, or given what is asked for, the rest kept and the exclusions united) and no other rule changes |
| `RuleLocking.ConflictNamesFirstEffect` | packages/rules/src/compose-override.ts:15-50 | the conflict of a refused override names the first harm it would do to the locked rule, or, when it has expired, the first effect it speaks of |
| `RuleLocking.UnreportedIsGrantedIff` | packages/rules/src/compose-override.ts:86-100 | an unreported override grants all six fields it asks for if and only if, before the call, it asks for no change of protection, not to enable a disabled rule, and not to disable and change a rule at once |
| `RuleLocking.SilentOverrides` | packages/rules/src/compose-override.ts:95-98 | three concrete overrides that are neither reported nor granted: protecting a rule, enabling a disabled rule, disabling and hardening a rule at once |
| `RuleLocking.AddAppliesOrReports` | packages/rules/src/compose-add.ts:8-35 | an addition replaces what it names and changes no other rule exactly when its profiles are known, what it replaces is known and unlocked, and its id is free or replaced by itself; otherwise no rule changes and it is reported by a collision or by one conflict that names what stood against it |
| `RuleLocking.WaiverAppliesOrReports` | packages/rules/src/compose-waiver.ts:5-16 | a waiver is reported, with its reason, exactly when its rule is unknown or locked or it has expired; otherwise it is attached to its rule alone, if its file covers the path |
| `RuleLocking.LockedRefusesExactlyWeakening` | packages/rules/src/compose-override.ts:15-46 | a locked rule refuses an override in force if and only if it would disable, unlock, drop an agent, exclude a path, lower the severity or change more of the enforcement than lowering `max` |
| `RuleLocking.WaiveAllHoldsLocks` | packages/rules/src/compose-waiver.ts:5-16 | no waiver reaches a locked rule |
| `RuleLocking.LockAllIdsLocks` | packages/rules/src/compose-lock.ts:11-23 | every listed id that names a rule is locked afterwards and earlier locks hold |
| `RuleLocking.LockAllAddedLocks` | packages/rules/src/compose-lock.ts:6-10 | every protected rule that the layer added, and that is still there, is locked afterwards; earlier locks hold |
| `RuleLocking.LayerHoldsLocks` | packages/rules/src/compose.ts:15-20 | through one whole layer earlier locks hold, and the layer's own locks, on the ids it lists and on the protected rules it added, are in force when it ends |
| `RuleLocking.LaterLayersCannotWeaken` | packages/rules/src/compose-lock.ts:4-5 | for any stack of layers, whatever is locked still binds at the end: same scope, agents kept, nothing newly disabled or waived, severity and enforcement kept |
| `RuleLocking.ComposeInTwoParts` | packages/rules/src/compose.ts:11-23 | composing a stack is composing its upper part and then its lower part |
| `RuleLocking.FinalFormNotWeaker` | packages/rules/src/strength.ts:25-60 | the final form of a rule is never weaker than its form when it was locked |
| `RuleLocking.ListedLockBinds` | packages/rules/src/compose-lock.ts:11-23 | a listed lock binds from the end of its layer through all later layers |
| `RuleLocking.AddedLockBinds` | packages/rules/src/compose-lock.ts:4-10 | a protected rule added by a layer, and there when the layer ends, is locked and binds through all later layers |
| `RuleEffects.AddAllTold` | packages/rules/src/compose-add.ts:38-44 | over all additions of a layer: one that no other touches is in place, and what it replaced is gone, or a conflict names what stood against it |
| `RuleEffects.OverrideAllTold` | packages/rules/src/compose-override.ts:103-105 | over all overrides of a layer: one whose rule no other names is reported, or applied to its rule as it was before |
| `RuleEffects.WaiveAllTold` | packages/rules/src/compose-waiver.ts:19-21 | over all waivers of a layer: each rule that is not locked gains exactly the waivers in force on it, in order, and each one refused is reported with its reason |
| `RuleEffects.LockAllAddedTold` | packages/rules/src/compose-lock.ts:6-10 | exactly the rules of this level that the layer added as protected gain a lock, and nothing else changes |
| `RuleEffects.LockAllIdsTold` | packages/rules/src/compose-lock.ts:11-23 | exactly the listed rules gain a lock, nothing else changes, and an unknown id is reported |
| `RuleEffects.LayerTold` | packages/rules/src/compose.ts:15-20 | one whole layer: each addition, override, waiver and lock takes effect in the final state or is reported there, and a rule has nothing that the layer did not give it |
| `RuleEffects.UnnamedStaysInStack` | packages/rules/src/compose.ts:11-23 | through any stack of layers conflicts are only added, and a rule that no layer names stays as it is but for its lock |
| `RuleEffects.OverrideInStack` | packages/rules/src/compose.ts:11-23 | in any stack of layers, the one override that names its rule is reported at the end or is applied there to the rule as its layer found it |
| `RuleEffects.OverrideReachesResolution` | packages/rules/src/resolve.ts:65-78 | end to end: an override of a catalogue rule that no later layer names is reported in the resolution, or every field it asks for shows there |
| `RuleEffects.LastWordIsShown` | packages/rules/src/resolve.ts:65-78 | what a layer leaves of a rule that no later layer names is what the resolution shows of it, where it is meant, and its conflicts are in the resolution |
| `RuleEffects.AdditionReachesResolution` | packages/rules/src/resolve.ts:65-78 | end to end: a rule that a layer adds, left alone by its overrides and waivers and by later layers, is in force as written exactly where it is meant, or a conflict tells what stood against it |
| `RuleEffects.WaiverReachesResolution` | packages/rules/src/resolve.ts:65-78 | end to end: a waiver on a rule that no later layer names is reported with its reason, or takes the rule out of force where its file covers the path |
| `RuleResolution.OrderLayers` | packages/rules/src/resolve.ts:17-40 | succeeds exactly when no level occurs twice; the result is the ordered list of the specification, the error names the first repeated level |
| `RuleResolution.LayersRise` | packages/rules/src/resolve.ts:36-39 | ordered layers are the given ones in strictly rising precedence: organization, then group, then project |
| `RuleResolution.LongestPackageWins` | packages/rules/src/profiles.ts:17-23 | the selection is that of a longest package above the path, else the root selection |
| `RuleResolution.UnderMeansSegments` | packages/rules/src/profiles.ts:14-15 | of packages and paths in normal form, a package is above a path exactly if its segments are the first of the path's: `src/a` is not above `src/ab` |
| `RuleResolution.InitialHas` | packages/rules/src/compose-context.ts:48-59 | with unique ids every catalogue rule starts as it is, without exclusions, disabling or waivers, and locked exactly if its flag or the list of the catalogue guards it |
| `RuleResolution.ProfilesAreSelected` | packages/rules/src/profiles.ts:57-70 | the profiles of a resolution are exactly the core one, those selected for the package or the root, and the known ones that some layer declares |
| `RuleResolution.ResolveEffectiveRules` | packages/rules/src/resolve.ts:65-78 | the method that drives the mutable context equals the whole resolution as a value, errors in their order |
| `RuleResolution.RefusalIsRight` | packages/rules/src/resolve.ts:42-78 | a resolution is refused exactly for an invalid path, a selected profile that the catalogue does not know, a level posted twice or a collision of ids; the error is the first of these, and names a culprit |
| `RuleResolution.UnknownProfileIsReported` | packages/rules/src/profiles.ts:47-55 | a profile that a layer declares and the catalogue does not know is a conflict of that layer in the resolution |
| `RuleResolution.RelevantIsAccountedFor` | packages/rules/src/resolution.ts:39-54 | every entry in scope is in force, disabled or waived, and nothing in force is also listed as disabled or waived |
| `RuleResolution.ResolutionReads` | packages/rules/src/resolution.ts:16-50 | a rule is in force exactly if one of its profiles is selected, the role is among its agents, the path is under one of its patterns, if any, and under no exclusion, and it is neither disabled nor waived |
| `RuleResolution.AddedRuleIsInForce` | packages/rules/src/compose-add.ts:18-35 | a rule added without hindrance is in force exactly where its own scope applies, what it replaced is gone from the resolution, and every other rule is shown as before |
| `RuleResolution.WaivedRuleIsListed` | packages/rules/src/compose-waiver.ts:5-21 | a waiver in force that covers the path takes its rule out of the rules and lists it last among its waivers; in every other case it shows nowhere |
| `RuleResolution.BindingRuleIsBuilt` | packages/rules/src/resolution.ts:17-54 | a locked catalogue entry that still binds and was in scope is in the resolution |
| `RuleResolution.ProtectedRuleSurvives` | packages/rules/src/compose-context.ts:49-59 | a catalogue rule guarded by its flag or by the list, and in scope of profile and role, is in force with kept enforcement and, if it was blocking, still blocking, whatever the layers say |
| `RuleVerdicts.CanPassMeaning` | packages/rules/src/validate-evidence.ts:46-67 | a delivery can pass exactly when every blocking rule in force is discharged: its gate ran and never failed, or visible evidence |
| `RuleVerdicts.VisibleReads` | packages/rules/src/verdict.ts:4-21 | one printable ASCII character makes a reference visible, one made of spaces, line ends, fillers and marks of no width is not, and a text shows no more than its parts |
| `RuleVerdicts.CanPassEnforcesProtectedRules` | packages/rules/src/verdict.ts:9-32 | end to end: if a delivery can pass, each guarded and blocking catalogue rule in scope had its gate pass and never fail, or visible evidence, whatever layers were posted |
| `RuleVerdicts.CanPassEnforcesSelectedRules` | packages/rules/src/verdict.ts:9-32 | the same told from the input alone: for any guarded and blocking rule with a profile that the input selects |
| `RuleVerdicts.ReportMeaning` | packages/rules/src/validate-evidence.ts:46-67 | a report fails exactly when a gate of a blocking rule in force failed, and its unknown ids are exactly those proven that name no rule in force to be judged |
| `QuotaState.WindowStartUnique` | packages/delivery/src/quota-window.ts:11-13 | the window start is the only multiple of the width whose window holds the instant |
| `QuotaState.WindowStartMonotone` | packages/delivery/src/quota-window.ts:11-13 | later instants have no earlier window, and a new one exactly after the width has passed |
| `QuotaState.KeysAreInjective` | packages/delivery/src/quota-window.ts:15-25 | equal keys mean equal level, organisation and project or agent: distinct scopes never share a counter |
| `QuotaState.NothingEarlier` | packages/delivery/src/quota-state.ts:60-83 | no instant from now up to the answer can start; none at all when the answer is a human wait |
| `QuotaState.AnswerIsExact` | packages/delivery/src/quota-state.ts:59-83 | for any state that is not exhausted, the announced instant can start if and only if no applicable cap is zero and no applicable cap is already reached in a stored window that lies ahead of the clock and holds that instant; without a policy it always can |
| `QuotaState.AnswerWithoutFutureWindow` | packages/delivery/src/quota-state.ts:59-83 | with no stored window ahead of the clock, the announced instant can start if and only if no applicable cap is zero |
| `QuotaState.ZeroCapNeverStarts` | packages/delivery/src/quota-window.ts:35-37 | a cap of zero is always reached, so the wait it announces never ends |
| `QuotaState.FutureWindowMisleads` | packages/delivery/src/quota-window.ts:28-52 | concrete state: a window recorded ahead of the clock blocks the announced instant |
| `QuotaState.DecisionMeaning` | packages/delivery/src/quota-state.ts:60-94 | a call is refused exactly when instant, scope or policy is malformed; start exactly when a start is allowed; a wait names a later instant before which nothing starts; halt means no instant can start |
| `QuotaBackoff.WallClockIsNext` | packages/delivery/src/quota-reset.ts:16-22 | the instant shows the hinted time, lies strictly in the future, and no earlier future instant shows it |
| `QuotaBackoff.FallbackBounds` | packages/delivery/src/quota-backoff.ts:23-24 | the fallback delay is positive and within the cap |
| `QuotaBackoff.FallbackGrows` | packages/delivery/src/quota-backoff.ts:23-24 | the delay of a step is never shorter than that of an earlier step; `QuotaRuns.NextStepPauses` ties the steps to the hits |
| `QuotaBackoff.FallbackDoubles` | packages/delivery/src/quota-backoff.ts:23-24 | the delay of the first step is the base, and each step up to the 52nd doubles it within the cap; `QuotaRuns.NextStepPauses` ties the steps to the hits |
| `QuotaBackoff.JitterBounds` | packages/delivery/src/quota-backoff.ts:26-31 | jitter never shortens a delay and never passes the cap; in between it adds the whole milliseconds of its share of the delay |
| `QuotaBackoff.ProviderBounds` | packages/delivery/src/quota-backoff.ts:17-21 | an announced delay is strictly positive and within the cap |
| `QuotaBackoff.HitKeepsSane` | packages/delivery/src/quota-backoff.ts:33-112 | a hit keeps: a resume date exactly in backoff, strictly after the last hit, at most 24 hours later |
| `QuotaBackoff.HitNeverEarlier` | packages/delivery/src/quota-backoff.ts:33-112 | at any instant, scope and policy, a hit never makes the allowed instant earlier |
| `QuotaBackoff.WhenExhausted` | packages/delivery/src/quota-backoff.ts:51-73 | a hit exhausts exactly when a new strong signal outside a burst says so or is the last allowed one |
| `QuotaBackoff.FallbackPause` | packages/delivery/src/quota-backoff.ts:51-89 | a new hit without a date, outside a burst, that does not exhaust sets the resume date between the fallback delay of the hits counted and the cap, and at that very delay when the jitter is zero |
| `QuotaBackoff.PauseStaysWithinCap` | packages/delivery/src/quota-backoff.ts:26-49 | no hit, in a burst or outside, sets a resume date beyond `maxDelayMs` from now |
| `QuotaBackoff.AnnouncedDateIsHonoured` | packages/delivery/src/quota-backoff.ts:33-89 | a new signal with a future date that does not exhaust is honoured up to the cap, inside a burst too; without jitter the pause ends exactly then, or with the burst if that is later |
| `QuotaBackoff.AnnouncedPause` | packages/delivery/src/quota-backoff.ts:33-89 | with any jitter, the pause for an announced date is its distance within the cap plus the share jitter adds, and never ends before a burst under way |
| `QuotaBackoff.SignalIsRead` | packages/delivery/src/quota-reset.ts:24-40 | told on the fields of a signal, without jitter: a date wins over a delay, a delay over a wall-clock hint, which means its next occurrence; each pauses for exactly that long within the cap |
| `QuotaBackoff.NothingIsAnnounced` | packages/delivery/src/quota-reset.ts:24-40 | only the fallback is left exactly when the date has passed, the delay is zero, or there is neither and the hint is absent, names a zone or cannot be placed for want of an offset; a hint that is no time of day is refused exactly when it would be used |
| `QuotaBackoff.ReplayIsNoop` | packages/delivery/src/quota-backoff.ts:91-112 | in any state, a valid signal never counts from now on if and only if it is the last one recorded, or the state is exhausted, or every delivery is refused because the state is beyond the safe integers or the hint is malformed |
| `QuotaBackoff.ChangesUnlessSwallowed` | packages/delivery/src/quota-backoff.ts:33-89 | a signal that is not recognised leaves the state unchanged exactly when a burst is under way and the signal brings no date beyond its end |
| `QuotaBackoff.RecognisedUnlessSwallowed` | packages/delivery/src/quota-backoff.ts:33-112 | on the inputs of the delivery: afterwards the signal is recognised exactly when no burst swallowed it |
| `QuotaBackoff.OtherSignalForgets` | packages/delivery/src/quota-backoff.ts:109-111 | concrete run: two signals recorded in turn, and the first counts again when delivered once more |
| `QuotaBackoff.BurstForgetsSignal` | packages/delivery/src/quota-backoff.ts:33-41 | concrete case: a signal swallowed by a burst is not recorded and counts when delivered again |
| `QuotaUsage.AddToWindows` | packages/delivery/src/quota-usage.ts:13-29 | the loop equals the map that drops expired windows and adds the usage to each level, overflow refused |
| `QuotaUsage.UsageIsAdded` | packages/delivery/src/quota-usage.ts:12-29 | a usage is refused exactly when a counter of its levels would leave the safe integers; otherwise each of its levels counts it, from zero in a new window, and every other key keeps its window unless that has expired |
| `QuotaUsage.RepeatedUsageIsIgnored` | packages/delivery/src/quota-usage.ts:47-56 | from any state: the id of a usage just recorded is remembered, whatever else its policy drops, and the bound on the list is kept |
| `QuotaRuns.AlwaysSane` | packages/delivery/src/quota-backoff.ts:33-112 | in every reachable state: resume date exactly in backoff, strictly after the last hit, at most 24 hours later |
| `QuotaRuns.ExhaustionIsSticky` | packages/delivery/src/quota-state.ts:96-110 | exhaustion is entered by strong signals only and left by a reset only; a reset that is not stale does leave it |
| `QuotaRuns.LastRecordedIsKept` | packages/delivery/src/quota-backoff.ts:41-73 | in every run the remembered signal id is that of the last delivery that changed the state |
| `QuotaRuns.ReplayInRun` | packages/delivery/src/quota-backoff.ts:91-112 | at any point of any run a valid signal never counts again if and only if no other signal was recorded since it was, or the state is exhausted, or every delivery is refused |
| `QuotaRuns.HitCounts` | packages/delivery/src/quota-backoff.ts:58-72 | a hit raises the counter by one, up to the cap, exactly when it is strong, accepted, new and outside a burst; at the cap it exhausts; every other hit leaves the counter |
| `QuotaRuns.HitsAreCounted` | packages/delivery/src/quota-backoff.ts:58-72 | in every run with one cap the counter is the number of strong steps since the last reset or recovering usage, up to the cap, and the state is exhausted once that number reaches the cap |
| `QuotaRuns.NextStepPauses` | packages/delivery/src/quota-backoff.ts:23-89 | the exponential backoff: at any point of any run with one cap, after `n` strong steps since the last reset the next step without a date pauses for the `n`-th delay (base, doubled with each step up to the cap, never less than an earlier one) plus jitter within the cap, or exhausts exactly if it is strong and says so or is the last allowed |
| `QuotaRuns.ClearFrees` | packages/delivery/src/quota-state.ts:96-110 | a reset that is not stale leaves any state free: ready, no hits, no resume date, starts allowed as far as backoff goes; only the backoff is forgotten, and a state already free is left as it is |
| `QuotaRuns.UsageEndsBackoff` | packages/delivery/src/quota-usage.ts:31-51 | a counted usage ends a backoff exactly at or after its resume date, and otherwise leaves status, resume date and counter as they are |
| `QuotaRuns.StaleChangesNothing` | packages/delivery/src/quota-backoff.ts:108-110 | a call with a stale expected version changes nothing |
| `QuotaRuns.VersionCountsChanges` | packages/delivery/src/quota-backoff.ts:33-72 | in every run the version is the number of calls that changed the state |
| `QuotaRuns.LastIdsAreRemembered` | packages/delivery/src/quota-usage.ts:56 | in every run the remembered usage ids are those of the last `maxSeenIds` usages counted, in order |
| `QuotaRuns.RepetitionIsIgnored` | packages/delivery/src/quota-usage.ts:35-58 | at any point of any run a usage is ignored if and only if its id is among those of the last `maxSeenIds` usages counted |
| `QuotaRuns.CountedOnceInSpan` | packages/delivery/src/quota-usage.ts:35-58 | no id is counted twice within `maxSeenIds` consecutive counted usages |
| `QuotaRuns.UseKeepsExact` | packages/delivery/src/quota-usage.ts:12-29 | counting one usage adds it to its own keys in the current window and to nothing else |
| `QuotaRuns.ClockMovesOn` | packages/delivery/src/quota-window.ts:27-33 | moving the clock forward keeps the counters exact, past window ends included |
| `QuotaRuns.CountersAreExact` | packages/delivery/src/quota-usage.ts:36-59 | with one policy and a clock that never goes back, every current counter is the sum of the accepted usages of its key and window, at any point of any run |
| `QuotaRuns.TotalsAreSums` | packages/delivery/src/quota-window.ts:15-33 | usages share a counter exactly when they share the level: organisation, organisation and project, or organisation and agent |
| `QuotaRuns.AllowedUseStaysWithinCaps` | packages/delivery/src/quota-window.ts:39-52 | one run recorded when a start was allowed stays within all caps of its levels |
| `QuotaRuns.StartIsAllowedIff` | packages/delivery/src/quota-window.ts:35-52 | in every run with one policy and a clock that never goes back, a start is allowed now exactly when the state is not exhausted, no resume date lies ahead, and at each level present the runs and tokens counted in the window are below every cap that is set |
| `QuotaRuns.DecisionToStartIff` | packages/delivery/src/quota-state.ts:85-94 | the same of the decision: start now, exactly then |
| `QuotaRuns.CapsAreNeverExceeded` | packages/delivery/src/quota-state.ts:78-83 | if each one-run usage is recorded only when a start was allowed, no level exceeds its `maxRuns` in any window of any run |
| `QuotaRuns.AnnouncedStartIsExact` | packages/delivery/src/quota-state.ts:59-83 | in every reachable state the announced start is exact, if and only if no applicable cap is zero |
| `DeliveryRuns.StepVersion` | packages/delivery/src/run-transitions.ts:126-148 | an effective step raises the version by one; refused, neutral and replayed events change nothing |
| `DeliveryRuns.StaleChangesNothing` | packages/delivery/src/run-transitions.ts:126-130 | an event with a stale version changes nothing, and is accepted only as a replay |
| `DeliveryRuns.RefusalIsRight` | packages/delivery/src/run-transitions.ts:116-149 | an event is refused exactly if it is malformed, stale, not for this state, a restart of work to be resumed, for another branch, or with a bad block; the error is that of the first of these, and a repeated last event is always accepted |
| `DeliveryRuns.StepKeepsSound` | packages/delivery/src/run-transitions.ts:121-149 | each step keeps the invariant of runs |
| `DeliveryRuns.StepKeepsBranch` | packages/delivery/src/run-transitions.ts:109-114 | a branch once set never changes, nor does the ticket |
| `DeliveryRuns.EveryRunIsSound` | packages/delivery/src/run.ts:55-69 | in every reachable run: block information exactly in blocked or escalated, branch fixed once set, last-fix flag in review exactly when rounds reached the cap, branch and pull request present where work needs them |
| `DeliveryRuns.CountersCountEvents` | packages/delivery/src/run-counters.ts:37-75 | along any run each counter counts exactly the effective events that charge it, never passes its cap, and only the charge that met the cap blocks, for its own cause; escalation resets |
| `DeliveryRuns.ResumeNeverFails` | packages/delivery/src/run-resume.ts:33-48 | in every reachable run the resume point is found, and is null exactly in terminal states |
| `DeliveryRuns.ResumeRepeatsEffect` | packages/delivery/src/run-resume.ts:17-30 | resuming asks for the very effect that led into the current state; a block only notifies its cause |
| `DeliveryRuns.LateStates` | packages/delivery/src/run-transitions.ts:64-84 | each state is entered by one event from one state, but CI's wait by two and development and a block by those `TroubleReturns` and `EmptyDiffBlocks` tell |
| `DeliveryRuns.TroubleReturns` | packages/delivery/src/run-transitions.ts:66-81 | red gates, a red CI and requested changes lead to development or a block, a conflict to development; nothing else but a worktree does |
| `DeliveryRuns.EmptyDiffBlocks` | packages/delivery/src/run-transitions.ts:121-149 | a development without difference always blocks, with the cause and payload of the event; one with a difference goes to the gates |
| `DeliveryRuns.WorkGoesOn` | packages/delivery/src/run-transitions.ts:64-71 | each state up to the pull request accepts the event that completes its work, which leads to the next one; branch and pull request are recorded |
| `DeliveryRuns.CiGoesOn` | packages/delivery/src/run-transitions.ts:72-77 | the wait for CI accepts green, red, timeout and conflict |
| `DeliveryRuns.ReviewGoesOn` | packages/delivery/src/run-transitions.ts:78-87 | from review to the deployment, where the run ends, and from a block to its escalation, each state accepts the event that completes it |
| `DeliveryRuns.AtWork` | packages/delivery/src/run-transitions.ts:52-62 | while at work a quota signal changes nothing and a block is accepted with its cause and payload |
| `DeliveryRuns.LastEventMayRepeat` | packages/delivery/src/run-transitions.ts:82-87 | the last event of a merge, a deployment or an escalation may come again, with any version, and changes nothing |
| `DeliveryRuns.RunFollowsCourse` | packages/delivery/src/run-transitions.ts:64-149 | in every run the effective events since development are the only course to its state: a difference, green gates, a pull request, waits, a green CI, an approval, the merge, the deployment |
| `DeliveryRuns.CourseHasGreenGates` | packages/delivery/src/run-transitions.ts:67-72 | a course to the pull request or beyond holds green gates, unless the run was resumed at the wait for CI and not developed since |
| `DeliveryRuns.StartKeeps` | packages/delivery/src/run.ts:55-69 | a run starts with the ticket, counters, branch and pull request it is given, and asks first for a worktree, or for CI when both are there |
| `DeliveryRuns.MergeNeedsGreenThenApproval` | packages/delivery/src/run-transitions.ts:64-87 | merge states imply a green CI and then an approval since development was last entered |
| `DeliveryRuns.StepSpendsPotential` | packages/delivery/src/run-transitions.ts:64-87 | each effective step spends at least one unit of a potential; only a conflict refunds four |
| `DeliveryRuns.StepsAreBounded` | packages/delivery/src/run-transitions.ts:121-149 | from any run: the version counts the effective steps, bounded by the potential and the conflicts |
| `DeliveryRuns.RunLength` | packages/delivery/src/run-counters.ts:37-75 | a run from its start makes at most 9 steps plus 4 per attempt left, 5 per review round left, 1 per CI wait and 4 per conflict |
| `DeliveryRuns.RunLengthIsSharp` | packages/delivery/src/run-transitions.ts:64-149 | for any start, limits and number of conflicts some run makes exactly the bounding number of steps |
| `DeliveryRuns.PotentialCanBeSpent` | packages/delivery/src/run-transitions.ts:72-81 | from the wait for CI the whole potential can be used up, with any number of conflicts |
| `Leases.ActiveLeaseMeaning` | packages/domain/src/lease.ts:57-64 | the lease found is active and on the ticket, and none is found exactly when none exists |
| `Leases.AcquireMeaning` | packages/domain/src/lease.ts:66-91 | a sound request is granted exactly when no lease on the ticket is active, and the lease is active for exactly its duration; a refusal shows the lease in the way |
| `Leases.RequestReads` | packages/domain/src/lease.ts:38-91 | a request is refused for the first of: bad key, blank holder, branch or worktree, duration not a positive safe integer; what is granted is what was asked for, for a quarter of an hour when no duration is given |
| `Leases.GrantedIsHeld` | packages/domain/src/lease.ts:66-91 | in every run a lease just granted is the one that the next request on its ticket is refused for |
| `Leases.ReleaseExpired` | packages/domain/src/lease.ts:109-117 | the loop splits the list into active and inactive leases, in order, losing none |
| `Leases.MoveKeepsExclusive` | packages/domain/src/lease.ts:66-107 | each move keeps one active lease per ticket |
| `Leases.NeverTwoActiveLeases` | packages/domain/src/lease.ts:57-117 | no run of acquisitions, heartbeats, releases, purges and ticks yields two active leases on one ticket |
| `Leases.HeartbeatOnlyExtends` | packages/domain/src/lease.ts:93-102 | in every run a heartbeat succeeds exactly for the holder of an active lease, neither revives nor shortens it, and gives it its full duration from then on; anyone else is told so first |
| `Leases.OnlyHolderReleases` | packages/domain/src/lease.ts:57-117 | in every run an active lease goes on, for no shorter time, through every move but its expiry and a release by its own holder; nobody else can release it, and a released lease is never active again |
| `Locks.AcquireMeaning` | packages/domain/src/lock.ts:28-51 | a lock is granted exactly when its target is free and its holder holds nothing; it has that target and holder and is active for exactly its duration, never when that is not positive; a nested holder is told so first |
| `Locks.MoveKeepsOrder` | packages/domain/src/lock.ts:22-63 | each move keeps one active lock per target and per holder, and none for a waiter |
| `Locks.AlwaysOrderly` | packages/domain/src/lock.ts:22-63 | no run yields two active locks on one target or with one holder; whoever was refused holds nothing |
| `Locks.NoWaitCycle` | packages/domain/src/lock.ts:28-51 | waits never form a cycle in any run |
| `Locks.RefusedHolderWaits` | packages/domain/src/lock.ts:28-51 | who is refused a target waits for the holder of an active lock on it, until it gives up or is granted a lock, and a granted lock is held; so the relation without cycles is the real one |
| `Locks.ReleaseFreesWhen` | packages/domain/src/lock.ts:53-63 | releasing an active lock frees its target if and only if no expired entry of the same target and holder stands before it |
| `Locks.ReleaseDropsOne` | packages/domain/src/lock.ts:53-63 | a release drops exactly the first entry of this target and holder, keeps all others in order, and is refused exactly when there is none |
| `Locks.ExpiredEntryShadowsRelease` | packages/domain/src/lock.ts:58-62 | concrete run: expire, acquire again, release, and the lock is still held |
| `KeyRings.AssertVersions` | apps/api/src/crypto/key-ring.ts:22-36 | silent exactly on positive, distinct versions of which the current one is the newest; otherwise the error is that of the first bad version, or of an old key newer than the current one |
| `KeyRings.CreateKeyRing` | apps/api/src/crypto/key-ring.ts:43-60 | succeeds exactly on valid versions and keys of 32 bytes, and otherwise gives the right error; the ring maps each version to its key and encrypts with the current one |
| `KeyRings.OnlyOneError` | apps/api/src/crypto/key-ring.ts:22-49 | refused settings have exactly one right error, so the order of the checks is fixed |
| `KeyRings.RoundTripsUnlessEmpty` | apps/api/src/crypto/token-cipher.ts:58-90 | on bytes: decryption undoes encryption exactly for non-empty texts; an encrypted empty text is refused |
| `KeyRotation.Table.Swap` | apps/api/src/crypto/rotation-tables.ts:43-55 | compare-and-swap: rewrites the row if and only if it is still as it was read, and touches no other row |
| `KeyRotation.Table.List` | apps/api/src/crypto/rotation-tables.ts:87-97 | lists exactly the rows that are, or are not, at the current version, each once |
| `KeyRotation.SwapKeepsFaithful` | apps/api/src/crypto/rotation-tables.ts:98-101 | a swap is invisible to every reader, whatever was written since the row was read |
| `KeyRotation.WriteKeepsFaithful` | apps/api/src/crypto/rotation-tables.ts:43 | an ordinary write moves the rows and what is expected of them together |
| `KeyRotation.AttemptProgress` | apps/api/src/crypto/rotate-encryption-key.ts:101-121 | one row attempted amid any writes keeps the rows faithful and the table on the way to the current version |
| `KeyRotation.AttemptCounts` | apps/api/src/crypto/rotate-encryption-key.ts:101-121 | an attempt fails exactly on an unreadable or refused row, and is in conflict only if a write touched the row |
| `KeyRotation.AttemptIsExchange` | apps/api/src/crypto/rotate-encryption-key.ts:101-121 | an accepted update rewrites a row, under the current version and with the same plaintext, exactly when the row still holds what was read, and then counts as rotated; otherwise it is in conflict and changes nothing |
| `KeyRotation.Table.RotateRows` | apps/api/src/crypto/rotate-encryption-key.ts:91-123 | under any interleaving every readable row holds the plaintext of the last ordinary write, unreadable rows keep their bytes, a trial changes nothing, all readable rows untouched by writes reach the current version, and the counts are exact (`CountsRight`, `CountsExact`): rotated are the accepted updates of rows that still held what was read, each rewritten, and in conflict those of rows that no longer did |
| `KeyRotation.RotateTwice` | apps/api/src/crypto/rotate-encryption-key.ts:128-133 | idempotent: undisturbed, the first run rewrites all readable outdated rows without conflict, the second rewrites none |
| `KeyRotation.RotateEncryptionKey` | apps/api/src/crypto/rotate-encryption-key.ts:134-158 | refuses, writing nothing, exactly on a bad ring or on outdated rows without any previous key; otherwise both tables are rotated faithfully |
| `KeyRotation.CaughtUpIsSettled` | apps/api/src/crypto/rotate-encryption-key.ts:128-130 | a table rotated without any write in between has nothing left to rotate |
| `AiLedger.WaitIsExact` | apps/api/src/ai/ai-ledger.ts:93-112 | for a limit of at least one the wait is exact to the second, and zero exactly when a place is free now |
| `AiLedger.LongestWaitIsExact` | apps/api/src/ai/ai-ledger.ts:48-56 | the longest wait frees a place in every scope and one second less does not |
| `AiLedger.ZeroCapNeverFrees` | apps/api/src/ai/ai-ledger.ts:101-111 | a limit of zero announces an hour that frees nothing |
| `AiLedger.SinceIsOrdered` | apps/api/src/ai/ai-ledger.ts:96-107 | the lines of a window are ordered by time, so skipping by rank finds the line that has to leave |
| `AiAdmissions.OneAtATime` | apps/api/src/ai/ai-ledger.ts:61-79 | calls of one organisation never overlap between counting and writing |
| `AiAdmissions.ArriveKeepsChain` | apps/api/src/ai/ai-ledger.ts:66-73 | a new call takes the tail of its organisation's queue |
| `AiAdmissions.CleanUpKeepsChain` | apps/api/src/ai/ai-ledger.ts:74-78 | dropping a finished tail keeps the queue a chain |
| `AiAdmissions.StepKeepsChain` | apps/api/src/ai/ai-ledger.ts:66-79 | every step of every interleaving keeps each organisation's queue a chain |
| `AiAdmissions.QueueNeverStalls` | apps/api/src/ai/ai-ledger.ts:66-79 | at or before any unfinished call of an organisation some call of it can take its next step; the first unfinished one always can |
| `AiQuotas.NoQueueStalls` | apps/api/src/ai/ai-ledger.ts:61-79 | in every run, whatever call is unfinished, its organisation's queue can move on |
| `AiQuotas.LineFallsInOwnScopes` | apps/api/src/ai/ai-ledger.ts:81-91 | the line of a call falls in no scope but those it was counted for |
| `AiQuotas.AdmissionKeepsQuota` | apps/api/src/ai/ai-ledger.ts:48-59 | writing the line of a call that had room keeps every scope within its limit in every trailing hour |
| `AiQuotas.StepKeepsSafe` | apps/api/src/ai/ai-ledger.ts:44-79 | every step keeps all quotas and the room of every counted call |
| `AiQuotas.QuotasAlwaysHold` | apps/api/src/ai/ai-ledger.ts:44-112 | in every run at most `limit` admitted lines lie in any trailing hour of any scope |
| `AiQuotas.HourlyLimitsHold` | apps/api/src/ai/ai-ledger.ts:81-91 | told on fields: in every run no trailing hour of an organisation holds more admitted AI calls than its limit, of a user than the user's limit, or verifications than theirs |
| `AiQuotas.AdmittedExactlyBelowLimits` | apps/api/src/ai/ai-ledger.ts:48-59 | in every run a call about to count is admitted exactly when the lines of the hour are below each limit of its kind |
| `AiQuotas.FinishWritesTheLine` | apps/api/src/ai/ai-ledger.ts:55-57 | an admitted call whose write does not fail adds its own line at the present instant and nothing else; every other end of a call adds none |
| `AiQuotas.LogOnlyGrows` | apps/api/src/ai/ai-ledger.ts:48-59 | every step keeps the log and adds at most one line: that of a call that found room, or one that comes from elsewhere |
| `AiQuotas.AnnouncedWaitIsExact` | apps/api/src/ai/ai-ledger.ts:93-112 | at any point of any run the announced wait is exact to the second over all scopes of the caller, provided none of these has a limit of zero |

## Left out

- GraphStore.Store.AddDependency: which of several cycles is reported when there is more than one depends on the order of the search; any genuine one is accepted.
- GraphStore.Insert: an edge list that holds a key which does not parse can only come from a graph object made elsewhere; the error met there is the single value `MalformedGraph`, without the key.
- Sorting.SortBy: stands for the built-in stable array sort; its algorithm is not modelled, its result is.
- RuleResolution.ResolveEffectiveRules: rules, disabled rules and waivers of the result are maps by rule id, and conflicts are in the order met; the final sorting of these lists by text is not modelled.
- RuleVerdicts.CanPassMeaning: verdicts are a map by rule id, without the order of the list.
- RuleStrength.SameParamsIsEquality: numbers are reals, so zero and negative zero are one value.
- QuotaBackoff.JitterBounds: jitter and delay are multiplied as reals, without floating-point rounding.
- QuotaBackoff.HitKeepsSane: the sum of an instant and a delay is not limited to the safe integer range.
- DeliveryRuns.CountersCountEvents: the text of a block raised by a reached cap is a constant instead of the counter values.
- KeyRotation.Table.List: the order of the listed rows (by id) is not modelled; the results hold for any order.
- KeyRotation.Table.Swap: the `updatedAt` column is not modelled.
- KeyRings.RoundTripsUnlessEmpty: a text is its UTF-8 bytes; the conversion from and to UTF-8, which alters a text with an unpaired surrogate, is not modelled.
- AiQuotas.QuotasAlwaysHold: one process. Between several processes the documentation itself only bounds the overrun by their number.
- AiLedger.WaitIsExact: the clock of the database and that of the process are one, and a transaction reads it once.
- Instants are integers (epoch milliseconds) and days are numbered; ISO text, its parsing and its range are not modelled.
- The table of graph indexes is a map: that unreachable graphs are collected from it is not modelled.
- Text is a sequence of characters, not of UTF-16 units; secrets are sequences of bytes and the associated data of a row is a function of its id.
- The cipher is assumed to open what it sealed and to append a tag of sixteen bytes, as in sections 7.1 and 7.2 of NIST SP 800-38D; that altered texts do not open is neither assumed nor needed.
- Validation of untyped input (layers, catalogues, artifacts, states read back from JSON) is taken as done; the datatypes admit only values of the right shape, and expected versions are taken as safe integers.
- Effects a caller sees only as text (messages, notifications, traces, authors, titles, justifications, log lines) and the freezing of objects are not modelled.
- Detection of quota signals in text, canonical JSON, and the serialised form of quota state are regular expressions and formatting; a signal is an input.
- Web framework, database client, Git hosting client, language-model client, configuration, user interface and logging are wiring and not part of this model.
