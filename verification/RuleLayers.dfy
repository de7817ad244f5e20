/** Rules, layers and the working state of a composition, with the meaning of each pass
    (packages/rules/src/catalog-types.ts, layer-types.ts, compose-*.ts). */
module RuleLayers {
  import opened Common
  import opened RuleStrength
  import opened ScopeMatch

  datatype Role = ProductOwner | Analyst | Designer | Developer | TestWriter | QaReviewer | TechLead | DocWriter

  datatype Rule = Rule(id: string, profiles: seq<string>, agents: seq<Role>, severity: Severity,
                       isProtected: bool, enforcement: Enforcement)

  datatype Level = Catalog | Organization | Group | Project

  function LevelRank(l: Level): nat {
    match l case Catalog => 0 case Organization => 1 case Group => 2 case Project => 3
  }

  datatype EffectiveRule = EffectiveRule(base: Rule, origin: Level, locked: bool,
                                         paths: seq<string>, excludePaths: seq<string>)

  /** A rule added by a layer; empty `paths` means everywhere. */
  datatype LayerRule = LayerRule(base: Rule, paths: seq<string>, excludePaths: seq<string>, supplants: Option<string>)

  datatype Override = Override(ruleId: string, expires: Option<int>, severity: Option<Severity>,
                               enforcement: Option<Enforcement>, disabled: Option<bool>, agents: Option<seq<Role>>,
                               excludePaths: Option<seq<string>>, isProtected: Option<bool>)

  datatype Waiver = Waiver(ruleId: string, file: string, expires: int)

  datatype RuleLayer = RuleLayer(level: Level, profiles: seq<string>, add: seq<LayerRule>, overrides: seq<Override>,
                                 waivers: seq<Waiver>, lock: seq<string>)

  datatype Attempt = Disable | ChangeSeverity | ChangeEnforcement | ChangeAgents | ExcludePaths | Unlock
                   | Waive | ReAdd | Replace | Overriding | Lock | Profile

  datatype Reason = Locked | UnknownRule | UnknownProfile | Expired

  datatype Conflict = Conflict(ruleId: string, level: Level, attempted: Attempt, reason: Reason)

  datatype DisabledRule = DisabledRule(ruleId: string, level: Level)

  datatype AppliedWaiver = AppliedWaiver(waiver: Waiver, level: Level)

  /** A disabled or waived rule stays known to later layers. */
  datatype Entry = Entry(rule: EffectiveRule, disabled: Option<DisabledRule>, waivers: seq<AppliedWaiver>)

  /** What one resolution holds fixed. Days are numbered. */
  datatype Setting = Setting(knownProfiles: set<string>, path: string, today: int)

  /** The working state: rules by id, and the conflicts met so far. */
  datatype Work = Work(entries: map<string, Entry>, conflicts: seq<Conflict>) {

    function Refuse(level: Level, ruleId: string, attempted: Attempt, reason: Reason): Work {
      this.(conflicts := conflicts + [Conflict(ruleId, level, attempted, reason)])
    }

    function With(id: string, entry: Entry): Work {
      this.(entries := entries[id := entry])
    }
  }

  datatype RulesError =
    | InvalidPath(path: string)
    | UnknownSelection(profile: string)
    | DuplicateLevel(level: Level)
    | Collision(ruleId: string)

  predicate IsExpired(s: Setting, expires: Option<int>) {
    expires.Some? && expires.value < s.today
  }

  // ---------- added rules ----------

  function AddedEntry(r: LayerRule, level: Level): Entry {
    Entry(EffectiveRule(r.base, level, false, r.paths, r.excludePaths), None, [])
  }

  /** What stands against adding `r`, if anything; a collision is the only fatal case. */
  datatype Hindrance = Free | Skip(ruleId: string, attempted: Attempt, reason: Reason) | Fatal(error: RulesError)

  function HindranceOf(s: Setting, w: Work, r: LayerRule): Hindrance {
    var id := r.base.id;
    var target := if r.supplants.Some? && r.supplants.value != id then r.supplants else None;
    if exists p :: p in r.base.profiles && p !in s.knownProfiles then Skip(id, Overriding, UnknownProfile)
    else if target.Some? && target.value !in w.entries then Skip(target.value, Replace, UnknownRule)
    else if target.Some? && w.entries[target.value].rule.locked then Skip(target.value, Replace, Locked)
    else if id in w.entries && w.entries[id].rule.locked then Skip(id, ReAdd, Locked)
    else if id in w.entries && r.supplants != Some(id) then Fatal(Collision(id))
    else Free
  }

  function AddOne(s: Setting, w: Work, level: Level, r: LayerRule): Result<Work, RulesError> {
    match HindranceOf(s, w, r)
    case Skip(id, attempted, reason) => Ok(w.Refuse(level, id, attempted, reason))
    case Fatal(error) => Err(error)
    case Free =>
      var kept := if r.supplants.Some? then w.entries - {r.supplants.value} else w.entries;
      Ok(w.(entries := kept[r.base.id := AddedEntry(r, level)]))
  }

  function AddAll(s: Setting, w: Work, level: Level, rules: seq<LayerRule>): Result<Work, RulesError>
    decreases |rules|
  {
    if rules == [] then Ok(w)
    else
      var first := AddOne(s, w, level, rules[0]);
      if first.Err? then first else AddAll(s, first.value, level, rules[1..])
  }

  // ---------- overrides ----------

  /** First effect of the override that weakens the rule. */
  function WeakeningOf(r: EffectiveRule, o: Override): Option<Attempt> {
    var b := r.base;
    if o.disabled == Some(true) then Some(Disable)
    else if o.severity.Some? && IsWeaker(b.severity, b.enforcement, o.severity.value, b.enforcement)
        then Some(ChangeSeverity)
    else if o.enforcement.Some? && (IsWeaker(b.severity, b.enforcement, b.severity, o.enforcement.value)
                                    || (r.locked && !IsLockedSafe(b.enforcement, o.enforcement.value)))
    then Some(ChangeEnforcement)
    else if o.agents.Some? && exists a :: a in b.agents && a !in o.agents.value then Some(ChangeAgents)
    else if o.excludePaths.Some? && |o.excludePaths.value| > 0 then Some(ExcludePaths)
    else if o.isProtected == Some(false) then Some(Unlock)
    else None
  }

  /** The effect reported for an expired override. */
  function AttemptOf(o: Override): Attempt {
    if o.disabled.Some? then Disable
    else if o.severity.Some? then ChangeSeverity
    else if o.enforcement.Some? then ChangeEnforcement
    else if o.agents.Some? then ChangeAgents
    else if o.excludePaths.Some? then ExcludePaths
    else if o.isProtected.Some? then Unlock
    else Overriding
  }

  /** Elements in order of first appearance. */
  function Unique(s: seq<string>): (r: seq<string>)
    ensures forall x :: x in r <==> x in s
  {
    if s == [] then []
    else
      var front := Unique(s[..|s| - 1]);
      assert s == s[..|s| - 1] + [s[|s| - 1]];
      if s[|s| - 1] in front then front else front + [s[|s| - 1]]
  }

  function OrElse<T>(o: Option<T>, default: T): T { if o.Some? then o.value else default }

  function Changed(r: EffectiveRule, o: Override): EffectiveRule {
    r.(base := r.base.(severity := OrElse(o.severity, r.base.severity),
                       enforcement := OrElse(o.enforcement, r.base.enforcement),
                       agents := OrElse(o.agents, r.base.agents)),
       excludePaths := Unique(r.excludePaths + OrElse(o.excludePaths, [])))
  }

  function OverrideOne(s: Setting, w: Work, level: Level, o: Override): Work {
    if o.ruleId !in w.entries then w.Refuse(level, o.ruleId, Overriding, UnknownRule)
    else
      var entry := w.entries[o.ruleId];
      var weakening := WeakeningOf(entry.rule, o);
      if IsExpired(s, o.expires) then w.Refuse(level, o.ruleId, AttemptOf(o), Expired)
      else if entry.rule.locked && weakening.Some? then w.Refuse(level, o.ruleId, weakening.value, Locked)
      else if o.disabled == Some(true) then
        var first := if entry.disabled.Some? then entry.disabled else Some(DisabledRule(o.ruleId, level));
        w.With(o.ruleId, entry.(disabled := first))
      else w.With(o.ruleId, entry.(rule := Changed(entry.rule, o)))
  }

  function OverrideAll(s: Setting, w: Work, level: Level, os: seq<Override>): Work
    decreases |os|
  {
    if os == [] then w else OverrideAll(s, OverrideOne(s, w, level, os[0]), level, os[1..])
  }

  // ---------- waivers ----------

  function WaiveOne(s: Setting, w: Work, level: Level, v: Waiver): Work {
    if v.ruleId !in w.entries then w.Refuse(level, v.ruleId, Waive, UnknownRule)
    else
      var entry := w.entries[v.ruleId];
      if IsExpired(s, Some(v.expires)) then w.Refuse(level, v.ruleId, Waive, Expired)
      else if entry.rule.locked then w.Refuse(level, v.ruleId, Waive, Locked)
      else if Covers(v.file, s.path)
      then w.With(v.ruleId, entry.(waivers := entry.waivers + [AppliedWaiver(v, level)]))
      else w
  }

  function WaiveAll(s: Setting, w: Work, level: Level, vs: seq<Waiver>): Work
    decreases |vs|
  {
    if vs == [] then w else WaiveAll(s, WaiveOne(s, w, level, vs[0]), level, vs[1..])
  }

  // ---------- locks ----------

  function Lock1(w: Work, id: string): Work
    requires id in w.entries
  {
    var e := w.entries[id];
    w.With(id, e.(rule := e.rule.(locked := true)))
  }

  /** A protected rule that this layer added is locked at the end of the layer. */
  function LockAdded(w: Work, level: Level, r: LayerRule): Work {
    if r.base.isProtected && r.base.id in w.entries && w.entries[r.base.id].rule.origin == level
    then Lock1(w, r.base.id) else w
  }

  function LockAllAdded(w: Work, level: Level, rules: seq<LayerRule>): Work
    decreases |rules|
  {
    if rules == [] then w else LockAllAdded(LockAdded(w, level, rules[0]), level, rules[1..])
  }

  function LockId(w: Work, level: Level, id: string): Work {
    if id !in w.entries then w.Refuse(level, id, Lock, UnknownRule) else Lock1(w, id)
  }

  function LockAllIds(w: Work, level: Level, ids: seq<string>): Work
    decreases |ids|
  {
    if ids == [] then w else LockAllIds(LockId(w, level, ids[0]), level, ids[1..])
  }

  // ---------- whole layers ----------

  /** Additions, overrides, waivers, then the locks, which bind later layers only. */
  function ComposeLayer(s: Setting, w: Work, layer: RuleLayer): Result<Work, RulesError> {
    var added := AddAll(s, w, layer.level, layer.add);
    if added.Err? then added
    else
      var overridden := OverrideAll(s, added.value, layer.level, layer.overrides);
      var waived := WaiveAll(s, overridden, layer.level, layer.waivers);
      Ok(LockAllIds(LockAllAdded(waived, layer.level, layer.add), layer.level, layer.lock))
  }

  function ComposeAll(s: Setting, w: Work, layers: seq<RuleLayer>): Result<Work, RulesError>
    decreases |layers|
  {
    if layers == [] then Ok(w)
    else
      var first := ComposeLayer(s, w, layers[0]);
      if first.Err? then first else ComposeAll(s, first.value, layers[1..])
  }
}
