/** Locks are monotone: nothing locked is later removed, replaced, disabled, waived or weakened, through
    any stack of layers (packages/rules/src/compose-*.ts, packages/rules/src/strength.ts). */
module RuleLocking {
  import opened Common
  import opened RuleStrength
  import opened ScopeMatch
  import opened RuleLayers

  /** `after` still imposes everything that the locked entry `before` imposed. */
  ghost predicate StillBinds(before: Entry, after: Entry) {
    var b, a := before.rule, after.rule;
    && a.locked && a.origin == b.origin && a.paths == b.paths
    && a.base.id == b.base.id && a.base.profiles == b.base.profiles && a.base.isProtected == b.base.isProtected
    && after.disabled == before.disabled && after.waivers == before.waivers
    && (forall r :: r in b.base.agents ==> r in a.base.agents)
    && (forall p :: p in a.excludePaths <==> p in b.excludePaths)
    && SeverityRank(b.base.severity) <= SeverityRank(a.base.severity)
    && Kept(b.base.enforcement, a.base.enforcement)
  }

  /** Every entry locked in `w` still binds in `w'`. */
  ghost predicate LocksHold(w: Work, w': Work) {
    forall id :: id in w.entries && w.entries[id].rule.locked ==>
        id in w'.entries && StillBinds(w.entries[id], w'.entries[id])
  }

  lemma LocksHoldTransitive(a: Work, b: Work, c: Work)
    requires LocksHold(a, b) && LocksHold(b, c)
    ensures LocksHold(a, c)
  {
    forall id | id in a.entries && a.entries[id].rule.locked
      ensures id in c.entries && StillBinds(a.entries[id], c.entries[id])
    {
      KeptIsTransitive(a.entries[id].rule.base.enforcement, b.entries[id].rule.base.enforcement,
                       c.entries[id].rule.base.enforcement);
    }
  }

  lemma LockedNow(w: Work)
    ensures LocksHold(w, w)
  {
  }

  lemma AddHoldsLocks(s: Setting, w: Work, level: Level, r: LayerRule)
    requires AddOne(s, w, level, r).Ok?
    ensures LocksHold(w, AddOne(s, w, level, r).value)
  {
  }

  lemma {:induction false} AddAllHoldsLocks(s: Setting, w: Work, level: Level, rules: seq<LayerRule>)
    requires AddAll(s, w, level, rules).Ok?
    ensures LocksHold(w, AddAll(s, w, level, rules).value)
    decreases |rules|
  {
    if rules != [] {
      var next := AddOne(s, w, level, rules[0]).value;
      AddHoldsLocks(s, w, level, rules[0]);
      AddAllHoldsLocks(s, next, level, rules[1..]);
      LocksHoldTransitive(w, next, AddAll(s, w, level, rules).value);
    }
  }

  /** An override without weakening effect on a locked rule leaves it binding. */
  lemma ChangeStillBinds(entry: Entry, o: Override)
    requires entry.rule.locked && WeakeningOf(entry.rule, o).None?
    ensures StillBinds(entry, entry.(rule := Changed(entry.rule, o)))
  {
    if o.enforcement.Some? {
      LockedSafeIsKept(entry.rule.base.enforcement, o.enforcement.value);
    }
    assert OrElse(o.excludePaths, []) == [];
  }

  /** Replacing one entry by one that still binds, if it was locked, holds all locks. */
  lemma OneEntryHoldsLocks(w: Work, w': Work, id: string)
    requires w'.entries == w.entries
          || (id in w.entries && id in w'.entries && w'.entries == w.entries[id := w'.entries[id]]
              && (w.entries[id].rule.locked ==> StillBinds(w.entries[id], w'.entries[id])))
    ensures LocksHold(w, w')
  {
  }

  lemma OverrideHoldsLocks(s: Setting, w: Work, level: Level, o: Override)
    ensures LocksHold(w, OverrideOne(s, w, level, o))
  {
    hide LocksHold, StillBinds, Changed, IsExpired, AttemptOf, IsWeaker, IsLockedSafe;
    if o.ruleId in w.entries && w.entries[o.ruleId].rule.locked && WeakeningOf(w.entries[o.ruleId].rule, o).None? {
      ChangeStillBinds(w.entries[o.ruleId], o);
    }
    OneEntryHoldsLocks(w, OverrideOne(s, w, level, o), o.ruleId);
  }

  lemma {:induction false} OverrideAllHoldsLocks(s: Setting, w: Work, level: Level, os: seq<Override>)
    ensures LocksHold(w, OverrideAll(s, w, level, os))
    decreases |os|
  {
    if os != [] {
      var next := OverrideOne(s, w, level, os[0]);
      OverrideHoldsLocks(s, w, level, os[0]);
      OverrideAllHoldsLocks(s, next, level, os[1..]);
      LocksHoldTransitive(w, next, OverrideAll(s, w, level, os));
    }
  }

  lemma {:induction false} WaiveAllHoldsLocks(s: Setting, w: Work, level: Level, vs: seq<Waiver>)
    ensures LocksHold(w, WaiveAll(s, w, level, vs))
    decreases |vs|
  {
    LockedNow(w);
    if vs != [] {
      hide LocksHold, StillBinds, IsExpired, Covers;
      var next := WaiveOne(s, w, level, vs[0]);
      OneEntryHoldsLocks(w, next, vs[0].ruleId);
      WaiveAllHoldsLocks(s, next, level, vs[1..]);
      LocksHoldTransitive(w, next, WaiveAll(s, w, level, vs));
    }
  }

  /** Only locks change: the same rules, each from the layer it came from. */
  ghost predicate SameOrigins(w: Work, w': Work) {
    && w'.entries.Keys == w.entries.Keys
    && forall id :: id in w.entries ==> w'.entries[id].rule.origin == w.entries[id].rule.origin
  }

  /** Every protected rule in the list that is present and comes from this level is locked. */
  ghost predicate AddedAreLocked(w: Work, level: Level, rules: seq<LayerRule>) {
    forall r :: r in rules && r.base.isProtected ==>
        r.base.id in w.entries && w.entries[r.base.id].rule.origin == level ==> w.entries[r.base.id].rule.locked
  }

  /** Locks hold, and the protected rules that the layer added are locked afterwards. */
  lemma {:induction false} LockAllAddedLocks(w: Work, level: Level, rules: seq<LayerRule>)
    ensures var w' := LockAllAdded(w, level, rules);
            LocksHold(w, w') && SameOrigins(w, w') && AddedAreLocked(w', level, rules)
    decreases |rules|
  {
    if rules != [] {
      var next, last := LockAdded(w, level, rules[0]), LockAllAdded(w, level, rules);
      assert LocksHold(w, next) && SameOrigins(w, next);
      LockAllAddedLocks(next, level, rules[1..]);
      LocksHoldTransitive(w, next, last);
      forall r | r in rules && r.base.isProtected
              && r.base.id in last.entries && last.entries[r.base.id].rule.origin == level
        ensures last.entries[r.base.id].rule.locked
      {
        assert r == rules[0] || r in rules[1..];
      }
    }
  }

  /** Locks hold, and every listed id that names a rule is locked afterwards. */
  lemma {:induction false} LockAllIdsLocks(w: Work, level: Level, ids: seq<string>)
    ensures var w' := LockAllIds(w, level, ids);
            && LocksHold(w, w') && SameOrigins(w, w')
            && forall id :: id in ids && id in w.entries ==> w'.entries[id].rule.locked
    decreases |ids|
  {
    if ids != [] {
      var next, last := LockId(w, level, ids[0]), LockAllIds(w, level, ids);
      assert LocksHold(w, next) && SameOrigins(w, next);
      LockAllIdsLocks(next, level, ids[1..]);
      LocksHoldTransitive(w, next, last);
      forall id | id in ids && id in w.entries ensures last.entries[id].rule.locked {
        if id == ids[0] {
          assert next.entries[id].rule.locked;
        } else {
          assert id in ids[1..];
        }
      }
    }
  }

  /** Locking more keeps the added rules locked. */
  lemma AddedStayLocked(w: Work, w': Work, level: Level, rules: seq<LayerRule>)
    requires AddedAreLocked(w, level, rules) && LocksHold(w, w') && SameOrigins(w, w')
    ensures AddedAreLocked(w', level, rules)
  {
  }

  lemma SameKeys(w: Work, w': Work)
    requires SameOrigins(w, w')
    ensures w'.entries.Keys == w.entries.Keys
  {
  }

  /** One layer: earlier locks hold, and the locks of the layer, on the ids it lists and on the protected
      rules it added, are in force when it ends. */
  lemma LayerHoldsLocks(s: Setting, w: Work, layer: RuleLayer)
    requires ComposeLayer(s, w, layer).Ok?
    ensures var w' := ComposeLayer(s, w, layer).value;
            && LocksHold(w, w')
            && (forall id :: id in layer.lock && id in w'.entries ==> w'.entries[id].rule.locked)
            && AddedAreLocked(w', layer.level, layer.add)
  {
    var added := AddAll(s, w, layer.level, layer.add).value;
    var overridden := OverrideAll(s, added, layer.level, layer.overrides);
    var waived := WaiveAll(s, overridden, layer.level, layer.waivers);
    var relocked := LockAllAdded(waived, layer.level, layer.add);
    var w' := LockAllIds(relocked, layer.level, layer.lock);
    hide *;
    AddAllHoldsLocks(s, w, layer.level, layer.add);
    OverrideAllHoldsLocks(s, added, layer.level, layer.overrides);
    WaiveAllHoldsLocks(s, overridden, layer.level, layer.waivers);
    LockAllAddedLocks(waived, layer.level, layer.add);
    LockAllIdsLocks(relocked, layer.level, layer.lock);
    AddedStayLocked(relocked, w', layer.level, layer.add);
    SameKeys(relocked, w');
    LocksHoldTransitive(w, added, overridden);
    LocksHoldTransitive(w, overridden, waived);
    LocksHoldTransitive(w, waived, relocked);
    LocksHoldTransitive(w, relocked, w');
  }

  /** Whatever is locked at some point of a resolution binds to its end, for any stack of layers. */
  lemma {:induction false} LaterLayersCannotWeaken(s: Setting, w: Work, layers: seq<RuleLayer>)
    requires ComposeAll(s, w, layers).Ok?
    ensures LocksHold(w, ComposeAll(s, w, layers).value)
    decreases |layers|
  {
    if layers != [] {
      var next := ComposeLayer(s, w, layers[0]).value;
      LayerHoldsLocks(s, w, layers[0]);
      LaterLayersCannotWeaken(s, next, layers[1..]);
      LocksHoldTransitive(w, next, ComposeAll(s, w, layers).value);
    } else {
      LockedNow(w);
    }
  }

  lemma {:induction false} ComposeInTwoParts(s: Setting, w: Work, upper: seq<RuleLayer>, lower: seq<RuleLayer>)
    ensures ComposeAll(s, w, upper + lower)
         == if ComposeAll(s, w, upper).Err? then ComposeAll(s, w, upper)
            else ComposeAll(s, ComposeAll(s, w, upper).value, lower)
    decreases |upper|
  {
    if upper == [] {
      assert upper + lower == lower;
    } else {
      assert (upper + lower)[1..] == upper[1..] + lower;
      var first := ComposeLayer(s, w, upper[0]);
      if first.Ok? {
        ComposeInTwoParts(s, first.value, upper[1..], lower);
      }
    }
  }

  /** A rule locked once the upper layers are composed keeps its exact scope under any lower layers,
      and its final form is not weaker than its form when locked. */
  lemma FinalFormNotWeaker(s: Setting, w: Work, upper: seq<RuleLayer>, lower: seq<RuleLayer>, id: string)
    requires ComposeAll(s, w, upper + lower).Ok?
    ensures ComposeAll(s, w, upper).Ok?
    ensures var mid, end := ComposeAll(s, w, upper).value, ComposeAll(s, w, upper + lower).value;
            id in mid.entries && mid.entries[id].rule.locked ==>
              && id in end.entries && StillBinds(mid.entries[id], end.entries[id])
              && !IsWeaker(mid.entries[id].rule.base.severity, mid.entries[id].rule.base.enforcement,
                           end.entries[id].rule.base.severity, end.entries[id].rule.base.enforcement)
  {
    ComposeInTwoParts(s, w, upper, lower);
    var mid, end := ComposeAll(s, w, upper).value, ComposeAll(s, w, upper + lower).value;
    LaterLayersCannotWeaken(s, mid, lower);
    if id in mid.entries && mid.entries[id].rule.locked {
      KeptIsNotWeaker(mid.entries[id].rule.base.severity, mid.entries[id].rule.base.enforcement,
                      end.entries[id].rule.base.severity, end.entries[id].rule.base.enforcement);
    }
  }

  /** The locks of a layer, on the ids it lists and on the protected rules it added, bind from the end of that
      layer through all later layers. */
  lemma LayerLocksBind(s: Setting, w: Work, upper: seq<RuleLayer>, layer: RuleLayer, lower: seq<RuleLayer>)
    requires ComposeAll(s, w, upper + [layer] + lower).Ok?
    ensures ComposeAll(s, w, upper + [layer]).Ok?
    ensures var mid := ComposeAll(s, w, upper + [layer]).value;
            && LocksHold(mid, ComposeAll(s, w, upper + [layer] + lower).value)
            && (forall id :: id in layer.lock && id in mid.entries ==> mid.entries[id].rule.locked)
            && AddedAreLocked(mid, layer.level, layer.add)
  {
    ComposeInTwoParts(s, w, upper + [layer], lower);
    ComposeInTwoParts(s, w, upper, [layer]);
    var before := ComposeAll(s, w, upper).value;
    assert ComposeAll(s, before, [layer]) == ComposeLayer(s, before, layer);
    LayerHoldsLocks(s, before, layer);
    LaterLayersCannotWeaken(s, ComposeAll(s, w, upper + [layer]).value, lower);
  }

  /** An id listed in the locks of a layer is locked from the end of that layer on. */
  lemma ListedLockBinds(s: Setting, w: Work, upper: seq<RuleLayer>, layer: RuleLayer, lower: seq<RuleLayer>, id: string)
    requires ComposeAll(s, w, upper + [layer] + lower).Ok? && id in layer.lock
    ensures ComposeAll(s, w, upper + [layer]).Ok?
    ensures var mid := ComposeAll(s, w, upper + [layer]).value;
            && LocksHold(mid, ComposeAll(s, w, upper + [layer] + lower).value)
            && (id in mid.entries ==> mid.entries[id].rule.locked)
  {
    LayerLocksBind(s, w, upper, layer, lower);
  }

  /** A protected rule that a layer added, and that is there when the layer ends, is locked from then on. */
  lemma AddedLockBinds(s: Setting, w: Work, upper: seq<RuleLayer>, layer: RuleLayer, lower: seq<RuleLayer>,
                       r: LayerRule)
    requires ComposeAll(s, w, upper + [layer] + lower).Ok? && r in layer.add && r.base.isProtected
    ensures ComposeAll(s, w, upper + [layer]).Ok?
    ensures var mid := ComposeAll(s, w, upper + [layer]).value;
            && LocksHold(mid, ComposeAll(s, w, upper + [layer] + lower).value)
            && (r.base.id in mid.entries && mid.entries[r.base.id].rule.origin == layer.level ==>
                  mid.entries[r.base.id].rule.locked)
  {
    LayerLocksBind(s, w, upper, layer, lower);
  }

  /** On a locked rule: no disabling, unlocking, dropped agent, new exclusion or lower severity, and an
      enforcement that keeps the target, the other parameters and the limit. */
  ghost predicate HarmlessTo(r: EffectiveRule, o: Override)
    requires r.locked
  {
    && o.disabled != Some(true) && o.isProtected != Some(false)
    && (o.severity.Some? ==> SeverityRank(r.base.severity) <= SeverityRank(o.severity.value))
    && (o.enforcement.Some? ==> IsLockedSafe(r.base.enforcement, o.enforcement.value))
    && (o.agents.Some? ==> forall a :: a in r.base.agents ==> a in o.agents.value)
    && (o.excludePaths.Some? ==> o.excludePaths.value == [])
  }

  /** A locked rule refuses exactly the overrides in force that would weaken it. */
  lemma LockedRefusesExactlyWeakening(s: Setting, w: Work, level: Level, o: Override)
    requires o.ruleId in w.entries && w.entries[o.ruleId].rule.locked && !IsExpired(s, o.expires)
    ensures var w' := OverrideOne(s, w, level, o);
            w'.conflicts == w.conflicts <==> WeakeningOf(w.entries[o.ruleId].rule, o).None?
    ensures WeakeningOf(w.entries[o.ruleId].rule, o).None? <==> HarmlessTo(w.entries[o.ruleId].rule, o)
  {
  }

  // ---------- overrides: what is reported, and what is granted ----------

  /** The rule has the severity, enforcement, agents and exclusions that the override asks for. */
  ghost predicate FormGranted(e: Entry, o: Override) {
    && (o.severity.Some? ==> e.rule.base.severity == o.severity.value)
    && (o.enforcement.Some? ==> e.rule.base.enforcement == o.enforcement.value)
    && (o.agents.Some? ==> e.rule.base.agents == o.agents.value)
    && (o.excludePaths.Some? ==> forall p :: p in o.excludePaths.value ==> p in e.rule.excludePaths)
  }

  /** What the override does not ask for stays; the exclusions are the old ones and those asked for. */
  ghost predicate RestKept(before: EffectiveRule, after: EffectiveRule, o: Override) {
    && (o.severity.None? ==> after.base.severity == before.base.severity)
    && (o.enforcement.None? ==> after.base.enforcement == before.base.enforcement)
    && (o.agents.None? ==> after.base.agents == before.base.agents)
    && (forall p :: p in after.excludePaths <==>
          p in before.excludePaths || (o.excludePaths.Some? && p in o.excludePaths.value))
  }

  /** A disabling override disables the rule, unless it is disabled already, and leaves it as it is; any other gives
      the rule the form asked for and no other. Either way its scope, protection, lock and waivers stay. */
  ghost predicate Applied(before: Entry, after: Entry, level: Level, o: Override) {
    && after.waivers == before.waivers && after.rule.base.id == before.rule.base.id
    && after.rule.origin == before.rule.origin && after.rule.locked == before.rule.locked
    && after.rule.paths == before.rule.paths && after.rule.base.profiles == before.rule.base.profiles
    && after.rule.base.isProtected == before.rule.base.isProtected
    && if o.disabled == Some(true) then
         && after.rule == before.rule
         && after.disabled == Some(if before.disabled.Some? then before.disabled.value
                                   else DisabledRule(o.ruleId, level))
       else FormGranted(after, o) && RestKept(before.rule, after.rule, o) && after.disabled == before.disabled
  }

  /** An override is reported exactly when its rule is unknown, it has expired, or the rule is locked and
      would be weakened; the report is one conflict about that rule, and no rule changes. Otherwise it is
      applied to its rule, and no other rule changes. */
  lemma OverrideAppliesOrReports(s: Setting, w: Work, level: Level, o: Override)
    ensures var w' := OverrideOne(s, w, level, o);
            && (w'.conflicts != w.conflicts <==>
                  || o.ruleId !in w.entries || IsExpired(s, o.expires)
                  || (w.entries[o.ruleId].rule.locked && !HarmlessTo(w.entries[o.ruleId].rule, o)))
            && (w'.conflicts != w.conflicts ==>
                  && w'.entries == w.entries && |w'.conflicts| == |w.conflicts| + 1 && w.conflicts <= w'.conflicts
                  && var c := w'.conflicts[|w.conflicts|];
                     c.ruleId == o.ruleId && c.level == level
                     && c.reason == if o.ruleId !in w.entries then UnknownRule
                                    else if IsExpired(s, o.expires) then Expired else Locked)
            && (w'.conflicts == w.conflicts ==>
                  && w'.entries - {o.ruleId} == w.entries - {o.ruleId}
                  && o.ruleId in w'.entries && Applied(w.entries[o.ruleId], w'.entries[o.ruleId], level, o))
  {
    hide IsExpired, AttemptOf, HarmlessTo, WeakeningOf;
    if o.ruleId in w.entries && w.entries[o.ruleId].rule.locked && !IsExpired(s, o.expires) {
      LockedRefusesExactlyWeakening(s, w, level, o);
    }
    assert forall p :: p in OrElse(o.excludePaths, []) ==>
        forall q: seq<string> :: p in q + OrElse(o.excludePaths, []);
  }

  /** Effects in the order in which a conflict prefers them. */
  function EffectRank(effect: Attempt): nat {
    match effect
    case Disable => 0 case ChangeSeverity => 1 case ChangeEnforcement => 2 case ChangeAgents => 3 case ExcludePaths => 4
    case Unlock => 5 case _ => 6
  }

  /** The override speaks of this effect. */
  ghost predicate SpeaksOf(o: Override, effect: Attempt) {
    match effect
    case Disable => o.disabled.Some?
    case ChangeSeverity => o.severity.Some?
    case ChangeEnforcement => o.enforcement.Some?
    case ChangeAgents => o.agents.Some?
    case ExcludePaths => o.excludePaths.Some?
    case Unlock => o.isProtected.Some?
    case _ => false
  }

  /** The override has this effect on a locked rule. */
  ghost predicate Harms(r: EffectiveRule, o: Override, effect: Attempt) {
    match effect
    case Disable => o.disabled == Some(true)
    case ChangeSeverity => o.severity == Some(Advisory) && r.base.severity == Blocking
    case ChangeEnforcement => o.enforcement.Some? && !IsLockedSafe(r.base.enforcement, o.enforcement.value)
    case ChangeAgents => o.agents.Some? && exists a :: a in r.base.agents && a !in o.agents.value
    case ExcludePaths => o.excludePaths.Some? && o.excludePaths.value != []
    case Unlock => o.isProtected == Some(false)
    case _ => false
  }

  lemma FirstSpoken(o: Override)
    ensures var named := AttemptOf(o);
            && (if named == Overriding then forall e :: !SpeaksOf(o, e) else SpeaksOf(o, named))
            && forall e :: EffectRank(e) < EffectRank(named) ==> !SpeaksOf(o, e)
  {
  }

  lemma LockedChangeIsHarm(r: EffectiveRule, o: Override)
    requires r.locked && o.enforcement.Some?
    ensures IsWeaker(r.base.severity, r.base.enforcement, r.base.severity, o.enforcement.value) ==>
        !IsLockedSafe(r.base.enforcement, o.enforcement.value)
  {
    if IsLockedSafe(r.base.enforcement, o.enforcement.value) {
      LockedSafeIsKept(r.base.enforcement, o.enforcement.value);
      KeptIsNotWeaker(r.base.severity, r.base.enforcement, r.base.severity, o.enforcement.value);
    }
  }

  lemma FirstHarm(r: EffectiveRule, o: Override)
    requires r.locked && WeakeningOf(r, o).Some?
    ensures var named := WeakeningOf(r, o).value;
            Harms(r, o, named) && forall e :: EffectRank(e) < EffectRank(named) ==> !Harms(r, o, e)
  {
    if o.enforcement.Some? {
      LockedChangeIsHarm(r, o);
    }
    hide LimitRaised, IsLockedSafe;
  }

  /** A conflict names the first harm that the override would do to the locked rule, or the first effect that an
      expired one speaks of. */
  lemma ConflictNamesFirstEffect(s: Setting, w: Work, level: Level, o: Override)
    requires o.ruleId in w.entries && OverrideOne(s, w, level, o).conflicts != w.conflicts
    ensures var r, named := w.entries[o.ruleId].rule, OverrideOne(s, w, level, o).conflicts[|w.conflicts|].attempted;
            if IsExpired(s, o.expires) then
              && (if named == Overriding then forall e :: !SpeaksOf(o, e) else SpeaksOf(o, named))
              && forall e :: EffectRank(e) < EffectRank(named) ==> !SpeaksOf(o, e)
            else
              Harms(r, o, named) && forall e :: EffectRank(e) < EffectRank(named) ==> !Harms(r, o, e)
  {
    var r := w.entries[o.ruleId].rule;
    FirstSpoken(o);
    if r.locked && WeakeningOf(r, o).Some? {
      FirstHarm(r, o);
    }
    hide AttemptOf, WeakeningOf, EffectRank, SpeaksOf, Harms, Changed;
  }

  /** Everything that the override asks for holds of the rule. */
  ghost predicate Granted(e: Entry, o: Override) {
    && FormGranted(e, o)
    && (o.disabled.Some? ==> (e.disabled.Some? <==> o.disabled.value))
    && (o.isProtected.Some? ==> e.rule.base.isProtected == o.isProtected.value)
  }

  /** The override asks for nothing that is passed over in silence: to set or clear the protection, to enable
      a disabled rule, or to disable a rule and change it at once. */
  ghost predicate Heeded(e: Entry, o: Override) {
    && (o.isProtected.Some? ==> e.rule.base.isProtected == o.isProtected.value)
    && (o.disabled == Some(false) ==> e.disabled.None?)
    && (o.disabled == Some(true) ==> FormGranted(e, o))
  }

  /** An override that is not reported grants all it asks for exactly when it asks for nothing that is
      passed over in silence. Whether it does can be told before it is applied. */
  lemma UnreportedIsGrantedIff(s: Setting, w: Work, level: Level, o: Override)
    requires OverrideOne(s, w, level, o).conflicts == w.conflicts
    ensures o.ruleId in w.entries && o.ruleId in OverrideOne(s, w, level, o).entries
    ensures Granted(OverrideOne(s, w, level, o).entries[o.ruleId], o) <==> Heeded(w.entries[o.ruleId], o)
  {
    hide OverrideOne, HarmlessTo, IsExpired;
    OverrideAppliesOrReports(s, w, level, o);
  }

  /** A working state with this one rule. */
  function Alone(e: Entry): Work { Work(map[e.rule.base.id := e], []) }

  /** Applied to this rule alone, the override is neither reported nor granted. */
  ghost predicate PassedOver(s: Setting, e: Entry, o: Override)
    requires o.ruleId == e.rule.base.id
  {
    var w' := OverrideOne(s, Alone(e), Project, o);
    w'.conflicts == [] && !(o.ruleId in w'.entries && Granted(w'.entries[o.ruleId], o))
  }

  /** Three concrete overrides of an unlocked rule that fail in silence: one that would protect it, one that
      would enable it again after an upper layer disabled it, and one that would disable and harden it. */
  lemma SilentOverrides(s: Setting)
    ensures var base := Rule("r", ["core"], [Developer], Advisory, false, Instruction(None));
            var on := Entry(EffectiveRule(base, Catalog, false, [], []), None, []);
            var off := on.(disabled := Some(DisabledRule("r", Organization)));
            var nothing := Override("r", None, None, None, None, None, None, None);
            && PassedOver(s, on, nothing.(isProtected := Some(true)))
            && PassedOver(s, off, nothing.(disabled := Some(false)))
            && PassedOver(s, on, nothing.(disabled := Some(true), severity := Some(Blocking)))
  {
    var base := Rule("r", ["core"], [Developer], Advisory, false, Instruction(None));
    var on := Entry(EffectiveRule(base, Catalog, false, [], []), None, []);
    var off := on.(disabled := Some(DisabledRule("r", Organization)));
    var nothing := Override("r", None, None, None, None, None, None, None);
    UnreportedIsGrantedIff(s, Alone(on), Project, nothing.(isProtected := Some(true)));
    UnreportedIsGrantedIff(s, Alone(off), Project, nothing.(disabled := Some(false)));
    UnreportedIsGrantedIff(s, Alone(on), Project, nothing.(disabled := Some(true), severity := Some(Blocking)));
  }

  // ---------- additions and waivers ----------

  /** Nothing stands against adding the rule: its profiles are known, what it replaces is another known rule
      without a lock or itself, and its id is free or is an unlocked rule that it replaces. */
  ghost predicate MayBeAdded(s: Setting, w: Work, r: LayerRule) {
    && (forall p :: p in r.base.profiles ==> p in s.knownProfiles)
    && (r.supplants.Some? && r.supplants.value != r.base.id ==>
          r.supplants.value in w.entries && !w.entries[r.supplants.value].rule.locked)
    && (r.base.id in w.entries ==> !w.entries[r.base.id].rule.locked && r.supplants == Some(r.base.id))
  }

  /** The conflict names what stood against the addition, and something did. */
  ghost predicate IsAddConflict(s: Setting, w: Work, level: Level, r: LayerRule, c: Conflict) {
    && c.level == level
    && match c.reason
       case UnknownProfile =>
         c.attempted == Overriding && c.ruleId == r.base.id && exists p :: p in r.base.profiles && p !in s.knownProfiles
       case UnknownRule =>
         c.attempted == Replace && r.supplants == Some(c.ruleId) && c.ruleId != r.base.id && c.ruleId !in w.entries
       case Locked =>
         && c.ruleId in w.entries && w.entries[c.ruleId].rule.locked
         && if c.ruleId == r.base.id then c.attempted == ReAdd
            else c.attempted == Replace && r.supplants == Some(c.ruleId)
       case Expired => false
  }

  /** Adding a rule puts it in the place of what it replaces and changes no other rule, exactly when nothing
      stands against it; otherwise no rule changes and it is reported by one conflict or a collision. */
  lemma AddAppliesOrReports(s: Setting, w: Work, level: Level, r: LayerRule)
    ensures var after := AddOne(s, w, level, r);
            if MayBeAdded(s, w, r) then
              && after.Ok? && after.value.conflicts == w.conflicts
              && r.base.id in after.value.entries && after.value.entries[r.base.id] == AddedEntry(r, level)
              && (forall id :: id != r.base.id ==>
                    (id in after.value.entries <==> id in w.entries && r.supplants != Some(id)))
              && (forall id :: id != r.base.id && id in after.value.entries ==>
                    after.value.entries[id] == w.entries[id])
            else if after.Ok? then
              && after.value.entries == w.entries
              && |after.value.conflicts| == |w.conflicts| + 1 && w.conflicts <= after.value.conflicts
              && IsAddConflict(s, w, level, r, after.value.conflicts[|w.conflicts|])
            else
              after.error == Collision(r.base.id) && r.base.id in w.entries && !w.entries[r.base.id].rule.locked
  {
  }

  /** A waiver is reported exactly when its rule is unknown or locked or it has expired; otherwise it is
      attached to its rule if its file covers the path, and nothing else changes. */
  lemma WaiverAppliesOrReports(s: Setting, w: Work, level: Level, v: Waiver)
    ensures var w' := WaiveOne(s, w, level, v);
            && (w'.conflicts != w.conflicts <==>
                  v.ruleId !in w.entries || IsExpired(s, Some(v.expires)) || w.entries[v.ruleId].rule.locked)
            && (w'.conflicts != w.conflicts ==>
                  && |w'.conflicts| == |w.conflicts| + 1 && w.conflicts <= w'.conflicts
                  && w'.conflicts[|w.conflicts|]
                     == Conflict(v.ruleId, level, Waive,
                                 if v.ruleId !in w.entries then UnknownRule
                                 else if IsExpired(s, Some(v.expires)) then Expired else Locked))
            && w'.entries.Keys == w.entries.Keys
            && forall id :: id in w.entries ==>
                 && w'.entries[id].rule == w.entries[id].rule && w'.entries[id].disabled == w.entries[id].disabled
                 && w'.entries[id].waivers == w.entries[id].waivers
                    + if id == v.ruleId && w'.conflicts == w.conflicts && Covers(v.file, s.path)
                      then [AppliedWaiver(v, level)] else []
  {
    hide Covers, IsExpired;
  }
}
