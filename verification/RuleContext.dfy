/** The mutable composition context and its passes, as loops over a layer
    (packages/rules/src/compose-context.ts, compose-add.ts, compose-override.ts, compose-waiver.ts,
    compose-lock.ts, compose.ts). */
module RuleContext {
  import opened Common
  import opened ScopeMatch
  import opened RuleLayers

  class Context {
    var entries: map<string, Entry>
    var conflicts: seq<Conflict>
    const setting: Setting

    function State(): Work
      reads this
    {
      Work(entries, conflicts)
    }

    constructor (setting: Setting, entries: map<string, Entry>)
      ensures this.setting == setting && State() == Work(entries, [])
    {
      this.setting, this.entries, conflicts := setting, entries, [];
    }

    method AddConflict(level: Level, ruleId: string, attempted: Attempt, reason: Reason)
      modifies this
      ensures State() == old(State()).Refuse(level, ruleId, attempted, reason)
    {
      conflicts := conflicts + [Conflict(ruleId, level, attempted, reason)];
    }

    method AddRule(level: Level, r: LayerRule) returns (error: Option<RulesError>)
      modifies this
      ensures var spec := AddOne(setting, old(State()), level, r);
              if spec.Err? then error == Some(spec.error) && State() == old(State())
              else error.None? && State() == spec.value
    {
      var unknown := exists p :: p in r.base.profiles && p !in setting.knownProfiles;
      if unknown {
        AddConflict(level, r.base.id, Overriding, UnknownProfile);
        return None;
      }
      if r.supplants.Some? && r.supplants.value != r.base.id {
        if r.supplants.value !in entries {
          AddConflict(level, r.supplants.value, Replace, UnknownRule);
          return None;
        } else if entries[r.supplants.value].rule.locked {
          AddConflict(level, r.supplants.value, Replace, Locked);
          return None;
        }
      }
      if r.base.id in entries && entries[r.base.id].rule.locked {
        AddConflict(level, r.base.id, ReAdd, Locked);
        return None;
      }
      if r.base.id in entries && r.supplants != Some(r.base.id) {
        return Some(Collision(r.base.id));
      }
      if r.supplants.Some? {
        entries := entries - {r.supplants.value};
      }
      entries := entries[r.base.id := AddedEntry(r, level)];
      return None;
    }

    method ApplyAdds(layer: RuleLayer) returns (error: Option<RulesError>)
      modifies this
      ensures var spec := AddAll(setting, old(State()), layer.level, layer.add);
              if spec.Err? then error == Some(spec.error) else error.None? && State() == spec.value
    {
      for i := 0 to |layer.add|
        invariant AddAll(setting, old(State()), layer.level, layer.add)
               == AddAll(setting, State(), layer.level, layer.add[i..])
      {
        assert layer.add[i..][1..] == layer.add[i + 1..];
        error := AddRule(layer.level, layer.add[i]);
        if error.Some? {
          return;
        }
      }
      error := None;
    }

    method ApplyOverride(level: Level, o: Override)
      modifies this
      ensures State() == OverrideOne(setting, old(State()), level, o)
    {
      if o.ruleId !in entries {
        AddConflict(level, o.ruleId, Overriding, UnknownRule);
        return;
      }
      var entry := entries[o.ruleId];
      var weakening := WeakeningOf(entry.rule, o);
      if IsExpired(setting, o.expires) {
        AddConflict(level, o.ruleId, AttemptOf(o), Expired);
      } else if entry.rule.locked && weakening.Some? {
        AddConflict(level, o.ruleId, weakening.value, Locked);
      } else if o.disabled == Some(true) {
        var first := if entry.disabled.Some? then entry.disabled else Some(DisabledRule(o.ruleId, level));
        entries := entries[o.ruleId := entry.(disabled := first)];
      } else {
        entries := entries[o.ruleId := entry.(rule := Changed(entry.rule, o))];
      }
    }

    method ApplyOverrides(layer: RuleLayer)
      modifies this
      ensures State() == OverrideAll(setting, old(State()), layer.level, layer.overrides)
    {
      for i := 0 to |layer.overrides|
        invariant OverrideAll(setting, old(State()), layer.level, layer.overrides)
               == OverrideAll(setting, State(), layer.level, layer.overrides[i..])
      {
        assert layer.overrides[i..][1..] == layer.overrides[i + 1..];
        ApplyOverride(layer.level, layer.overrides[i]);
      }
    }

    method ApplyWaiver(level: Level, v: Waiver)
      modifies this
      ensures State() == WaiveOne(setting, old(State()), level, v)
    {
      if v.ruleId !in entries {
        AddConflict(level, v.ruleId, Waive, UnknownRule);
      } else if IsExpired(setting, Some(v.expires)) {
        AddConflict(level, v.ruleId, Waive, Expired);
      } else if entries[v.ruleId].rule.locked {
        AddConflict(level, v.ruleId, Waive, Locked);
      } else {
        var covered := MatchesPath(v.file, setting.path);
        if covered {
          var entry := entries[v.ruleId];
          entries := entries[v.ruleId := entry.(waivers := entry.waivers + [AppliedWaiver(v, level)])];
        }
      }
    }

    method ApplyWaivers(layer: RuleLayer)
      modifies this
      ensures State() == WaiveAll(setting, old(State()), layer.level, layer.waivers)
    {
      for i := 0 to |layer.waivers|
        invariant WaiveAll(setting, old(State()), layer.level, layer.waivers)
               == WaiveAll(setting, State(), layer.level, layer.waivers[i..])
      {
        assert layer.waivers[i..][1..] == layer.waivers[i + 1..];
        ApplyWaiver(layer.level, layer.waivers[i]);
      }
    }

    method SetLocked(id: string)
      requires id in entries
      modifies this
      ensures State() == Lock1(old(State()), id)
    {
      entries := entries[id := entries[id].(rule := entries[id].rule.(locked := true))];
    }

    method ApplyLocks(layer: RuleLayer)
      modifies this
      ensures State() == LockAllIds(LockAllAdded(old(State()), layer.level, layer.add), layer.level, layer.lock)
    {
      for i := 0 to |layer.add|
        invariant LockAllAdded(old(State()), layer.level, layer.add)
               == LockAllAdded(State(), layer.level, layer.add[i..])
      {
        assert layer.add[i..][1..] == layer.add[i + 1..];
        var base := layer.add[i].base;
        if base.isProtected && base.id in entries && entries[base.id].rule.origin == layer.level {
          SetLocked(base.id);
        }
      }
      ghost var mid := State();
      for i := 0 to |layer.lock|
        invariant LockAllIds(mid, layer.level, layer.lock) == LockAllIds(State(), layer.level, layer.lock[i..])
      {
        assert layer.lock[i..][1..] == layer.lock[i + 1..];
        var id := layer.lock[i];
        if id !in entries {
          AddConflict(layer.level, id, Lock, UnknownRule);
        } else if !entries[id].rule.locked {
          SetLocked(id);
        } else {
          assert entries[id := entries[id]] == entries;
        }
      }
    }

    /** Composes sorted layers on top of the catalogue; stops at the first collision. */
    method ComposeLayers(layers: seq<RuleLayer>) returns (error: Option<RulesError>)
      modifies this
      ensures var spec := ComposeAll(setting, old(State()), layers);
              if spec.Err? then error == Some(spec.error) else error.None? && State() == spec.value
    {
      for i := 0 to |layers|
        invariant ComposeAll(setting, old(State()), layers) == ComposeAll(setting, State(), layers[i..])
      {
        assert layers[i..][1..] == layers[i + 1..];
        error := ApplyAdds(layers[i]);
        if error.Some? {
          return;
        }
        ApplyOverrides(layers[i]);
        ApplyWaivers(layers[i]);
        ApplyLocks(layers[i]);
      }
      error := None;
    }
  }
}
