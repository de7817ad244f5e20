/** What a layer achieves: each addition, override, waiver and lock takes effect or is reported, through a whole
    layer and to the resolution (packages/rules/src/compose.ts, compose-*.ts, resolve.ts). */
module RuleEffects {
  import opened Common
  import opened ScopeMatch
  import opened RuleLayers
  import opened RuleLocking
  import opened RuleResolution

  /** Some conflict about this rule, from this level, for this reason. */
  ghost predicate Reported(conflicts: seq<Conflict>, ruleId: string, level: Level, reason: Reason) {
    exists c :: c in conflicts && c.ruleId == ruleId && c.level == level && c.reason == reason
  }

  lemma ReportedStays(a: seq<Conflict>, b: seq<Conflict>, ruleId: string, level: Level, reason: Reason)
    requires a <= b && Reported(a, ruleId, level, reason)
    ensures Reported(b, ruleId, level, reason)
  {
    assert b == a + b[|a|..];
  }

  /** Both states have the same to say about this id. */
  ghost predicate SameEntry(a: Work, b: Work, id: string) {
    (id in a.entries <==> id in b.entries) && (id in a.entries ==> a.entries[id] == b.entries[id])
  }

  // ---------- additions ----------

  /** An addition that touches this id: it adds or replaces it. */
  predicate Touches(r: LayerRule, id: string) { r.base.id == id || r.supplants == Some(id) }

  /** The rule as the layer wrote it: unlocked, neither disabled nor waived. */
  ghost predicate IsAsAdded(e: Entry, r: LayerRule, level: Level) {
    && e.rule.base == r.base && e.rule.origin == level && !e.rule.locked
    && e.rule.paths == r.paths && e.rule.excludePaths == r.excludePaths
    && e.disabled.None? && e.waivers == []
  }

  /** The addition is in place and what it replaced is gone, or a conflict tells what stood against it. */
  ghost predicate AdditionTold(s: Setting, before: Work, after: Work, level: Level, r: LayerRule) {
    if MayBeAdded(s, before, r) then
      && r.base.id in after.entries && IsAsAdded(after.entries[r.base.id], r, level)
      && (r.supplants.Some? && r.supplants.value != r.base.id ==> r.supplants.value !in after.entries)
    else exists c :: c in after.conflicts && IsAddConflict(s, before, level, r, c)
  }

  /** No other addition of the list touches what this one adds or replaces. */
  ghost predicate AddsAlone(rules: seq<LayerRule>, i: nat)
    requires i < |rules|
  {
    forall j :: 0 <= j < |rules| && j != i ==>
        !Touches(rules[j], rules[i].base.id)
        && (rules[i].supplants.Some? ==> !Touches(rules[j], rules[i].supplants.value))
  }

  lemma {:induction false} AddsElsewhere(s: Setting, w: Work, level: Level, rules: seq<LayerRule>, id: string)
    requires AddAll(s, w, level, rules).Ok?
    ensures w.conflicts <= AddAll(s, w, level, rules).value.conflicts
    ensures (forall r :: r in rules ==> !Touches(r, id)) ==> SameEntry(w, AddAll(s, w, level, rules).value, id)
    decreases |rules|
  {
    if rules != [] {
      AddAppliesOrReports(s, w, level, rules[0]);
      hide AddOne, MayBeAdded, IsAddConflict;
      var next := AddOne(s, w, level, rules[0]).value;
      AddsElsewhere(s, next, level, rules[1..], id);
      assert forall r :: r in rules[1..] ==> r in rules;
      assert rules[0] in rules;
    }
  }

  lemma SameHindrance(s: Setting, a: Work, b: Work, level: Level, r: LayerRule, last: Work)
    requires SameEntry(a, b, r.base.id) && (r.supplants.Some? ==> SameEntry(a, b, r.supplants.value))
    requires AdditionTold(s, b, last, level, r)
    ensures AdditionTold(s, a, last, level, r)
  {
    assert MayBeAdded(s, a, r) <==> MayBeAdded(s, b, r);
    forall c ensures IsAddConflict(s, a, level, r, c) <==> IsAddConflict(s, b, level, r, c) {}
    hide MayBeAdded, IsAddConflict;
  }

  lemma {:induction false} AddAllTold(s: Setting, w: Work, level: Level, rules: seq<LayerRule>, i: nat)
    requires AddAll(s, w, level, rules).Ok? && i < |rules| && AddsAlone(rules, i)
    ensures AdditionTold(s, w, AddAll(s, w, level, rules).value, level, rules[i])
    decreases |rules|
  {
    var r, next, last := rules[i], AddOne(s, w, level, rules[0]).value, AddAll(s, w, level, rules).value;
    AddAppliesOrReports(s, w, level, rules[0]);
    if i == 0 {
      assert forall x :: x in rules[1..] ==> exists j :: 1 <= j < |rules| && rules[j] == x;
      AddsElsewhere(s, next, level, rules[1..], r.base.id);
      if r.supplants.Some? {
        AddsElsewhere(s, next, level, rules[1..], r.supplants.value);
      }
      hide AddOne, MayBeAdded, IsAddConflict;
      assert last.conflicts == next.conflicts + last.conflicts[|next.conflicts|..];
    } else {
      assert !Touches(rules[0], r.base.id);
      assert SameEntry(w, next, r.base.id);
      if r.supplants.Some? {
        assert !Touches(rules[0], r.supplants.value);
        assert SameEntry(w, next, r.supplants.value);
      }
      AddAllTold(s, next, level, rules[1..], i - 1);
      SameHindrance(s, w, next, level, r, last);
    }
  }

  // ---------- overrides ----------

  ghost predicate IsPast(s: Setting, expires: Option<int>) { expires.Some? && expires.value < s.today }

  ghost predicate OverrideRefused(s: Setting, w: Work, o: Override) {
    || o.ruleId !in w.entries || IsPast(s, o.expires)
    || (w.entries[o.ruleId].rule.locked && !HarmlessTo(w.entries[o.ruleId].rule, o))
  }

  ghost function OverrideReason(s: Setting, w: Work, o: Override): Reason {
    if o.ruleId !in w.entries then UnknownRule else if IsPast(s, o.expires) then Expired else Locked
  }

  /** The override is reported and its rule left alone, or it is applied to its rule. */
  ghost predicate OverrideTold(s: Setting, before: Work, after: Work, level: Level, o: Override) {
    if OverrideRefused(s, before, o) then
      SameEntry(before, after, o.ruleId) && Reported(after.conflicts, o.ruleId, level, OverrideReason(s, before, o))
    else o.ruleId in after.entries && Applied(before.entries[o.ruleId], after.entries[o.ruleId], level, o)
  }

  ghost predicate OverridesAlone(os: seq<Override>, i: nat)
    requires i < |os|
  {
    forall j :: 0 <= j < |os| && j != i ==> os[j].ruleId != os[i].ruleId
  }

  /** What no override changes: waivers, lock and origin. */
  ghost predicate KeepsStanding(before: Entry, after: Entry) {
    after.waivers == before.waivers && after.rule.locked == before.rule.locked
        && after.rule.origin == before.rule.origin
  }

  lemma OneOverrideTold(s: Setting, w: Work, level: Level, o: Override, id: string)
    ensures var w' := OverrideOne(s, w, level, o);
            && OverrideTold(s, w, w', level, o) && w.conflicts <= w'.conflicts && w'.entries.Keys == w.entries.Keys
            && (id != o.ruleId ==> SameEntry(w, w', id))
            && (id in w.entries ==> KeepsStanding(w.entries[id], w'.entries[id]))
  {
    OverrideAppliesOrReports(s, w, level, o);
    hide OverrideOne, HarmlessTo, FormGranted, RestKept;
    var w' := OverrideOne(s, w, level, o);
    if w'.conflicts == w.conflicts {
      assert forall k :: k != o.ruleId ==> (k in w.entries <==> k in w.entries - {o.ruleId});
      assert forall k :: k != o.ruleId ==> (k in w'.entries <==> k in w'.entries - {o.ruleId});
      assert id != o.ruleId && id in w.entries ==> (w.entries - {o.ruleId})[id] == (w'.entries - {o.ruleId})[id];
    }
  }

  lemma {:induction false} OverridesElsewhere(s: Setting, w: Work, level: Level, os: seq<Override>, id: string)
    ensures var w' := OverrideAll(s, w, level, os);
            && w.conflicts <= w'.conflicts && w'.entries.Keys == w.entries.Keys
            && ((forall o :: o in os ==> o.ruleId != id) ==> SameEntry(w, w', id))
            && (id in w.entries ==> KeepsStanding(w.entries[id], w'.entries[id]))
    decreases |os|
  {
    if os != [] {
      OneOverrideTold(s, w, level, os[0], id);
      OverridesElsewhere(s, OverrideOne(s, w, level, os[0]), level, os[1..], id);
      hide OverrideOne, OverrideTold;
      assert os[0] in os && forall o :: o in os[1..] ==> o in os;
    }
  }

  lemma {:induction false} OverrideAllTold(s: Setting, w: Work, level: Level, os: seq<Override>, i: nat)
    requires i < |os| && OverridesAlone(os, i)
    ensures OverrideTold(s, w, OverrideAll(s, w, level, os), level, os[i])
    decreases |os|
  {
    var o, next, last := os[i], OverrideOne(s, w, level, os[0]), OverrideAll(s, w, level, os);
    OneOverrideTold(s, w, level, os[0], o.ruleId);
    hide OverrideOne, Applied, HarmlessTo, Reported;
    if i == 0 {
      assert forall x :: x in os[1..] ==> exists j :: 1 <= j < |os| && os[j] == x;
      OverridesElsewhere(s, next, level, os[1..], o.ruleId);
      if OverrideRefused(s, w, o) {
        ReportedStays(next.conflicts, last.conflicts, o.ruleId, level, OverrideReason(s, w, o));
      }
    } else {
      OverrideAllTold(s, next, level, os[1..], i - 1);
    }
  }

  // ---------- waivers ----------

  /** Waivers of the list that are in force on this rule and this path, in order. */
  function InForce(s: Setting, level: Level, vs: seq<Waiver>, id: string): seq<AppliedWaiver>
    decreases |vs|
  {
    if vs == [] then []
    else
      (if vs[0].ruleId == id && s.today <= vs[0].expires && Covers(vs[0].file, s.path)
       then [AppliedWaiver(vs[0], level)] else [])
      + InForce(s, level, vs[1..], id)
  }

  ghost predicate WaiverRefused(s: Setting, w: Work, v: Waiver) {
    v.ruleId !in w.entries || v.expires < s.today || w.entries[v.ruleId].rule.locked
  }

  ghost function WaiverReason(s: Setting, w: Work, v: Waiver): Reason {
    if v.ruleId !in w.entries then UnknownRule else if v.expires < s.today then Expired else Locked
  }

  /** A rule gains exactly the waivers in force on it, none if it is locked, and nothing else changes. */
  ghost predicate WaiversGained(s: Setting, before: Work, after: Work, level: Level, vs: seq<Waiver>) {
    && after.entries.Keys == before.entries.Keys
    && forall id :: id in before.entries ==>
         && after.entries[id].rule == before.entries[id].rule
         && after.entries[id].disabled == before.entries[id].disabled
         && after.entries[id].waivers == before.entries[id].waivers
            + if before.entries[id].rule.locked then [] else InForce(s, level, vs, id)
  }

  /** Waivers that are refused are reported. */
  ghost predicate WaiversReported(s: Setting, before: Work, after: Work, level: Level, vs: seq<Waiver>) {
    && before.conflicts <= after.conflicts
    && forall v :: v in vs && WaiverRefused(s, before, v) ==>
         Reported(after.conflicts, v.ruleId, level, WaiverReason(s, before, v))
  }

  ghost predicate WaiversTold(s: Setting, before: Work, after: Work, level: Level, vs: seq<Waiver>) {
    WaiversGained(s, before, after, level, vs) && WaiversReported(s, before, after, level, vs)
  }

  lemma OneWaiverGained(s: Setting, w: Work, level: Level, v: Waiver)
    ensures WaiversGained(s, w, WaiveOne(s, w, level, v), level, [v])
  {
    WaiverAppliesOrReports(s, w, level, v);
    forall id
      ensures InForce(s, level, [v], id)
           == if v.ruleId == id && s.today <= v.expires && Covers(v.file, s.path) then [AppliedWaiver(v, level)] else []
    {
    }
    hide WaiveOne, Covers, InForce;
  }

  lemma OneWaiverReported(s: Setting, w: Work, level: Level, v: Waiver)
    ensures WaiversReported(s, w, WaiveOne(s, w, level, v), level, [v])
  {
    WaiverAppliesOrReports(s, w, level, v);
    var next := WaiveOne(s, w, level, v);
    hide WaiveOne, Covers;
    if WaiverRefused(s, w, v) {
      assert next.conflicts[|w.conflicts|] in next.conflicts;
      assert Reported(next.conflicts, v.ruleId, level, WaiverReason(s, w, v));
    }
  }

  lemma InForceSplits(s: Setting, level: Level, vs: seq<Waiver>, id: string)
    requires vs != []
    ensures InForce(s, level, vs, id) == InForce(s, level, [vs[0]], id) + InForce(s, level, vs[1..], id)
  {
    assert [vs[0]][1..] == [];
    hide Covers;
  }

  lemma GainsCompose(s: Setting, a: Work, b: Work, c: Work, level: Level, vs: seq<Waiver>)
    requires vs != [] && WaiversGained(s, a, b, level, [vs[0]]) && WaiversGained(s, b, c, level, vs[1..])
    ensures WaiversGained(s, a, c, level, vs)
  {
    hide InForce;
    forall id | id in a.entries
      ensures c.entries[id].waivers == a.entries[id].waivers
              + if a.entries[id].rule.locked then [] else InForce(s, level, vs, id)
    {
      InForceSplits(s, level, vs, id);
      var x, y, z := a.entries[id].waivers, InForce(s, level, [vs[0]], id), InForce(s, level, vs[1..], id);
      assert (x + y) + z == x + (y + z) && x + [] + [] == x + [];
    }
  }

  lemma ReportsCompose(s: Setting, a: Work, b: Work, c: Work, level: Level, vs: seq<Waiver>)
    requires vs != [] && WaiversReported(s, a, b, level, [vs[0]]) && WaiversReported(s, b, c, level, vs[1..])
    requires b.entries.Keys == a.entries.Keys
    requires forall id :: id in a.entries ==> b.entries[id].rule == a.entries[id].rule
    ensures WaiversReported(s, a, c, level, vs)
  {
    hide Reported;
    forall v | v in vs && WaiverRefused(s, a, v)
      ensures Reported(c.conflicts, v.ruleId, level, WaiverReason(s, a, v))
    {
      if v == vs[0] {
        assert v in [vs[0]];
        ReportedStays(b.conflicts, c.conflicts, v.ruleId, level, WaiverReason(s, a, v));
      } else {
        assert v in vs[1..];
        assert WaiverRefused(s, b, v) && WaiverReason(s, b, v) == WaiverReason(s, a, v);
      }
    }
  }

  lemma {:induction false} WaiveAllTold(s: Setting, w: Work, level: Level, vs: seq<Waiver>)
    ensures WaiversTold(s, w, WaiveAll(s, w, level, vs), level, vs)
    decreases |vs|
  {
    if vs != [] {
      var next := WaiveOne(s, w, level, vs[0]);
      OneWaiverGained(s, w, level, vs[0]);
      OneWaiverReported(s, w, level, vs[0]);
      WaiveAllTold(s, next, level, vs[1..]);
      hide WaiveOne, InForce, WaiversReported;
      GainsCompose(s, w, next, WaiveAll(s, w, level, vs), level, vs);
      ReportsCompose(s, w, next, WaiveAll(s, w, level, vs), level, vs);
    }
  }

  // ---------- locks ----------

  function Relocked(e: Entry, locked: bool): Entry { e.(rule := e.rule.(locked := locked)) }

  /** Only locks change, and a rule is locked afterwards exactly if it was or `gains` says so. */
  ghost predicate LocksTold(before: Work, after: Work, gains: string -> bool) {
    && before.conflicts <= after.conflicts && after.entries.Keys == before.entries.Keys
    && forall id :: id in before.entries ==>
         && (after.entries[id].rule.locked <==> before.entries[id].rule.locked || gains(id))
         && after.entries[id] == Relocked(before.entries[id], after.entries[id].rule.locked)
  }

  /** The layer added this rule as protected. */
  predicate AddedProtected(rules: seq<LayerRule>, id: string) {
    exists i :: 0 <= i < |rules| && rules[i].base.isProtected && rules[i].base.id == id
  }

  lemma LocksCompose(a: Work, b: Work, c: Work, g: string -> bool, h: string -> bool, both: string -> bool)
    requires LocksTold(a, b, g) && LocksTold(b, c, h)
    requires forall id :: id in a.entries ==> (both(id) <==> g(id) || h(id))
    ensures LocksTold(a, c, both)
  {
  }

  /** Added as protected by a rule of this list, and still coming from this level. */
  function ByAdding(w: Work, level: Level, rules: seq<LayerRule>): string -> bool {
    id => id in w.entries && w.entries[id].rule.origin == level && AddedProtected(rules, id)
  }

  lemma AddedProtectedSplits(rules: seq<LayerRule>, id: string)
    requires rules != []
    ensures AddedProtected(rules, id) <==>
        (rules[0].base.isProtected && rules[0].base.id == id) || AddedProtected(rules[1..], id)
  {
    if AddedProtected(rules[1..], id) {
      var i :| 0 <= i < |rules[1..]| && rules[1..][i].base.isProtected && rules[1..][i].base.id == id;
      assert rules[i + 1].base.id == id;
    }
    if AddedProtected(rules, id) {
      var i :| 0 <= i < |rules| && rules[i].base.isProtected && rules[i].base.id == id;
      assert i > 0 ==> rules[1..][i - 1].base.id == id;
    }
  }

  lemma OneLockTold(w: Work, level: Level, r: LayerRule)
    ensures LocksTold(w, LockAdded(w, level, r), ByAdding(w, level, [r]))
  {
    forall id ensures AddedProtected([r], id) <==> r.base.isProtected && r.base.id == id {
      AddedProtectedSplits([r], id);
    }
    hide AddedProtected;
  }

  lemma {:induction false} LockAllAddedTold(w: Work, level: Level, rules: seq<LayerRule>)
    ensures LocksTold(w, LockAllAdded(w, level, rules), ByAdding(w, level, rules))
    decreases |rules|
  {
    if rules != [] {
      var next := LockAdded(w, level, rules[0]);
      OneLockTold(w, level, rules[0]);
      LockAllAddedTold(next, level, rules[1..]);
      forall id | id in w.entries
        ensures ByAdding(w, level, rules)(id) <==>
            ByAdding(w, level, [rules[0]])(id) || ByAdding(next, level, rules[1..])(id)
      {
        AddedProtectedSplits(rules, id);
        AddedProtectedSplits([rules[0]], id);
        assert LocksTold(w, next, ByAdding(w, level, [rules[0]]));
        assert next.entries[id].rule.origin == w.entries[id].rule.origin;
        hide AddedProtected, LockAdded;
      }
      hide LocksTold, ByAdding, LockAdded;
      LocksCompose(w, next, LockAllAdded(w, level, rules), ByAdding(w, level, [rules[0]]),
                   ByAdding(next, level, rules[1..]), ByAdding(w, level, rules));
    }
  }

  lemma OneIdTold(w: Work, level: Level, id: string)
    ensures LocksTold(w, LockId(w, level, id), x => x == id)
    ensures id !in w.entries ==> Reported(LockId(w, level, id).conflicts, id, level, UnknownRule)
  {
    if id !in w.entries {
      assert LockId(w, level, id).conflicts[|w.conflicts|].ruleId == id;
    }
  }

  lemma {:induction false} LockAllIdsTold(w: Work, level: Level, ids: seq<string>)
    ensures LocksTold(w, LockAllIds(w, level, ids), id => id in ids)
    ensures forall id :: id in ids && id !in w.entries ==>
        Reported(LockAllIds(w, level, ids).conflicts, id, level, UnknownRule)
    decreases |ids|
  {
    if ids != [] {
      var next, last := LockId(w, level, ids[0]), LockAllIds(w, level, ids);
      OneIdTold(w, level, ids[0]);
      LockAllIdsTold(next, level, ids[1..]);
      hide LockId, Reported;
      LocksCompose(w, next, last, id => id == ids[0], id => id in ids[1..], id => id in ids);
      if ids[0] !in w.entries {
        ReportedStays(next.conflicts, last.conflicts, ids[0], level, UnknownRule);
      }
    }
  }

  // ---------- a whole layer ----------

  /** The entry with the waivers and the lock of another: what comes after the overrides of a layer. */
  function WithStanding(e: Entry, other: Entry): Entry {
    e.(waivers := other.waivers, rule := e.rule.(locked := other.rule.locked))
  }

  /** An override of the layer, seen from the end of the layer, against the entries after its additions. */
  ghost predicate OverrideInLayer(s: Setting, added: Work, after: Work, level: Level, o: Override) {
    if OverrideRefused(s, added, o) then Reported(after.conflicts, o.ruleId, level, OverrideReason(s, added, o))
    else
      && o.ruleId in after.entries
      && Applied(added.entries[o.ruleId], WithStanding(after.entries[o.ruleId], added.entries[o.ruleId]), level, o)
  }

  /** A rule, from the end of the additions to the end of the layer: which waivers and lock it gains, and that
      no override means no change. */
  ghost predicate EntryInLayer(s: Setting, added: Work, after: Work, layer: RuleLayer, id: string)
    requires id in added.entries && id in after.entries
  {
    var a, b := added.entries[id], after.entries[id];
    && b.waivers == a.waivers + (if a.rule.locked then [] else InForce(s, layer.level, layer.waivers, id))
    && b.rule.origin == a.rule.origin
    && (b.rule.locked <==> || a.rule.locked || id in layer.lock
                           || (a.rule.origin == layer.level && AddedProtected(layer.add, id)))
    && ((forall o :: o in layer.overrides ==> o.ruleId != id) ==> WithStanding(b, a) == a)
  }

  lemma PrefixesGrow(s: Setting, layer: RuleLayer, overridden: Work, waived: Work, relocked: Work, after: Work)
    requires WaiversTold(s, overridden, waived, layer.level, layer.waivers)
    requires LocksTold(waived, relocked, ByAdding(waived, layer.level, layer.add))
    requires LocksTold(relocked, after, id => id in layer.lock)
    ensures overridden.conflicts <= waived.conflicts <= relocked.conflicts <= after.conflicts
    ensures after.entries.Keys == relocked.entries.Keys == waived.entries.Keys == overridden.entries.Keys
  {
  }

  lemma EntryTold(s: Setting, added: Work, layer: RuleLayer, overridden: Work, waived: Work, relocked: Work,
                  after: Work, id: string)
    requires id in added.entries && id in overridden.entries
    requires KeepsStanding(added.entries[id], overridden.entries[id])
    requires (forall o :: o in layer.overrides ==> o.ruleId != id) ==> SameEntry(added, overridden, id)
    requires WaiversTold(s, overridden, waived, layer.level, layer.waivers)
    requires LocksTold(waived, relocked, ByAdding(waived, layer.level, layer.add))
    requires LocksTold(relocked, after, x => x in layer.lock)
    ensures id in after.entries && EntryInLayer(s, added, after, layer, id)
    ensures WithStanding(after.entries[id], overridden.entries[id]) == overridden.entries[id]
  {
    hide InForce, AddedProtected, Reported, WaiverRefused;
  }

  lemma OverrideSurvives(s: Setting, added: Work, layer: RuleLayer, overridden: Work, waived: Work, relocked: Work,
                         after: Work, o: Override)
    requires OverrideTold(s, added, overridden, layer.level, o) && overridden.conflicts <= after.conflicts
    requires o.ruleId in added.entries ==> KeepsStanding(added.entries[o.ruleId], overridden.entries[o.ruleId])
    requires o.ruleId in added.entries ==>
        o.ruleId in after.entries && o.ruleId in overridden.entries
        && WithStanding(after.entries[o.ruleId], overridden.entries[o.ruleId]) == overridden.entries[o.ruleId]
    ensures OverrideInLayer(s, added, after, layer.level, o)
  {
    if OverrideRefused(s, added, o) {
      ReportedStays(overridden.conflicts, after.conflicts, o.ruleId, layer.level, OverrideReason(s, added, o));
    } else {
      hide Applied, HarmlessTo;
      assert WithStanding(after.entries[o.ruleId], added.entries[o.ruleId]) == overridden.entries[o.ruleId];
    }
  }

  lemma WaiverSurvives(s: Setting, added: Work, layer: RuleLayer, overridden: Work, waived: Work, after: Work,
                       v: Waiver)
    requires v in layer.waivers && WaiverRefused(s, added, v)
    requires overridden.entries.Keys == added.entries.Keys && waived.conflicts <= after.conflicts
    requires v.ruleId in added.entries ==> KeepsStanding(added.entries[v.ruleId], overridden.entries[v.ruleId])
    requires WaiversTold(s, overridden, waived, layer.level, layer.waivers)
    ensures Reported(after.conflicts, v.ruleId, layer.level, WaiverReason(s, added, v))
  {
    assert v.ruleId in added.entries <==> v.ruleId in overridden.entries;
    ReportedStays(waived.conflicts, after.conflicts, v.ruleId, layer.level, WaiverReason(s, added, v));
  }

  /** The part of a layer that follows its additions. */
  lemma TailTold(s: Setting, added: Work, layer: RuleLayer, overridden: Work, waived: Work, relocked: Work, after: Work)
    requires overridden == OverrideAll(s, added, layer.level, layer.overrides)
    requires waived == WaiveAll(s, overridden, layer.level, layer.waivers)
    requires relocked == LockAllAdded(waived, layer.level, layer.add)
    requires after == LockAllIds(relocked, layer.level, layer.lock)
    ensures added.conflicts <= after.conflicts && after.entries.Keys == added.entries.Keys
    ensures forall i :: 0 <= i < |layer.overrides| && OverridesAlone(layer.overrides, i) ==>
        OverrideInLayer(s, added, after, layer.level, layer.overrides[i])
    ensures forall id :: id in added.entries ==> EntryInLayer(s, added, after, layer, id)
    ensures forall v :: v in layer.waivers && WaiverRefused(s, added, v) ==>
        Reported(after.conflicts, v.ruleId, layer.level, WaiverReason(s, added, v))
    ensures forall id :: id in layer.lock && id !in added.entries ==>
        Reported(after.conflicts, id, layer.level, UnknownRule)
  {
    var level := layer.level;
    hide *;
    OverridesElsewhere(s, added, level, layer.overrides, "");
    WaiveAllTold(s, overridden, level, layer.waivers);
    LockAllAddedTold(waived, level, layer.add);
    LockAllIdsTold(relocked, level, layer.lock);
    PrefixesGrow(s, layer, overridden, waived, relocked, after);
    forall id | id in added.entries
      ensures EntryInLayer(s, added, after, layer, id)
      ensures WithStanding(after.entries[id], overridden.entries[id]) == overridden.entries[id]
    {
      OverridesElsewhere(s, added, level, layer.overrides, id);
      EntryTold(s, added, layer, overridden, waived, relocked, after, id);
    }
    forall i | 0 <= i < |layer.overrides| && OverridesAlone(layer.overrides, i)
      ensures OverrideInLayer(s, added, after, level, layer.overrides[i])
    {
      OverrideAllTold(s, added, level, layer.overrides, i);
      OverridesElsewhere(s, added, level, layer.overrides, layer.overrides[i].ruleId);
      OverrideSurvives(s, added, layer, overridden, waived, relocked, after, layer.overrides[i]);
    }
    forall v | v in layer.waivers && WaiverRefused(s, added, v)
      ensures Reported(after.conflicts, v.ruleId, level, WaiverReason(s, added, v))
    {
      OverridesElsewhere(s, added, level, layer.overrides, v.ruleId);
      WaiverSurvives(s, added, layer, overridden, waived, after, v);
    }
  }

  /** One layer: its additions, overrides, waivers and locks each take effect or are reported. */
  lemma LayerTold(s: Setting, w: Work, layer: RuleLayer)
    requires ComposeLayer(s, w, layer).Ok?
    ensures AddAll(s, w, layer.level, layer.add).Ok?
    ensures var added, after := AddAll(s, w, layer.level, layer.add).value, ComposeLayer(s, w, layer).value;
            && w.conflicts <= added.conflicts <= after.conflicts && after.entries.Keys == added.entries.Keys
            && (forall i :: 0 <= i < |layer.add| && AddsAlone(layer.add, i) ==>
                  AdditionTold(s, w, added, layer.level, layer.add[i]))
            && (forall i :: 0 <= i < |layer.overrides| && OverridesAlone(layer.overrides, i) ==>
                  OverrideInLayer(s, added, after, layer.level, layer.overrides[i]))
            && (forall id :: id in added.entries ==> EntryInLayer(s, added, after, layer, id))
            && (forall v :: v in layer.waivers && WaiverRefused(s, added, v) ==>
                  Reported(after.conflicts, v.ruleId, layer.level, WaiverReason(s, added, v)))
            && (forall id :: id in layer.lock && id !in added.entries ==>
                  Reported(after.conflicts, id, layer.level, UnknownRule))
  {
    var level := layer.level;
    var added := AddAll(s, w, level, layer.add).value;
    var overridden := OverrideAll(s, added, level, layer.overrides);
    var waived := WaiveAll(s, overridden, level, layer.waivers);
    var relocked := LockAllAdded(waived, level, layer.add);
    var after := LockAllIds(relocked, level, layer.lock);
    assert after == ComposeLayer(s, w, layer).value;
    forall i | 0 <= i < |layer.add| && AddsAlone(layer.add, i)
      ensures AdditionTold(s, w, added, level, layer.add[i])
    {
      AddAllTold(s, w, level, layer.add, i);
    }
    AddsElsewhere(s, w, level, layer.add, "");
    hide *;
    TailTold(s, added, layer, overridden, waived, relocked, after);
  }

  // ---------- stacks of layers ----------

  /** The layer adds, replaces, overrides or waives this rule. */
  ghost predicate Names(layer: RuleLayer, id: string) {
    || (exists r :: r in layer.add && Touches(r, id))
    || (exists o :: o in layer.overrides && o.ruleId == id)
    || (exists v :: v in layer.waivers && v.ruleId == id)
  }

  /** The rule is as it was, but perhaps for its lock. */
  ghost predicate StaysButLock(before: Work, after: Work, id: string) {
    && (id in before.entries <==> id in after.entries)
    && (id in before.entries ==> WithStanding(after.entries[id], before.entries[id]) == before.entries[id]
                                 && after.entries[id].waivers == before.entries[id].waivers)
  }

  lemma {:induction false} NoneInForce(s: Setting, level: Level, vs: seq<Waiver>, id: string)
    requires forall v :: v in vs ==> v.ruleId != id
    ensures InForce(s, level, vs, id) == []
    decreases |vs|
  {
    if vs != [] {
      NoneInForce(s, level, vs[1..], id);
    }
  }

  lemma UnnamedStays(s: Setting, w: Work, layer: RuleLayer, id: string)
    requires ComposeLayer(s, w, layer).Ok? && !Names(layer, id)
    ensures StaysButLock(w, ComposeLayer(s, w, layer).value, id)
  {
    LayerTold(s, w, layer);
    AddsElsewhere(s, w, layer.level, layer.add, id);
    NoneInForce(s, layer.level, layer.waivers, id);
    var added, after := AddAll(s, w, layer.level, layer.add).value, ComposeLayer(s, w, layer).value;
    assert SameEntry(w, added, id);
    assert id in added.entries ==> EntryInLayer(s, added, after, layer, id);
    hide ComposeLayer, AddAll, InForce, AdditionTold, OverrideInLayer, Reported, AddedProtected, WaiverRefused;
  }

  lemma ConflictsGrow(s: Setting, w: Work, layer: RuleLayer)
    requires ComposeLayer(s, w, layer).Ok?
    ensures w.conflicts <= ComposeLayer(s, w, layer).value.conflicts
  {
    LayerTold(s, w, layer);
    hide ComposeLayer, AddAll;
  }

  /** Through any stack of layers, conflicts are only added, and a rule that no layer names stays as it is. */
  lemma {:induction false} UnnamedStaysInStack(s: Setting, w: Work, layers: seq<RuleLayer>, id: string)
    requires ComposeAll(s, w, layers).Ok?
    ensures w.conflicts <= ComposeAll(s, w, layers).value.conflicts
    ensures (forall l :: l in layers ==> !Names(l, id)) ==> StaysButLock(w, ComposeAll(s, w, layers).value, id)
    decreases |layers|
  {
    if layers != [] {
      var next := ComposeLayer(s, w, layers[0]).value;
      ConflictsGrow(s, w, layers[0]);
      UnnamedStaysInStack(s, next, layers[1..], id);
      hide ComposeLayer, Names;
      if forall l :: l in layers ==> !Names(l, id) {
        assert layers[0] in layers && forall l :: l in layers[1..] ==> l in layers;
        UnnamedStays(s, w, layers[0], id);
      }
    }
  }

  /** An override in a layer of a stack, seen from the end of the stack: if no other override of its layer and no
      later layer names its rule, it is reported or applied. `added` is the state after the additions of the
      layer. */
  lemma OverrideInStack(s: Setting, w: Work, upper: seq<RuleLayer>, layer: RuleLayer, lower: seq<RuleLayer>, i: nat)
    requires ComposeAll(s, w, upper + [layer] + lower).Ok?
    requires i < |layer.overrides| && OverridesAlone(layer.overrides, i)
    requires forall l :: l in lower ==> !Names(l, layer.overrides[i].ruleId)
    ensures ComposeAll(s, w, upper).Ok? && AddAll(s, ComposeAll(s, w, upper).value, layer.level, layer.add).Ok?
    ensures var added := AddAll(s, ComposeAll(s, w, upper).value, layer.level, layer.add).value;
            OverrideInLayer(s, added, ComposeAll(s, w, upper + [layer] + lower).value, layer.level, layer.overrides[i])
  {
    var o := layer.overrides[i];
    ComposeInTwoParts(s, w, upper + [layer], lower);
    ComposeInTwoParts(s, w, upper, [layer]);
    var before := ComposeAll(s, w, upper).value;
    assert ComposeAll(s, before, [layer]) == ComposeLayer(s, before, layer);
    var mid, end := ComposeLayer(s, before, layer).value, ComposeAll(s, w, upper + [layer] + lower).value;
    hide ComposeLayer, ComposeAll, AddAll;
    LayerTold(s, before, layer);
    UnnamedStaysInStack(s, mid, lower, o.ruleId);
    var added := AddAll(s, before, layer.level, layer.add).value;
    hide AdditionTold, EntryInLayer, Names, Applied, HarmlessTo, Reported, WaiverRefused;
    if OverrideRefused(s, added, o) {
      ReportedStays(mid.conflicts, end.conflicts, o.ruleId, layer.level, OverrideReason(s, added, o));
    } else {
      assert WithStanding(end.entries[o.ruleId], added.entries[o.ruleId])
          == WithStanding(mid.entries[o.ruleId], added.entries[o.ruleId]);
    }
  }

  /** The rule has the severity, enforcement, agents and exclusions asked for. */
  ghost predicate RuleGranted(r: EffectiveRule, o: Override) {
    && (o.severity.Some? ==> r.base.severity == o.severity.value)
    && (o.enforcement.Some? ==> r.base.enforcement == o.enforcement.value)
    && (o.agents.Some? ==> r.base.agents == o.agents.value)
    && (o.excludePaths.Some? ==> forall p :: p in o.excludePaths.value ==> p in r.excludePaths)
  }

  lemma FromEnd(s: Setting, added: Work, end: Work, res: Resolution, level: Level, o: Override)
    requires OverrideInLayer(s, added, end, level, o)
    requires exists before :: res.conflicts == before + end.conflicts
    requires o.ruleId in res.rules ==>
        o.ruleId in end.entries && end.entries[o.ruleId].disabled.None?
            && res.rules[o.ruleId] == end.entries[o.ruleId].rule
    ensures if OverrideRefused(s, added, o) then
              Reported(res.conflicts, o.ruleId, level, OverrideReason(s, added, o))
            else if o.disabled == Some(true) then o.ruleId !in res.rules
            else o.ruleId in res.rules ==> RuleGranted(res.rules[o.ruleId], o)
  {
    hide HarmlessTo, RestKept, IsPast;
    var before :| res.conflicts == before + end.conflicts;
    if OverrideRefused(s, added, o) {
      assert forall c :: c in end.conflicts ==> c in res.conflicts;
    }
  }

  /** The path asked for in normal form, on the day and with the profiles given. */
  ghost function AskedSetting(input: ResolveInput): Setting {
    Setting(input.catalog.profiles, OrElse(NormalizePath(input.path), ""), input.today)
  }

  /** The catalogue under these layers. */
  ghost function StateUnder(input: ResolveInput, layers: seq<RuleLayer>): Result<Work, RulesError> {
    ComposeAll(AskedSetting(input), Work(InitialEntries(input.catalog, input.catalog.rules), []), layers)
  }

  /** A layer of the input, with those above and below it, in order. */
  ghost predicate IsStack(input: ResolveInput, upper: seq<RuleLayer>, layer: RuleLayer, lower: seq<RuleLayer>) {
    Ordered(input.layers) == Ok(upper + [layer] + lower)
  }

  /** The parts of a resolution. */
  lemma ResolutionParts(input: ResolveInput, layers: seq<RuleLayer>)
    requires Resolve(input).Ok? && Ordered(input.layers) == Ok(layers)
    ensures StateUnder(input, layers).Ok?
    ensures var end, res, path := StateUnder(input, layers).value, Resolve(input).value, AskedSetting(input).path;
            && res.rules == Build(input.role, end, res.profiles, path).rules
            && res.conflicts == ProfileConflicts(input.catalog, layers) + end.conflicts
  {
    var path := NormalizePath(input.path).value;
    assert Resolve(input) == Resolved(input, layers, path);
    assert SettingOf(input, path) == AskedSetting(input);
    hide ComposeAll, InitialEntries, SelectedProfiles, NormalizePath, Applies, ProfileConflicts, Ordered, Resolve;
  }

  /** An override that is alone of its layer on its rule, which no later layer names, is among the conflicts of the
      resolution with its reason, or its rule is out of force if it disables it, and else, where in force, has all
      that the override asks for. */
  lemma OverrideReachesResolution(input: ResolveInput, upper: seq<RuleLayer>, layer: RuleLayer,
                                  lower: seq<RuleLayer>, i: nat)
    requires IsStack(input, upper, layer, lower) && i < |layer.overrides| && OverridesAlone(layer.overrides, i)
    requires forall l :: l in lower ==> !Names(l, layer.overrides[i].ruleId)
    ensures Resolve(input).Ok? ==>
        && StateUnder(input, upper).Ok?
        && AddAll(AskedSetting(input), StateUnder(input, upper).value, layer.level, layer.add).Ok?
    ensures Resolve(input).Ok? ==>
        var s, o, res := AskedSetting(input), layer.overrides[i], Resolve(input).value;
        var added := AddAll(s, StateUnder(input, upper).value, layer.level, layer.add).value;
        if OverrideRefused(s, added, o) then
          Reported(res.conflicts, o.ruleId, layer.level, OverrideReason(s, added, o))
        else if o.disabled == Some(true) then o.ruleId !in res.rules
        else o.ruleId in res.rules ==> RuleGranted(res.rules[o.ruleId], o)
  {
    hide Resolve, Ordered, InitialEntries, ComposeAll, AddAll, Names, Build, ProfileConflicts, AskedSetting;
    if Resolve(input).Ok? {
      var s, start := AskedSetting(input), Work(InitialEntries(input.catalog, input.catalog.rules), []);
      var layers := upper + [layer] + lower;
      ResolutionParts(input, layers);
      OverrideInStack(s, start, upper, layer, lower, i);
      var end, res := StateUnder(input, layers).value, Resolve(input).value;
      BuildAt(input.role, end, res.profiles, s.path, layer.overrides[i].ruleId);
      FromEnd(s, AddAll(s, StateUnder(input, upper).value, layer.level, layer.add).value, end, res, layer.level,
              layer.overrides[i]);
    }
  }

  /** The resolution holds all conflicts met so far, and shows this rule as it is here, but for its lock, exactly
      where it is meant, unless it is disabled or waived. */
  ghost predicate IsShown(w: Work, res: Resolution, role: Role, path: string, id: string) {
    && (forall c :: c in w.conflicts ==> c in res.conflicts)
    && (id in res.rules <==>
          && id in w.entries && IsMeantFor(w.entries[id].rule, res.profiles, role, path)
          && w.entries[id].disabled.None? && w.entries[id].waivers == [])
    && (id in res.rules ==> res.rules[id].(locked := w.entries[id].rule.locked) == w.entries[id].rule)
  }

  lemma SameScope(a: EffectiveRule, b: EffectiveRule, profiles: set<string>, role: Role, path: string)
    requires b.(locked := a.locked) == a
    ensures IsMeantFor(a, profiles, role, path) <==> IsMeantFor(b, profiles, role, path)
  {
    hide Covers;
  }

  lemma ShownFromEnd(mid: Work, end: Work, more: seq<Conflict>, res: Resolution, role: Role, path: string, id: string)
    requires mid.conflicts <= end.conflicts && StaysButLock(mid, end, id)
    requires res.rules == Build(role, end, res.profiles, path).rules && res.conflicts == more + end.conflicts
    ensures IsShown(mid, res, role, path, id)
  {
    ResolutionReads(role, end, res.profiles, path, id);
    hide Build;
    assert end.conflicts == mid.conflicts + end.conflicts[|mid.conflicts|..];
    if id in mid.entries {
      SameScope(mid.entries[id].rule, end.entries[id].rule, res.profiles, role, path);
    }
  }

  /** What a layer leaves of a rule that no later layer names is what the resolution shows of it. */
  lemma LastWordIsShown(input: ResolveInput, upper: seq<RuleLayer>, layer: RuleLayer, lower: seq<RuleLayer>, id: string)
    requires IsStack(input, upper, layer, lower) && forall l :: l in lower ==> !Names(l, id)
    ensures Resolve(input).Ok? ==>
        && StateUnder(input, upper).Ok?
        && ComposeLayer(AskedSetting(input), StateUnder(input, upper).value, layer).Ok?
    ensures Resolve(input).Ok? ==>
        IsShown(ComposeLayer(AskedSetting(input), StateUnder(input, upper).value, layer).value, Resolve(input).value,
                input.role, AskedSetting(input).path, id)
  {
    hide Resolve, Ordered, Build, InitialEntries, Names, IsShown, ProfileConflicts, ComposeLayer, AskedSetting;
    if Resolve(input).Ok? {
      var layers := upper + [layer] + lower;
      ResolutionParts(input, layers);
      var s, start := AskedSetting(input), Work(InitialEntries(input.catalog, input.catalog.rules), []);
      ComposeInTwoParts(s, start, upper + [layer], lower);
      ComposeInTwoParts(s, start, upper, [layer]);
      var before := ComposeAll(s, start, upper).value;
      assert ComposeAll(s, before, [layer]) == ComposeLayer(s, before, layer);
      var mid := ComposeLayer(s, before, layer).value;
      UnnamedStaysInStack(s, mid, lower, id);
      ShownFromEnd(mid, ComposeAll(s, start, layers).value, ProfileConflicts(input.catalog, layers),
                   Resolve(input).value, input.role, s.path, id);
    }
  }

  lemma AddedAtEndOfLayer(s: Setting, w: Work, layer: RuleLayer, i: nat)
    requires ComposeLayer(s, w, layer).Ok? && i < |layer.add| && AddsAlone(layer.add, i)
    requires forall o :: o in layer.overrides ==> o.ruleId != layer.add[i].base.id
    requires forall v :: v in layer.waivers ==> v.ruleId != layer.add[i].base.id
    ensures var mid, r := ComposeLayer(s, w, layer).value, layer.add[i];
            if MayBeAdded(s, w, r) then
              && r.base.id in mid.entries
              && mid.entries[r.base.id].rule.(locked := false)
                 == EffectiveRule(r.base, layer.level, false, r.paths, r.excludePaths)
              && mid.entries[r.base.id].disabled.None? && mid.entries[r.base.id].waivers == []
            else exists c :: c in mid.conflicts && IsAddConflict(s, w, layer.level, r, c)
  {
    var id := layer.add[i].base.id;
    LayerTold(s, w, layer);
    NoneInForce(s, layer.level, layer.waivers, id);
    var added, mid := AddAll(s, w, layer.level, layer.add).value, ComposeLayer(s, w, layer).value;
    hide ComposeLayer, AddAll, InForce, OverrideInLayer, Reported, AddedProtected, WaiverRefused, MayBeAdded;
    hide IsAddConflict, AddsAlone;
    assert AdditionTold(s, w, added, layer.level, layer.add[i]);
    if MayBeAdded(s, w, layer.add[i]) {
      assert EntryInLayer(s, added, mid, layer, id);
    } else {
      assert mid.conflicts == added.conflicts + mid.conflicts[|added.conflicts|..];
    }
  }

  /** A rule added alone by a layer, that its own overrides and waivers and the later layers leave alone, is in force
      exactly where it is meant, as the layer wrote it, unless a conflict tells what stood against it. */
  lemma AdditionReachesResolution(input: ResolveInput, upper: seq<RuleLayer>, layer: RuleLayer,
                                  lower: seq<RuleLayer>, i: nat)
    requires IsStack(input, upper, layer, lower) && i < |layer.add| && AddsAlone(layer.add, i)
    requires forall o :: o in layer.overrides ==> o.ruleId != layer.add[i].base.id
    requires forall v :: v in layer.waivers ==> v.ruleId != layer.add[i].base.id
    requires forall l :: l in lower ==> !Names(l, layer.add[i].base.id)
    ensures Resolve(input).Ok? ==>
        && StateUnder(input, upper).Ok?
        && var s, before, res := AskedSetting(input), StateUnder(input, upper).value, Resolve(input).value;
           var r := layer.add[i];
           if MayBeAdded(s, before, r) then
             && (r.base.id in res.rules <==>
                   IsMeantFor(EffectiveRule(r.base, layer.level, false, r.paths, r.excludePaths), res.profiles,
                              input.role, s.path))
             && (r.base.id in res.rules ==> res.rules[r.base.id].base == r.base)
           else exists c :: c in res.conflicts && IsAddConflict(s, before, layer.level, r, c)
  {
    hide Resolve, IsStack, Names, StateUnder, ComposeLayer, AddsAlone, IsMeantFor, MayBeAdded, IsAddConflict;
    if Resolve(input).Ok? {
      var r, s := layer.add[i], AskedSetting(input);
      LastWordIsShown(input, upper, layer, lower, r.base.id);
      var before := StateUnder(input, upper).value;
      AddedAtEndOfLayer(s, before, layer, i);
      var mid := ComposeLayer(s, before, layer).value;
      if MayBeAdded(s, before, r) {
        SameScope(EffectiveRule(r.base, layer.level, false, r.paths, r.excludePaths), mid.entries[r.base.id].rule,
                  Resolve(input).value.profiles, input.role, s.path);
      }
    }
  }

  lemma {:induction false} SomeInForce(s: Setting, level: Level, vs: seq<Waiver>, v: Waiver)
    requires v in vs && s.today <= v.expires && Covers(v.file, s.path)
    ensures InForce(s, level, vs, v.ruleId) != []
    decreases |vs|
  {
    if vs[0] != v {
      SomeInForce(s, level, vs[1..], v);
    }
  }

  lemma WaivedAtEndOfLayer(s: Setting, w: Work, layer: RuleLayer, v: Waiver)
    requires ComposeLayer(s, w, layer).Ok? && v in layer.waivers
    ensures AddAll(s, w, layer.level, layer.add).Ok?
    ensures var added, mid := AddAll(s, w, layer.level, layer.add).value, ComposeLayer(s, w, layer).value;
            if WaiverRefused(s, added, v) then
              Reported(mid.conflicts, v.ruleId, layer.level, WaiverReason(s, added, v))
            else
              Covers(v.file, s.path) ==> v.ruleId in mid.entries && mid.entries[v.ruleId].waivers != []
  {
    LayerTold(s, w, layer);
    var added, mid := AddAll(s, w, layer.level, layer.add).value, ComposeLayer(s, w, layer).value;
    if !WaiverRefused(s, added, v) && Covers(v.file, s.path) {
      SomeInForce(s, layer.level, layer.waivers, v);
      assert EntryInLayer(s, added, mid, layer, v.ruleId);
    }
    hide ComposeLayer, AddAll, InForce, OverrideInLayer, Reported, AddedProtected, AdditionTold, Covers;
  }

  /** A waiver in force that covers the path, on a rule that is not locked by then and that no later layer names,
      takes the rule out of force. */
  lemma WaiverReachesResolution(input: ResolveInput, upper: seq<RuleLayer>, layer: RuleLayer,
                                lower: seq<RuleLayer>, v: Waiver)
    requires IsStack(input, upper, layer, lower)
    requires v in layer.waivers && forall l :: l in lower ==> !Names(l, v.ruleId)
    ensures Resolve(input).Ok? ==>
        && StateUnder(input, upper).Ok?
        && AddAll(AskedSetting(input), StateUnder(input, upper).value, layer.level, layer.add).Ok?
        && var s, res := AskedSetting(input), Resolve(input).value;
           var added := AddAll(s, StateUnder(input, upper).value, layer.level, layer.add).value;
           if WaiverRefused(s, added, v) then
             Reported(res.conflicts, v.ruleId, layer.level, WaiverReason(s, added, v))
           else
             Covers(v.file, s.path) ==> v.ruleId !in res.rules
  {
    hide Resolve, IsStack, Names, StateUnder, ComposeLayer, IsMeantFor, AddAll, Covers, WaiverRefused;
    if Resolve(input).Ok? {
      LastWordIsShown(input, upper, layer, lower, v.ruleId);
      WaivedAtEndOfLayer(AskedSetting(input), StateUnder(input, upper).value, layer, v);
    }
  }
}
