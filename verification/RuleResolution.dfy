/** Resolution of the rules in force for a role and a path
    (packages/rules/src/resolve.ts, packages/rules/src/profiles.ts, packages/rules/src/resolution.ts). */
module RuleResolution {
  import opened Common
  import opened Sorting
  import opened ScopeMatch
  import opened RuleStrength
  import opened RuleLayers
  import opened RuleContext
  import opened RuleLocking

  datatype RuleCatalog = RuleCatalog(protectedRuleIds: seq<string>, profiles: set<string>, rules: seq<Rule>)

  datatype PackageProfiles = PackageProfiles(path: string, profiles: seq<string>)

  datatype ResolveInput = ResolveInput(catalog: RuleCatalog, layers: seq<RuleLayer>, role: Role, path: string,
                                       today: int, profiles: seq<string>, packages: seq<PackageProfiles>)

  const CORE_PROFILE := "core"

  /** What the parser of catalogues guarantees about the fields used here. */
  ghost predicate ValidCatalog(c: RuleCatalog) {
    && (forall i, j :: 0 <= i < j < |c.rules| ==> c.rules[i].id != c.rules[j].id)
    && (forall r :: r in c.rules && r.isProtected ==> r.severity == Blocking)
  }

  /** Guarded from the start: by its own flag, or by the list of the catalogue. */
  ghost predicate IsGuarded(c: RuleCatalog, r: Rule) {
    r.isProtected || exists i :: 0 <= i < |c.protectedRuleIds| && c.protectedRuleIds[i] == r.id
  }

  function CatalogEntry(r: Rule, c: RuleCatalog): Entry {
    Entry(EffectiveRule(r, Catalog, r.isProtected || r.id in c.protectedRuleIds, [], []), None, [])
  }

  function InitialEntries(c: RuleCatalog, rules: seq<Rule>): map<string, Entry> {
    if rules == [] then map[]
    else
      var last := rules[|rules| - 1];
      InitialEntries(c, rules[..|rules| - 1])[last.id := CatalogEntry(last, c)]
  }

  // ---------- selected profiles ----------

  predicate IsUnder(packagePath: string, path: string) {
    packagePath == DOT || path == packagePath || packagePath + "/" <= path
  }

  /** Selection of the package whose path is the longest above `path`, else the root selection. */
  function SelectionFor(input: ResolveInput, path: string): seq<string> {
    var above := Filter((p: PackageProfiles) => IsUnder(p.path, path), input.packages);
    var ranked := SortBy((a: PackageProfiles, b: PackageProfiles) => |b.path| < |a.path|, above);
    if ranked == [] then input.profiles else ranked[0].profiles
  }

  function SelectedProfiles(input: ResolveInput, layers: seq<RuleLayer>, path: string): set<string> {
    {CORE_PROFILE}
    + (set p | p in SelectionFor(input, path))
    + (set l, p | l in layers && p in l.profiles && p in input.catalog.profiles :: p)
  }

  function UnknownIn(c: RuleCatalog, profiles: seq<string>): Option<RulesError> {
    if profiles == [] then None
    else if profiles[0] !in c.profiles then Some(UnknownSelection(profiles[0]))
    else UnknownIn(c, profiles[1..])
  }

  function UnknownInPackages(c: RuleCatalog, packages: seq<PackageProfiles>): Option<RulesError> {
    if packages == [] then None
    else if UnknownIn(c, packages[0].profiles).Some? then UnknownIn(c, packages[0].profiles)
    else UnknownInPackages(c, packages[1..])
  }

  // ---------- layers ----------

  predicate DistinctLevels(layers: seq<RuleLayer>) {
    forall i, j :: 0 <= i < j < |layers| ==> layers[i].level != layers[j].level
  }

  function ByLevel(): (RuleLayer, RuleLayer) -> bool {
    (a: RuleLayer, b: RuleLayer) => LevelRank(a.level) < LevelRank(b.level)
  }

  /** Level of the first layer that repeats an earlier one. */
  function FirstRepeated(layers: seq<RuleLayer>): Level
    requires !DistinctLevels(layers)
  {
    var front := layers[..|layers| - 1];
    if !DistinctLevels(front) then FirstRepeated(front) else layers[|layers| - 1].level
  }

  lemma {:induction false} FirstRepeatedAt(layers: seq<RuleLayer>, i: nat)
    requires i < |layers| && DistinctLevels(layers[..i]) && !DistinctLevels(layers[..i + 1])
    ensures !DistinctLevels(layers) && FirstRepeated(layers) == layers[i].level
  {
    var front := layers[..|layers| - 1];
    if i < |layers| - 1 {
      assert front[..i] == layers[..i] && front[..i + 1] == layers[..i + 1];
      FirstRepeatedAt(front, i);
    } else {
      assert layers[..i + 1] == layers && front == layers[..i];
    }
  }

  function Ordered(layers: seq<RuleLayer>): Result<seq<RuleLayer>, RulesError> {
    if DistinctLevels(layers) then Ok(SortBy(ByLevel(), layers)) else Err(DuplicateLevel(FirstRepeated(layers)))
  }

  /** Layers in rising precedence; two layers of one level are refused. */
  method OrderLayers(layers: seq<RuleLayer>) returns (r: Result<seq<RuleLayer>, RulesError>)
    ensures r == Ordered(layers)
    ensures r.Ok? <==> DistinctLevels(layers)
  {
    var parsed: seq<RuleLayer> := [];
    for i := 0 to |layers|
      invariant parsed == layers[..i] && DistinctLevels(parsed)
    {
      if exists l :: l in parsed && l.level == layers[i].level {
        assert !DistinctLevels(layers[..i + 1]);
        FirstRepeatedAt(layers, i);
        return Err(DuplicateLevel(layers[i].level));
      }
      parsed := parsed + [layers[i]];
    }
    assert layers[..|layers|] == layers;
    r := Ok(SortBy(ByLevel(), parsed));
  }

  // ---------- the resolution ----------

  /** `rules`, `disabled` and `waivers` by rule id; the program lists them in id order. */
  datatype Resolution = Resolution(path: string, profiles: set<string>, rules: map<string, EffectiveRule>,
                                   disabled: map<string, DisabledRule>, waivers: map<string, seq<AppliedWaiver>>,
                                   conflicts: seq<Conflict>)

  predicate Applies(r: EffectiveRule, profiles: set<string>, role: Role, path: string) {
    && (exists p :: p in r.base.profiles && p in profiles)
    && role in r.base.agents
    && (r.paths == [] || CoversAny(r.paths, path))
    && !CoversAny(r.excludePaths, path)
  }

  function Build(role: Role, w: Work, profiles: set<string>, path: string): Resolution {
    var relevant := map id | id in w.entries && Applies(w.entries[id].rule, profiles, role, path) :: w.entries[id];
    Resolution(
      path, profiles,
      map id | id in relevant && relevant[id].disabled.None? && relevant[id].waivers == [] :: relevant[id].rule,
      map id | id in relevant && relevant[id].disabled.Some? :: relevant[id].disabled.value,
      map id | id in relevant && relevant[id].waivers != [] :: relevant[id].waivers,
      w.conflicts)
  }

  /** Every entry in scope is accounted for: in force, or listed as disabled or waived, and nothing in
      force is listed as either. */
  lemma RelevantIsAccountedFor(role: Role, w: Work, profiles: set<string>, path: string, id: string)
    ensures var res := Build(role, w, profiles, path);
            && (id in res.rules || id in res.disabled || id in res.waivers
                <==> id in w.entries && Applies(w.entries[id].rule, profiles, role, path))
            && (id in res.rules ==> id !in res.disabled && id !in res.waivers && res.rules[id] == w.entries[id].rule)
            && (id in res.disabled <==>
                  && id in w.entries && Applies(w.entries[id].rule, profiles, role, path)
                  && w.entries[id].disabled.Some?)
  {
    hide Applies;
  }

  /** What a resolution shows of one id. */
  lemma BuildAt(role: Role, w: Work, profiles: set<string>, path: string, id: string)
    ensures var res := Build(role, w, profiles, path);
            var relevant := id in w.entries && Applies(w.entries[id].rule, profiles, role, path);
            && (id in res.rules <==> relevant && w.entries[id].disabled.None? && w.entries[id].waivers == [])
            && (id in res.disabled <==> relevant && w.entries[id].disabled.Some?)
            && (id in res.waivers <==> relevant && w.entries[id].waivers != [])
            && (id in res.rules ==> res.rules[id] == w.entries[id].rule)
            && (id in res.disabled ==> res.disabled[id] == w.entries[id].disabled.value)
            && (id in res.waivers ==> res.waivers[id] == w.entries[id].waivers)
  {
    hide Applies;
  }

  /** The rule is meant for this place: one of its profiles is selected, the role is among its agents, the path is
      under one of its patterns, if it has any, and under none that it excludes. */
  ghost predicate IsMeantFor(r: EffectiveRule, profiles: set<string>, role: Role, path: string) {
    && (exists i :: 0 <= i < |r.base.profiles| && r.base.profiles[i] in profiles)
    && (exists i :: 0 <= i < |r.base.agents| && r.base.agents[i] == role)
    && (|r.paths| > 0 ==> exists i :: 0 <= i < |r.paths| && Covers(r.paths[i], path))
    && (forall i :: 0 <= i < |r.excludePaths| ==> !Covers(r.excludePaths[i], path))
  }

  /** A rule is in force exactly if it is meant for this place and neither disabled nor waived. */
  lemma ResolutionReads(role: Role, w: Work, profiles: set<string>, path: string, id: string)
    ensures var res := Build(role, w, profiles, path);
            && (id in res.rules <==>
                  && id in w.entries && IsMeantFor(w.entries[id].rule, profiles, role, path)
                  && w.entries[id].disabled.None? && w.entries[id].waivers == [])
            && (id in res.rules ==> res.rules[id] == w.entries[id].rule)
  {
    BuildAt(role, w, profiles, path, id);
    hide Build, Covers;
    if id in w.entries {
      var r := w.entries[id].rule;
      assert CoversAny(r.paths, path) <==> exists i :: 0 <= i < |r.paths| && Covers(r.paths[i], path);
      assert CoversAny(r.excludePaths, path)
          <==> exists i :: 0 <= i < |r.excludePaths| && Covers(r.excludePaths[i], path);
      assert Applies(r, profiles, role, path) <==> IsMeantFor(r, profiles, role, path);
    }
  }

  /** Both show the same of this id. */
  ghost predicate ShownAlike(a: Resolution, b: Resolution, id: string) {
    && (id in a.rules <==> id in b.rules) && (id in a.rules ==> a.rules[id] == b.rules[id])
    && (id in a.disabled <==> id in b.disabled) && (id in a.disabled ==> a.disabled[id] == b.disabled[id])
    && (id in a.waivers <==> id in b.waivers) && (id in a.waivers ==> a.waivers[id] == b.waivers[id])
  }

  lemma SameEntryShownAlike(a: Work, b: Work, role: Role, profiles: set<string>, path: string, id: string)
    requires (id in a.entries <==> id in b.entries) && (id in a.entries ==> a.entries[id] == b.entries[id])
    ensures ShownAlike(Build(role, a, profiles, path), Build(role, b, profiles, path), id)
  {
    hide Applies, Build;
    BuildAt(role, a, profiles, path, id);
    BuildAt(role, b, profiles, path, id);
  }

  /** A rule added without hindrance is in force exactly where its own scope applies, what it replaced is
      gone, and every other rule is shown as before. */
  lemma AddedRuleIsInForce(s: Setting, w: Work, level: Level, r: LayerRule, profiles: set<string>, role: Role,
                           id: string)
    requires MayBeAdded(s, w, r)
    ensures AddOne(s, w, level, r).Ok?
    ensures var before := Build(role, w, profiles, s.path);
            var after := Build(role, AddOne(s, w, level, r).value, profiles, s.path);
            if id == r.base.id then
              && (id in after.rules <==> Applies(AddedEntry(r, level).rule, profiles, role, s.path))
              && (id in after.rules ==> after.rules[id].base == r.base)
              && id !in after.disabled && id !in after.waivers
            else if r.supplants == Some(id) then
              id !in after.rules && id !in after.disabled && id !in after.waivers
            else
              ShownAlike(before, after, id)
  {
    hide Applies, AddOne, MayBeAdded, Build, ShownAlike;
    AddAppliesOrReports(s, w, level, r);
    BuildAt(role, AddOne(s, w, level, r).value, profiles, s.path, id);
    if id != r.base.id && r.supplants != Some(id) {
      SameEntryShownAlike(w, AddOne(s, w, level, r).value, role, profiles, s.path, id);
    }
  }

  /** A waiver that is not reported and covers the path takes its rule out of force there and lists it, last
      among its waivers; in every other case the waiver shows nowhere. */
  lemma WaivedRuleIsListed(s: Setting, w: Work, level: Level, v: Waiver, profiles: set<string>, role: Role, id: string)
    ensures var w' := WaiveOne(s, w, level, v);
            var before, after := Build(role, w, profiles, s.path), Build(role, w', profiles, s.path);
            if id == v.ruleId && w'.conflicts == w.conflicts && Covers(v.file, s.path) then
              && id !in after.rules
              && (id in after.waivers <==> id in w.entries && Applies(w.entries[id].rule, profiles, role, s.path))
              && (id in after.waivers ==> after.waivers[id] == w.entries[id].waivers + [AppliedWaiver(v, level)])
            else
              ShownAlike(before, after, id)
  {
    hide Applies, WaiveOne, Covers, Build, ShownAlike;
    var w' := WaiveOne(s, w, level, v);
    WaiverAppliesOrReports(s, w, level, v);
    BuildAt(role, w', profiles, s.path, id);
    if !(id == v.ruleId && w'.conflicts == w.conflicts && Covers(v.file, s.path)) {
      SameEntryShownAlike(w, w', role, profiles, s.path, id);
    }
  }

  function UnknownDeclared(c: RuleCatalog, level: Level, profiles: seq<string>): seq<Conflict> {
    if profiles == [] then []
    else (if profiles[0] in c.profiles then [] else [Conflict(profiles[0], level, Profile, UnknownProfile)])
         + UnknownDeclared(c, level, profiles[1..])
  }

  function ProfileConflicts(c: RuleCatalog, layers: seq<RuleLayer>): seq<Conflict> {
    if layers == [] then []
    else UnknownDeclared(c, layers[0].level, layers[0].profiles) + ProfileConflicts(c, layers[1..])
  }

  function CheckInput(input: ResolveInput): Option<RulesError> {
    if NormalizePath(input.path).None? then Some(InvalidPath(input.path))
    else if UnknownIn(input.catalog, input.profiles).Some? then UnknownIn(input.catalog, input.profiles)
    else UnknownInPackages(input.catalog, input.packages)
  }

  function SettingOf(input: ResolveInput, path: string): Setting {
    Setting(input.catalog.profiles, path, input.today)
  }

  /** Outcome of a resolution whose input is accepted and whose layers are already in order. */
  function Resolved(input: ResolveInput, layers: seq<RuleLayer>, path: string): Result<Resolution, RulesError> {
    var start := Work(InitialEntries(input.catalog, input.catalog.rules), []);
    var composed := ComposeAll(SettingOf(input, path), start, layers);
    if composed.Err? then Err(composed.error)
    else
      var r := Build(input.role, composed.value, SelectedProfiles(input, layers, path), path);
      Ok(r.(conflicts := ProfileConflicts(input.catalog, layers) + r.conflicts))
  }

  /** The whole resolution as a value. */
  function Resolve(input: ResolveInput): Result<Resolution, RulesError> {
    if CheckInput(input).Some? then Err(CheckInput(input).value)
    else if Ordered(input.layers).Err? then Err(Ordered(input.layers).error)
    else Resolved(input, Ordered(input.layers).value, NormalizePath(input.path).value)
  }

  method ResolveEffectiveRules(input: ResolveInput) returns (r: Result<Resolution, RulesError>)
    ensures r == Resolve(input)
  {
    if CheckInput(input).Some? {
      return Err(CheckInput(input).value);
    }
    var layers := OrderLayers(input.layers);
    if layers.Err? {
      return Err(layers.error);
    }
    var path := NormalizePath(input.path).value;
    var entries := InitialEntries(input.catalog, input.catalog.rules);
    var ctx := new Context(SettingOf(input, path), entries);
    var failed := ctx.ComposeLayers(layers.value);
    if failed.Some? {
      return Err(failed.value);
    }
    var built := Build(input.role, ctx.State(), SelectedProfiles(input, layers.value, path), path);
    r := Ok(built.(conflicts := ProfileConflicts(input.catalog, layers.value) + built.conflicts));
  }

  lemma {:induction false} InitialHas(c: RuleCatalog, rules: seq<Rule>, r: Rule)
    requires (forall i, j :: 0 <= i < j < |rules| ==> rules[i].id != rules[j].id) && r in rules
    ensures r.id in InitialEntries(c, rules) && InitialEntries(c, rules)[r.id] == CatalogEntry(r, c)
    ensures var e := CatalogEntry(r, c);
            && e.rule.base == r && e.rule.origin == Catalog && (e.rule.locked <==> IsGuarded(c, r))
            && e.rule.paths == [] && e.rule.excludePaths == [] && e.disabled.None? && e.waivers == []
  {
    var front, last := rules[..|rules| - 1], rules[|rules| - 1];
    assert rules == front + [last];
    if r != last {
      InitialHas(c, front, r);
    }
  }

  lemma NoMembers(s: seq<string>)
    ensures (forall x :: x !in s) ==> s == []
  {
    if s != [] {
      assert s[0] in s;
    }
  }

  /** A locked catalogue entry that still binds is in the resolution if it was in scope. */
  lemma BindingRuleIsBuilt(c: RuleCatalog, r: Rule, w: Work, profiles: set<string>, role: Role, path: string)
    requires r.id in w.entries && StillBinds(CatalogEntry(r, c), w.entries[r.id])
    requires role in r.agents && exists p :: p in r.profiles && p in profiles
    ensures var res := Build(role, w, profiles, path);
            && r.id in res.rules && r.id !in res.disabled && r.id !in res.waivers
            && res.rules[r.id] == w.entries[r.id].rule
  {
    hide Covers, Kept;
    var rule := w.entries[r.id].rule;
    NoMembers(rule.excludePaths);
    assert Applies(rule, profiles, role, path);
  }

  lemma BuildKeepsProfiles(role: Role, w: Work, profiles: set<string>, path: string)
    ensures Build(role, w, profiles, path).profiles == profiles
  {
  }

  /** The profile is selected by the input: it is the core one, or the selection of the package or the root has
      it, or some layer declares it and the catalogue knows it. */
  predicate IsSelected(input: ResolveInput, p: string) {
    || p == CORE_PROFILE
    || (NormalizePath(input.path).Some? && p in SelectionFor(input, NormalizePath(input.path).value))
    || (p in input.catalog.profiles && exists l :: l in input.layers && p in l.profiles)
  }

  /** The profiles of a resolution are exactly those that its input selects. */
  lemma ProfilesAreSelected(input: ResolveInput, p: string)
    requires Resolve(input).Ok?
    ensures p in Resolve(input).value.profiles <==> IsSelected(input, p)
  {
    var path, layers := NormalizePath(input.path).value, Ordered(input.layers).value;
    var start := Work(InitialEntries(input.catalog, input.catalog.rules), []);
    SortIsPermutation(ByLevel(), input.layers);
    SameMembers(layers, input.layers);
    hide NormalizePath, Build, ComposeAll, Ordered, SelectionFor, UnknownIn, UnknownInPackages;
    var composed := ComposeAll(SettingOf(input, path), start, layers).value;
    BuildKeepsProfiles(input.role, composed, SelectedProfiles(input, layers, path), path);
  }

  /** A guarded catalogue rule whose profile is selected and whose agents include the role is in the
      resolution, at no lower severity and with its target, whatever the layers say. */
  lemma ProtectedRuleSurvives(input: ResolveInput, r: Rule)
    requires ValidCatalog(input.catalog) && Resolve(input).Ok?
    requires r in input.catalog.rules && IsGuarded(input.catalog, r) && input.role in r.agents
    requires exists p :: p in r.profiles && p in Resolve(input).value.profiles
    ensures var res := Resolve(input).value;
            && r.id in res.rules && r.id !in res.disabled && r.id !in res.waivers
            && res.rules[r.id].base.id == r.id
            && (r.isProtected || r.severity == Blocking ==> res.rules[r.id].base.severity == Blocking)
            && Kept(r.enforcement, res.rules[r.id].base.enforcement)
  {
    var path, layers := NormalizePath(input.path).value, Ordered(input.layers).value;
    hide Covers, Kept, NormalizePath, Build, ComposeAll, SelectedProfiles, InitialEntries, Ordered, CheckInput;
    var s := SettingOf(input, path);
    var start := Work(InitialEntries(input.catalog, input.catalog.rules), []);
    InitialHas(input.catalog, input.catalog.rules, r);
    LaterLayersCannotWeaken(s, start, layers);
    var end := ComposeAll(s, start, layers).value;
    assert StillBinds(CatalogEntry(r, input.catalog), end.entries[r.id]);
    var profiles := SelectedProfiles(input, layers, path);
    BuildKeepsProfiles(input.role, end, profiles, path);
    BindingRuleIsBuilt(input.catalog, r, end, profiles, input.role, path);
  }

  predicate ComesBefore(a: Level, b: Level) {
    match a
    case Catalog => b != Catalog
    case Organization => b == Group || b == Project
    case Group => b == Project
    case Project => false
  }

  /** Ordered layers are the given ones, in strictly rising precedence: organization, group, project. */
  lemma LayersRise(layers: seq<RuleLayer>)
    requires Ordered(layers).Ok?
    ensures var r := Ordered(layers).value;
            && multiset(r) == multiset(layers)
            && forall i, j :: 0 <= i < j < |r| ==> ComesBefore(r[i].level, r[j].level)
  {
    var r, lt := Ordered(layers).value, ByLevel();
    SortIsPermutation(lt, layers);
    assert StrictOrder(lt);
    SortIsSorted(lt, layers);
    PermutationKeepsDistinct((l: RuleLayer) => l.level, layers, r);
    forall i, j | 0 <= i < j < |r| ensures ComesBefore(r[i].level, r[j].level) {
      assert !lt(r[j], r[i]);
    }
  }

  /** `best` is a package above the path than which no other above it is longer. */
  ghost predicate IsLongestAbove(input: ResolveInput, path: string, best: PackageProfiles) {
    && best in input.packages && IsUnder(best.path, path)
    && forall p :: p in input.packages && IsUnder(p.path, path) ==> |p.path| <= |best.path|
  }

  /** The selection used is that of the longest package above the path, and the root selection
      when no package is above it. */
  lemma LongestPackageWins(input: ResolveInput, path: string)
    ensures if forall p :: p in input.packages ==> !IsUnder(p.path, path)
            then SelectionFor(input, path) == input.profiles
            else exists best :: IsLongestAbove(input, path, best) && SelectionFor(input, path) == best.profiles
  {
    var under := (q: PackageProfiles) => IsUnder(q.path, path);
    var longer := (a: PackageProfiles, b: PackageProfiles) => |b.path| < |a.path|;
    var above := Filter(under, input.packages);
    var ranked := SortBy(longer, above);
    forall p ensures p in above <==> p in input.packages && IsUnder(p.path, path) {
      FilterMember(under, input.packages, p);
    }
    SortIsPermutation(longer, above);
    SameMembers(ranked, above);
    if ranked == [] {
      assert above == [];
    } else {
      assert ranked[0] in above;
      assert StrictOrder(longer);
      SortIsSorted(longer, above);
      forall p | p in ranked ensures |p.path| <= |ranked[0].path| {
        var i :| 0 <= i < |ranked| && ranked[i] == p;
        assert i > 0 ==> !longer(ranked[i], ranked[0]);
      }
      assert IsLongestAbove(input, path, ranked[0]);
    }
  }

  /** Of packages and paths in normal form: a package is above a path exactly if its segments are the first of
      the path's, as for a pattern without wildcard. */
  lemma UnderMeansSegments(package: string, path: string)
    ensures NormalizePath(package) == Some(package) && NormalizePath(path) == Some(path) ==>
        (IsUnder(package, path) <==> SegmentsOf(package) <= SegmentsOf(path))
  {
    hide NormalizePath, SegmentsOf;
    if NormalizePath(package) == Some(package) && NormalizePath(path) == Some(path) {
      PrefixMeansSegments(package, path);
    }
  }

  // ---------- refusals and reports of a resolution ----------

  /** The input selects a profile, for the root or for a package, that the catalogue does not know. */
  ghost predicate SelectsUnknown(input: ResolveInput, p: string) {
    && p !in input.catalog.profiles
    && (p in input.profiles || exists k :: k in input.packages && p in k.profiles)
  }

  lemma {:induction false} UnknownInFinds(c: RuleCatalog, profiles: seq<string>)
    ensures UnknownIn(c, profiles).None? <==> forall p :: p in profiles ==> p in c.profiles
    ensures var u := UnknownIn(c, profiles);
            u.Some? ==> u.value.UnknownSelection? && u.value.profile in profiles && u.value.profile !in c.profiles
  {
    if profiles != [] {
      assert profiles == [profiles[0]] + profiles[1..];
      UnknownInFinds(c, profiles[1..]);
    }
  }

  lemma {:induction false} UnknownInPackagesFinds(c: RuleCatalog, packages: seq<PackageProfiles>)
    ensures UnknownInPackages(c, packages).None?
       <==> forall k, p :: k in packages && p in k.profiles ==> p in c.profiles
    ensures var u := UnknownInPackages(c, packages);
            u.Some? ==>
              && u.value.UnknownSelection? && u.value.profile !in c.profiles
              && exists k :: k in packages && u.value.profile in k.profiles
  {
    if packages != [] {
      assert packages == [packages[0]] + packages[1..];
      UnknownInFinds(c, packages[0].profiles);
      UnknownInPackagesFinds(c, packages[1..]);
    }
  }

  lemma {:induction false} AddsOnlyCollide(s: Setting, w: Work, level: Level, rules: seq<LayerRule>)
    ensures AddAll(s, w, level, rules).Err? ==> AddAll(s, w, level, rules).error.Collision?
    decreases |rules|
  {
    if rules != [] && AddOne(s, w, level, rules[0]).Ok? {
      AddsOnlyCollide(s, AddOne(s, w, level, rules[0]).value, level, rules[1..]);
    }
  }

  lemma {:induction false} LayersOnlyCollide(s: Setting, w: Work, layers: seq<RuleLayer>)
    ensures ComposeAll(s, w, layers).Err? ==> ComposeAll(s, w, layers).error.Collision?
    decreases |layers|
  {
    if layers != [] {
      AddsOnlyCollide(s, w, layers[0].level, layers[0].add);
      if ComposeLayer(s, w, layers[0]).Ok? {
        LayersOnlyCollide(s, ComposeLayer(s, w, layers[0]).value, layers[1..]);
      }
    }
  }

  lemma {:induction false} RepeatedLevel(layers: seq<RuleLayer>)
    requires !DistinctLevels(layers)
    ensures exists i, j :: 0 <= i < j < |layers| && layers[i].level == layers[j].level == FirstRepeated(layers)
  {
    var front := layers[..|layers| - 1];
    if !DistinctLevels(front) {
      RepeatedLevel(front);
      var i, j :| 0 <= i < j < |front| && front[i].level == front[j].level == FirstRepeated(front);
      assert layers[i].level == layers[j].level;
    } else {
      assert forall i, j :: 0 <= i < j < |front| ==> layers[i].level != layers[j].level;
      var i, j :| 0 <= i < j < |layers| && layers[i].level == layers[j].level;
    }
  }

  /** The one thing that a resolution is refused for, in the order in which it is looked for. */
  ghost predicate IsRightRefusal(input: ResolveInput, error: RulesError) {
    if NormalizePath(input.path).None? then error == InvalidPath(input.path)
    else if exists p :: SelectsUnknown(input, p) then
      error.UnknownSelection? && SelectsUnknown(input, error.profile)
    else if exists i, j :: 0 <= i < j < |input.layers| && input.layers[i].level == input.layers[j].level then
      && error.DuplicateLevel?
      && exists i, j :: 0 <= i < j < |input.layers| && input.layers[i].level == input.layers[j].level == error.level
    else error.Collision?
  }

  lemma SelectionRefusal(input: ResolveInput)
    requires NormalizePath(input.path).Some?
    ensures CheckInput(input).Some? <==> exists p :: SelectsUnknown(input, p)
    ensures CheckInput(input).Some? ==>
        var e := CheckInput(input).value; e.UnknownSelection? && SelectsUnknown(input, e.profile)
  {
    UnknownInFinds(input.catalog, input.profiles);
    UnknownInPackagesFinds(input.catalog, input.packages);
    hide NormalizePath, UnknownIn, UnknownInPackages;
    if CheckInput(input).Some? {
      assert SelectsUnknown(input, CheckInput(input).value.profile);
    }
  }

  /** A resolution is refused for an invalid path, an unknown profile, a repeated level or a collision, in this
      order, and otherwise succeeds. */
  lemma RefusalIsRight(input: ResolveInput)
    ensures Resolve(input).Err? ==> IsRightRefusal(input, Resolve(input).error)
    ensures NormalizePath(input.path).None? || (exists p :: SelectsUnknown(input, p)) || !DistinctLevels(input.layers)
        ==> Resolve(input).Err?
  {
    if NormalizePath(input.path).Some? {
      SelectionRefusal(input);
      hide NormalizePath, CheckInput, SelectsUnknown, ComposeAll, Build, FirstRepeated, SelectedProfiles;
      hide InitialEntries;
      if !DistinctLevels(input.layers) {
        RepeatedLevel(input.layers);
      } else {
        var start := Work(InitialEntries(input.catalog, input.catalog.rules), []);
        LayersOnlyCollide(SettingOf(input, NormalizePath(input.path).value), start, Ordered(input.layers).value);
      }
    }
  }

  lemma {:induction false} UnknownDeclaredHas(c: RuleCatalog, level: Level, profiles: seq<string>, conflict: Conflict)
    ensures conflict in UnknownDeclared(c, level, profiles) <==>
        && conflict == Conflict(conflict.ruleId, level, Profile, UnknownProfile)
        && conflict.ruleId in profiles && conflict.ruleId !in c.profiles
  {
    if profiles != [] {
      assert profiles == [profiles[0]] + profiles[1..];
      UnknownDeclaredHas(c, level, profiles[1..], conflict);
    }
  }

  lemma {:induction false} ProfileConflictsHas(c: RuleCatalog, layers: seq<RuleLayer>, conflict: Conflict)
    ensures conflict in ProfileConflicts(c, layers) <==>
        && conflict == Conflict(conflict.ruleId, conflict.level, Profile, UnknownProfile)
        && conflict.ruleId !in c.profiles
        && exists l :: l in layers && l.level == conflict.level && conflict.ruleId in l.profiles
  {
    if layers != [] {
      assert layers == [layers[0]] + layers[1..];
      UnknownDeclaredHas(c, layers[0].level, layers[0].profiles, conflict);
      ProfileConflictsHas(c, layers[1..], conflict);
    }
  }

  /** A profile that a layer declares and the catalogue does not know is reported, with its level. */
  lemma UnknownProfileIsReported(input: ResolveInput, l: RuleLayer, p: string)
    requires Resolve(input).Ok? && l in input.layers && p in l.profiles && p !in input.catalog.profiles
    ensures Conflict(p, l.level, Profile, UnknownProfile) in Resolve(input).value.conflicts
  {
    var layers := Ordered(input.layers).value;
    SortIsPermutation(ByLevel(), input.layers);
    SameMembers(layers, input.layers);
    ProfileConflictsHas(input.catalog, layers, Conflict(p, l.level, Profile, UnknownProfile));
    hide NormalizePath, Build, ComposeAll, Ordered, SelectedProfiles, UnknownIn, UnknownInPackages, ProfileConflicts;
  }
}
