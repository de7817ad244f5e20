/** Verdicts on the rules in force, from gate results and evidence
    (packages/rules/src/verdict.ts, packages/rules/src/validate-evidence.ts). */
module RuleVerdicts {
  import opened Common
  import opened RuleStrength
  import opened RuleLayers
  import opened RuleResolution

  datatype EvidenceItem = EvidenceItem(ruleId: string, references: seq<string>)

  datatype GateResult = GateResult(ruleId: string, pass: bool)

  datatype Artifact = Artifact(evidence: seq<EvidenceItem>, gates: seq<GateResult>)

  datatype Verdict = Pass | Fail | Unverified

  datatype VerdictReason =
    | GateFailed | GatePassed | GateNotRun
    | EvidenceMissing | EvidenceProvided | EvidenceIncomplete

  datatype RuleVerdict = RuleVerdict(ruleId: string, severity: Severity, verdict: Verdict, reason: VerdictReason)

  predicate InRange(c: char, low: int, high: int) { low <= c as int <= high }

  /** White space, controls, format characters and fillers: none of them shows. */
  predicate IsInvisible(c: char) {
    || InRange(c, 0x0, 0x20) || InRange(c, 0x7F, 0xA0) || InRange(c, 0xAD, 0xAD)
    || InRange(c, 0x600, 0x605) || InRange(c, 0x61C, 0x61C) || InRange(c, 0x6DD, 0x6DD) || InRange(c, 0x70F, 0x70F)
    || InRange(c, 0x890, 0x891) || InRange(c, 0x8E2, 0x8E2) || InRange(c, 0x115F, 0x1160) || InRange(c, 0x1680, 0x1680)
    || InRange(c, 0x180E, 0x180E) || InRange(c, 0x2000, 0x200F) || InRange(c, 0x2028, 0x202F)
    || InRange(c, 0x205F, 0x2064) || InRange(c, 0x2066, 0x206F) || InRange(c, 0x2800, 0x2800)
    || InRange(c, 0x3000, 0x3000) || InRange(c, 0x3164, 0x3164) || InRange(c, 0xFEFF, 0xFEFF)
    || InRange(c, 0xFFA0, 0xFFA0) || InRange(c, 0xFFF9, 0xFFFB) || InRange(c, 0x110BD, 0x110BD)
    || InRange(c, 0x110CD, 0x110CD) || InRange(c, 0x13430, 0x1343F) || InRange(c, 0x1BCA0, 0x1BCA3)
    || InRange(c, 0x1D173, 0x1D17A) || InRange(c, 0xE0001, 0xE0001) || InRange(c, 0xE0020, 0xE007F)
  }

  predicate IsVisible(reference: string) {
    exists i :: 0 <= i < |reference| && !IsInvisible(reference[i])
  }

  const FILLERS := "\U{AD}\U{200B}\U{200D}\U{2060}\U{2800}\U{3164}\U{FEFF}\U{FFA0}"

  /** Spaces, line ends, joiners, fillers and marks of no width. */
  const BLANKS := " \t\n\r\U{85}\U{A0}\U{1680}\U{2000}\U{2028}\U{3000}" + FILLERS

  lemma PrintableShows()
    ensures forall c: char :: '!' <= c <= '~' ==> !IsInvisible(c)
  {
  }

  lemma BlanksAreInvisible()
    ensures forall c :: c in BLANKS ==> IsInvisible(c)
  {
  }

  /** A reference shows something as soon as one printable ASCII character is in it, nothing when it is made of
      blanks, and no more than its parts. */
  lemma VisibleReads(reference: string, more: string)
    ensures (exists c :: c in reference && '!' <= c <= '~') ==> IsVisible(reference)
    ensures (forall c :: c in reference ==> c in BLANKS) ==> !IsVisible(reference)
    ensures IsVisible(reference + more) <==> IsVisible(reference) || IsVisible(more)
  {
    hide IsInvisible;
    PrintableShows();
    BlanksAreInvisible();
    if i :| 0 <= i < |reference| && !IsInvisible(reference[i]) {
      assert (reference + more)[i] == reference[i];
    }
    if i :| 0 <= i < |more| && !IsInvisible(more[i]) {
      assert (reference + more)[|reference| + i] == more[i];
    }
  }

  predicate HasGate(a: Artifact, id: string, pass: bool) {
    exists i :: 0 <= i < |a.gates| && a.gates[i].ruleId == id && a.gates[i].pass == pass
  }

  predicate HasItem(a: Artifact, id: string) {
    exists i :: 0 <= i < |a.evidence| && a.evidence[i].ruleId == id
  }

  predicate HasVisibleItem(a: Artifact, id: string) {
    exists i :: 0 <= i < |a.evidence| && a.evidence[i].ruleId == id
             && exists j :: 0 <= j < |a.evidence[i].references| && IsVisible(a.evidence[i].references[j])
  }

  function GateOutcome(id: string, a: Artifact): (Verdict, VerdictReason) {
    if HasGate(a, id, false) then (Fail, GateFailed)
    else if HasGate(a, id, true) then (Pass, GatePassed)
    else (Unverified, GateNotRun)
  }

  function EvidenceOutcome(id: string, a: Artifact): (Verdict, VerdictReason) {
    if !HasItem(a, id) then (Unverified, EvidenceMissing)
    else if HasVisibleItem(a, id) then (Pass, EvidenceProvided)
    else (Unverified, EvidenceIncomplete)
  }

  /** Nothing for an instruction: there is nothing to prove. */
  function VerdictFor(r: EffectiveRule, a: Artifact): Option<RuleVerdict> {
    match r.base.enforcement
    case Instruction(_) => None
    case Gate(_, _, _) =>
      var o := GateOutcome(r.base.id, a);
      Some(RuleVerdict(r.base.id, r.base.severity, o.0, o.1))
    case Evidence(_, _) =>
      var o := EvidenceOutcome(r.base.id, a);
      Some(RuleVerdict(r.base.id, r.base.severity, o.0, o.1))
  }

  /** Verdicts by rule id; the program lists them in id order. */
  function Verdicts(res: Resolution, a: Artifact): map<string, RuleVerdict> {
    map id | id in res.rules && VerdictFor(res.rules[id], a).Some? :: VerdictFor(res.rules[id], a).value
  }

  predicate SomeVerdict(vs: map<string, RuleVerdict>, severity: Severity, verdict: Verdict) {
    exists id :: id in vs && vs[id].severity == severity && vs[id].verdict == verdict
  }

  function Worst(vs: map<string, RuleVerdict>, severity: Severity): Verdict {
    if SomeVerdict(vs, severity, Fail) then Fail
    else if SomeVerdict(vs, severity, Unverified) then Unverified
    else Pass
  }

  /** Ids proven without being judged. */
  function UnknownRuleIds(res: Resolution, a: Artifact): set<string> {
    (set i | i in a.evidence :: i.ruleId) + (set g | g in a.gates :: g.ruleId) - Verdicts(res, a).Keys
  }

  datatype Report = Report(verdicts: map<string, RuleVerdict>, unknownRuleIds: set<string>, overall: Verdict,
                           canPass: bool)

  function BuildReport(res: Resolution, a: Artifact): Report {
    var overall := Worst(Verdicts(res, a), Blocking);
    Report(Verdicts(res, a), UnknownRuleIds(res, a), overall, overall == Pass)
  }

  /** What it takes to discharge a rule: its gate ran and never failed, or visible evidence. */
  ghost predicate Discharged(r: EffectiveRule, a: Artifact) {
    match r.base.enforcement
    case Instruction(_) => true
    case Gate(_, _, _) => HasGate(a, r.base.id, true) && !HasGate(a, r.base.id, false)
    case Evidence(_, _) => HasVisibleItem(a, r.base.id)
  }

  /** A delivery can pass exactly when every blocking rule in force is discharged. */
  lemma CanPassMeaning(res: Resolution, a: Artifact)
    ensures BuildReport(res, a).canPass <==>
            forall id :: id in res.rules && res.rules[id].base.severity == Blocking ==> Discharged(res.rules[id], a)
  {
    var vs := Verdicts(res, a);
    forall id | id in res.rules && res.rules[id].base.severity == Blocking
      ensures Discharged(res.rules[id], a) <==> id !in vs || vs[id].verdict == Pass
    {
      var r := res.rules[id];
      if HasVisibleItem(a, r.base.id) {
        assert HasItem(a, r.base.id);
      }
    }
    if BuildReport(res, a).canPass {
      forall id | id in vs && vs[id].severity == Blocking ensures vs[id].verdict == Pass {
        assert !SomeVerdict(vs, Blocking, Fail) && !SomeVerdict(vs, Blocking, Unverified);
      }
    }
    assert forall id :: id in vs ==> vs[id].severity == res.rules[id].base.severity;
  }

  /** A report fails exactly when the gate of a blocking rule in force failed, and lists as unknown exactly the
      ids proven that name no rule in force to be judged. */
  lemma ReportMeaning(res: Resolution, a: Artifact, id: string)
    requires forall k :: k in res.rules ==> res.rules[k].base.id == k
    ensures BuildReport(res, a).overall == Fail <==>
        exists k :: k in res.rules && res.rules[k].base.severity == Blocking
                    && res.rules[k].base.enforcement.Gate? && HasGate(a, k, false)
    ensures id in BuildReport(res, a).unknownRuleIds <==>
        && (HasItem(a, id) || HasGate(a, id, true) || HasGate(a, id, false))
        && (id in res.rules ==> res.rules[id].base.enforcement.Instruction?)
  {
    var vs := Verdicts(res, a);
    if SomeVerdict(vs, Blocking, Fail) {
      var k :| k in vs && vs[k].severity == Blocking && vs[k].verdict == Fail;
      assert HasGate(a, k, false);
    }
    forall k | k in res.rules && res.rules[k].base.severity == Blocking
               && res.rules[k].base.enforcement.Gate? && HasGate(a, k, false)
      ensures SomeVerdict(vs, Blocking, Fail)
    {
      assert k in vs && vs[k].verdict == Fail;
    }
  }

  /** End to end: if a delivery can pass, every guarded and blocking catalogue rule in scope of the role had its
      gate pass and never fail, or visible evidence of the required kind, whatever layers were posted. */
  lemma CanPassEnforcesProtectedRules(input: ResolveInput, a: Artifact, r: Rule)
    requires ValidCatalog(input.catalog) && Resolve(input).Ok?
    requires r in input.catalog.rules && IsGuarded(input.catalog, r) && input.role in r.agents
    requires exists p :: p in r.profiles && p in Resolve(input).value.profiles
    ensures var res := Resolve(input).value;
            BuildReport(res, a).canPass && (r.isProtected || r.severity == Blocking) ==>
              && r.id in res.rules && SameTarget(r.enforcement, res.rules[r.id].base.enforcement)
              && (r.enforcement.Gate? ==> HasGate(a, r.id, true) && !HasGate(a, r.id, false))
              && (r.enforcement.Evidence? ==> HasVisibleItem(a, r.id))
  {
    var res := Resolve(input).value;
    ProtectedRuleSurvives(input, r);
    hide Resolve, BuildReport;
    CanPassMeaning(res, a);
    if BuildReport(res, a).canPass && (r.isProtected || r.severity == Blocking) {
      assert Discharged(res.rules[r.id], a);
    }
  }

  /** The same, told from the input alone: the rule has a profile that the input selects. */
  lemma CanPassEnforcesSelectedRules(input: ResolveInput, a: Artifact, r: Rule, p: string)
    requires ValidCatalog(input.catalog) && Resolve(input).Ok?
    requires r in input.catalog.rules && IsGuarded(input.catalog, r) && input.role in r.agents
    requires p in r.profiles && IsSelected(input, p)
    ensures var res := Resolve(input).value;
            BuildReport(res, a).canPass && (r.isProtected || r.severity == Blocking) ==>
              && r.id in res.rules && SameTarget(r.enforcement, res.rules[r.id].base.enforcement)
              && (r.enforcement.Gate? ==> HasGate(a, r.id, true) && !HasGate(a, r.id, false))
              && (r.enforcement.Evidence? ==> HasVisibleItem(a, r.id))
  {
    hide Resolve, BuildReport, IsSelected;
    ProfilesAreSelected(input, p);
    CanPassEnforcesProtectedRules(input, a, r);
  }
}
