/** Strength of rules: severities, enforcements and their numeric limits
    (packages/rules/src/strength.ts). */
module RuleStrength {
  import opened Common

  datatype Severity = Advisory | Blocking

  /** A scalar parameter of an enforcement. */
  datatype Param = Number(n: real) | Text(s: string) | Flag(b: bool)

  type Params = map<string, Param>

  datatype Enforcement =
    | Gate(adapter: string, command: Option<string>, params: Option<Params>)
    | Evidence(evidence: string, params: Option<Params>)
    | Instruction(params: Option<Params>)

  const MAX := "max"

  function SeverityRank(s: Severity): nat {
    match s case Advisory => 0 case Blocking => 1
  }

  function EnforcementRank(e: Enforcement): nat {
    match e case Instruction(_) => 0 case Evidence(_, _) => 1 case Gate(_, _, _) => 2
  }

  function ParamsOf(e: Enforcement): Params {
    if e.params.Some? then e.params.value else map[]
  }

  function MaxOf(e: Enforcement): Option<real> {
    var p := ParamsOf(e);
    if MAX in p && p[MAX].Number? then Some(p[MAX].n) else None
  }

  /** Raising or dropping a numeric limit weakens; lowering or adding one hardens. */
  predicate LimitRaised(from: Enforcement, to: Enforcement) {
    MaxOf(from).Some? && (MaxOf(to).None? || MaxOf(to).value > MaxOf(from).value)
  }

  /** Strictly weaker on one axis is enough. */
  predicate IsWeaker(fromSeverity: Severity, from: Enforcement, toSeverity: Severity, to: Enforcement) {
    || SeverityRank(toSeverity) < SeverityRank(fromSeverity)
    || EnforcementRank(to) < EnforcementRank(from)
    || (EnforcementRank(to) == EnforcementRank(from) && LimitRaised(from, to))
  }

  /** Same number of keys other than `max`, and every such key of `from` has the same value in `to`. */
  predicate SameParamsExceptMax(from: Params, to: Params) {
    && |from.Keys - {MAX}| == |to.Keys - {MAX}|
    && forall k :: k in from.Keys - {MAX} ==> k in to && from[k] == to[k]
  }

  predicate IsInteger(x: real) { x.Floor as real == x }

  /** A numeric limit may only be kept or lowered, to a whole number; without one none may appear. */
  predicate LimitKept(from: Params, to: Params) {
    if MAX !in from || !from[MAX].Number? then MAX !in to
    else MAX in to && to[MAX].Number? && IsInteger(to[MAX].n) && 0.0 <= to[MAX].n <= from[MAX].n
  }

  predicate SameTarget(from: Enforcement, to: Enforcement) {
    match (from, to)
    case (Gate(a, c, _), Gate(a', c', _)) => a == a' && c == c'
    case (Evidence(e, _), Evidence(e', _)) => e == e'
    case _ => from.Instruction? && to.Instruction?
  }

  predicate IsLockedSafe(from: Enforcement, to: Enforcement) {
    SameTarget(from, to) && SameParamsExceptMax(ParamsOf(from), ParamsOf(to)) && LimitKept(ParamsOf(from), ParamsOf(to))
  }

  lemma SubsetOfSameSize<T>(a: set<T>, b: set<T>)
    requires a <= b && |a| == |b|
    ensures a == b
  {
    assert b == a + (b - a);
  }

  /** Counting keys makes the one-sided comparison an equality of everything but `max`. */
  lemma {:induction false} SameParamsIsEquality(from: Params, to: Params)
    ensures SameParamsExceptMax(from, to) <==> from - {MAX} == to - {MAX}
  {
    if SameParamsExceptMax(from, to) {
      SubsetOfSameSize(from.Keys - {MAX}, to.Keys - {MAX});
      assert (from - {MAX}).Keys == from.Keys - {MAX} && (to - {MAX}).Keys == to.Keys - {MAX};
    }
    if from - {MAX} == to - {MAX} {
      assert from.Keys - {MAX} == (from - {MAX}).Keys == (to - {MAX}).Keys == to.Keys - {MAX};
      forall k | k in from.Keys - {MAX} ensures k in to && from[k] == to[k] {
        assert k in (from - {MAX}) && k in (to - {MAX});
        assert from[k] == (from - {MAX})[k] == (to - {MAX})[k] == to[k];
      }
    }
  }

  ghost predicate MaxKept(from: Enforcement, to: Enforcement) {
    && (MaxOf(from).Some? ==> MaxOf(to).Some? && MaxOf(to).value <= MaxOf(from).value)
    && (MaxOf(from).None? ==>
          MAX !in ParamsOf(to) || (MAX in ParamsOf(from) && ParamsOf(to)[MAX] == ParamsOf(from)[MAX]))
  }

  /** Same target, same parameters but `max`, and a numeric `max` at most what it was. */
  ghost predicate Kept(from: Enforcement, to: Enforcement) {
    && SameTarget(from, to)
    && ParamsOf(from) - {MAX} == ParamsOf(to) - {MAX}
    && MaxKept(from, to)
  }

  /** A `max` that a change of a locked rule may carry: a whole number, not negative. */
  predicate HasSoundMax(params: Params) {
    MAX in params ==> params[MAX].Number? && params[MAX].n == params[MAX].n.Floor as real && params[MAX].n >= 0.0
  }

  lemma LimitKeptReads(from: Enforcement, to: Enforcement)
    ensures LimitKept(ParamsOf(from), ParamsOf(to)) <==> MaxKept(from, to) && HasSoundMax(ParamsOf(to))
  {
  }

  /** A change is accepted on a locked rule exactly when it is kept and its `max`, if any, is a whole number.
      Repeating an enforcement is therefore refused when its `max` is a text or a fraction. */
  lemma LockedSafeIsKept(from: Enforcement, to: Enforcement)
    ensures IsLockedSafe(from, to) <==> Kept(from, to) && HasSoundMax(ParamsOf(to))
    ensures IsLockedSafe(from, from) <==> HasSoundMax(ParamsOf(from))
  {
    SameParamsIsEquality(ParamsOf(from), ParamsOf(to));
    SameParamsIsEquality(ParamsOf(from), ParamsOf(from));
    LimitKeptReads(from, to);
    LimitKeptReads(from, from);
    hide LimitKept, HasSoundMax, SameParamsExceptMax, ParamsOf;
    assert SameTarget(from, from) && MaxKept(from, from);
  }

  lemma KeptIsTransitive(a: Enforcement, b: Enforcement, c: Enforcement)
    requires Kept(a, b) && Kept(b, c)
    ensures Kept(a, c)
  {
  }

  /** Kept enforcement with no lower severity is never weaker. */
  lemma KeptIsNotWeaker(fromSeverity: Severity, from: Enforcement, toSeverity: Severity, to: Enforcement)
    requires Kept(from, to) && SeverityRank(fromSeverity) <= SeverityRank(toSeverity)
    ensures !IsWeaker(fromSeverity, from, toSeverity, to)
  {
  }

  /** How much an enforcement demands: an instruction least, a gate most. */
  ghost predicate DemandsLess(from: Enforcement, to: Enforcement) {
    (from.Gate? && !to.Gate?) || (from.Evidence? && to.Instruction?)
  }

  ghost predicate SameKind(from: Enforcement, to: Enforcement) {
    (from.Gate? <==> to.Gate?) && (from.Evidence? <==> to.Evidence?)
  }

  /** A rule is weakened by advising what was blocking, by demanding less, or, within one kind of demand, by
      dropping or raising a numeric limit. */
  lemma WeakerReads(fromSeverity: Severity, from: Enforcement, toSeverity: Severity, to: Enforcement)
    ensures IsWeaker(fromSeverity, from, toSeverity, to) <==>
        || (fromSeverity == Blocking && toSeverity == Advisory)
        || DemandsLess(from, to)
        || (SameKind(from, to) && MAX in ParamsOf(from) && ParamsOf(from)[MAX].Number?
            && (MAX in ParamsOf(to) && ParamsOf(to)[MAX].Number? ==> ParamsOf(to)[MAX].n > ParamsOf(from)[MAX].n))
  {
  }

  /** Not weakening is a preorder: several changes of which none weakens do not weaken together. */
  lemma NotWeakerIsTransitive(s: Severity, a: Enforcement, t: Severity, b: Enforcement, u: Severity, c: Enforcement)
    requires !IsWeaker(s, a, t, b) && !IsWeaker(t, b, u, c)
    ensures !IsWeaker(s, a, u, c) && !IsWeaker(s, a, s, a)
  {
  }
}
