// Which exhausted quotas to enforce now, with a cool-down carried between evaluations.

module EnforcementDecision {
  import opened Common
  import opened SchedulePrecedence

  datatype Quota = Quota(target: Target, allowedSeconds: real, consumedSeconds: real)

  datatype Decision = Decision(
    target: Target, allowedSeconds: real, consumedSeconds: real, overageSeconds: real, graceSeconds: int)

  /** Per target, the instant in milliseconds it last fired. */
  type CoolDown = map<Target, int>

  predicate Exhausted(q: Quota) {
    q.consumedSeconds > 0.0 && q.consumedSeconds >= q.allowedSeconds
  }

  predicate Cooling(fired: CoolDown, target: Target, now: int, cooldownMs: int) {
    target in fired && now - fired[target] < cooldownMs
  }

  function Decide(q: Quota, graceSeconds: int): Decision {
    Decision(q.target, q.allowedSeconds, q.consumedSeconds, q.consumedSeconds - q.allowedSeconds, graceSeconds)
  }

  /** `"activity"` sorts before `"group"`, then by id. */
  function DecisionRank(d: Decision): Rank {
    (if d.target.scope.Activity? then 0 else 1, d.target.id)
  }

  ghost predicate Distinct(quotas: seq<Quota>) {
    forall i, j | 0 <= i < j < |quotas| :: quotas[i].target != quotas[j].target
  }

  /** The quotas that fire: exhausted, and not cooling down from an earlier fire. */
  function FiringQuota(last: CoolDown, now: int, cooldownMs: int): Quota -> bool {
    (q: Quota) => Exhausted(q) && !Cooling(last, q.target, now, cooldownMs)
  }

  predicate Listed(quotas: seq<Quota>, target: Target) {
    exists i :: 0 <= i < |quotas| && quotas[i].target == target
  }

  predicate Cleared(quotas: seq<Quota>, target: Target) {
    exists i :: 0 <= i < |quotas| && quotas[i].target == target && !Exhausted(quotas[i])
  }

  predicate Fires(quotas: seq<Quota>, last: CoolDown, now: int, cooldownMs: int, target: Target) {
    exists i :: 0 <= i < |quotas| && quotas[i].target == target && FiringQuota(last, now, cooldownMs)(quotas[i])
  }

  /** What a target's cool-down entry becomes: stamped when it fires, forgotten when back under quota, else kept. */
  function NextStamp(quotas: seq<Quota>, last: CoolDown, now: int, cooldownMs: int, target: Target): Option<int> {
    if Fires(quotas, last, now, cooldownMs, target) then Some(now)
    else if Cleared(quotas, target) then None
    else Stamp(last, target)
  }

  function Stamp(last: CoolDown, target: Target): Option<int> {
    if target in last then Some(last[target]) else None
  }

  /** One more quota, not listed before, changes the verdict for its own target only. */
  lemma OneMoreQuota(quotas: seq<Quota>, q: Quota, last: CoolDown, now: int, cooldownMs: int, target: Target)
    requires !Listed(quotas, q.target)
    ensures var more := quotas + [q];
            && (Fires(more, last, now, cooldownMs, target) <==>
                if target == q.target then FiringQuota(last, now, cooldownMs)(q)
                else Fires(quotas, last, now, cooldownMs, target))
            && (Cleared(more, target) <==> if target == q.target then !Exhausted(q) else Cleared(quotas, target))
    ensures !Fires(quotas, last, now, cooldownMs, q.target) && !Cleared(quotas, q.target)
  {
    var more := quotas + [q];
    assert more[|quotas|] == q;
    assert forall i | 0 <= i < |quotas| :: more[i] == quotas[i];
  }

  datatype Evaluation = Evaluation(firing: seq<Quota>, next: CoolDown)

  /** Quota by quota, in the given order; a target listed twice sees its own earlier fire. */
  function Evaluate(quotas: seq<Quota>, last: CoolDown, now: int, cooldownMs: int): Evaluation {
    if quotas == [] then Evaluation([], last)
    else
      var q := quotas[|quotas| - 1];
      EvaluateOne(Evaluate(quotas[..|quotas| - 1], last, now, cooldownMs), q, now, cooldownMs)
  }

  /** Decide what to enforce, in rank order, and the cool-down state to carry to the next evaluation. */
  method DecideEnforcement(now: int, graceSeconds: int, cooldownMs: int, quotas: seq<Quota>, last: CoolDown)
    returns (decisions: seq<Decision>, next: CoolDown)
    ensures var outcome := Evaluate(quotas, last, now, cooldownMs);
            next == outcome.next && decisions == Decisions(outcome.firing, graceSeconds)
  {
    next := last;
    var firing: seq<Quota> := [];
    for i := 0 to |quotas|
      invariant Evaluate(quotas[..i], last, now, cooldownMs) == Evaluation(firing, next)
    {
      var quota := quotas[i];
      assert quotas[..i + 1][..i] == quotas[..i];
      if !Exhausted(quota) {
        next := next - {quota.target};
        continue;
      }
      if quota.target in next && now - next[quota.target] < cooldownMs {
        continue;
      }
      firing := firing + [quota];
      next := next[quota.target := now];
    }
    assert quotas[..|quotas|] == quotas;
    decisions := SortBy(DecisionRank, Map((q: Quota) => Decide(q, graceSeconds), firing));
  }

  function ForTarget(target: Target): Quota -> bool {
    (q: Quota) => q.target == target
  }

  /** Whatever the list repeats, a target's fires and its stamp are those of its own quotas alone. */
  lemma {:induction false} TargetsIndependent(
    quotas: seq<Quota>, last: CoolDown, now: int, cooldownMs: int, target: Target)
    ensures var all := Evaluate(quotas, last, now, cooldownMs);
            var own := Evaluate(Filter(ForTarget(target), quotas), last, now, cooldownMs);
            && Stamp(all.next, target) == Stamp(own.next, target)
            && Filter(ForTarget(target), all.firing) == own.firing
  {
    if quotas != [] {
      var n := |quotas| - 1;
      var init, q := quotas[..n], quotas[n];
      assert quotas == init + [q];
      var own := Filter(ForTarget(target), init);
      TargetsIndependent(init, last, now, cooldownMs, target);
      OwnStep(Evaluate(init, last, now, cooldownMs), Evaluate(own, last, now, cooldownMs), q, now, cooldownMs, target);
      FilterLast(target, init, q);
      OneMoreEvaluated(init, q, last, now, cooldownMs);
      OneMoreEvaluated(own, q, last, now, cooldownMs);
      hide Evaluate, EvaluateOne, Filter;
      assert own + [] == own;
    }
  }

  lemma OwnStep(all: Evaluation, own: Evaluation, q: Quota, now: int, cooldownMs: int, target: Target)
    requires Stamp(all.next, target) == Stamp(own.next, target) && Filter(ForTarget(target), all.firing) == own.firing
    ensures var all' := EvaluateOne(all, q, now, cooldownMs);
            var own' := if q.target == target then EvaluateOne(own, q, now, cooldownMs) else own;
            && Stamp(all'.next, target) == Stamp(own'.next, target)
            && Filter(ForTarget(target), all'.firing) == own'.firing
  {
    FilterLast(target, all.firing, q);
    assert own.firing + [] == own.firing;
  }

  function EvaluateOne(before: Evaluation, q: Quota, now: int, cooldownMs: int): Evaluation {
    if !Exhausted(q) then before.(next := before.next - {q.target})
    else if Cooling(before.next, q.target, now, cooldownMs) then before
    else Evaluation(before.firing + [q], before.next[q.target := now])
  }

  lemma OneMoreEvaluated(quotas: seq<Quota>, q: Quota, last: CoolDown, now: int, cooldownMs: int)
    ensures Evaluate(quotas + [q], last, now, cooldownMs)
            == EvaluateOne(Evaluate(quotas, last, now, cooldownMs), q, now, cooldownMs)
  {
    assert (quotas + [q])[..|quotas|] == quotas;
  }

  lemma FilterLast(target: Target, quotas: seq<Quota>, q: Quota)
    ensures Filter(ForTarget(target), quotas + [q])
            == Filter(ForTarget(target), quotas) + if q.target == target then [q] else []
  {
    FilterConcat(ForTarget(target), quotas, [q]);
    assert [q][1..] == [];
  }

  /**
   * With each target listed once, what fires and what is remembered depends on the target's own
   * quota and stamp only.
   */
  lemma {:induction false} EvaluateMeaning(
    quotas: seq<Quota>, last: CoolDown, now: int, cooldownMs: int, target: Target)
    requires Distinct(quotas)
    ensures var outcome := Evaluate(quotas, last, now, cooldownMs);
            && Stamp(outcome.next, target) == NextStamp(quotas, last, now, cooldownMs, target)
            && outcome.firing == Filter(FiringQuota(last, now, cooldownMs), quotas)
  {
    if quotas != [] {
      var n := |quotas| - 1;
      var init, q := quotas[..n], quotas[n];
      assert quotas == init + [q];
      NotListedBefore(quotas, n);
      EvaluateMeaning(init, last, now, cooldownMs, target);
      EvaluateMeaning(init, last, now, cooldownMs, q.target);
      OneMoreEvaluated(init, q, last, now, cooldownMs);
      OneMoreFiring(init, q, last, now, cooldownMs);
      hide Evaluate, Filter;
      OneMoreQuota(init, q, last, now, cooldownMs, target);
      OneMoreQuota(init, q, last, now, cooldownMs, q.target);
    }
  }

  lemma OneMoreFiring(quotas: seq<Quota>, q: Quota, last: CoolDown, now: int, cooldownMs: int)
    ensures var fires := FiringQuota(last, now, cooldownMs);
            Filter(fires, quotas + [q]) == if fires(q) then Filter(fires, quotas) + [q] else Filter(fires, quotas)
  {
    var fires := FiringQuota(last, now, cooldownMs);
    FilterConcat(fires, quotas, [q]);
    assert [q][1..] == [];
    assert Filter(fires, quotas) + [] == Filter(fires, quotas);
  }

  lemma NotListedBefore(quotas: seq<Quota>, i: nat)
    requires Distinct(quotas) && i < |quotas|
    ensures !Listed(quotas[..i], quotas[i].target)
  {
  }

  /** The firing quotas' decisions, sorted by target. */
  function Decisions(firing: seq<Quota>, graceSeconds: int): seq<Decision> {
    SortBy(DecisionRank, Map((q: Quota) => Decide(q, graceSeconds), firing))
  }

  /** There is one decision per firing target and none else; its overage is never negative. */
  lemma DecisionsMeaning(
    quotas: seq<Quota>, last: CoolDown, now: int, graceSeconds: int, cooldownMs: int, target: Target)
    requires Distinct(quotas)
    ensures var ds := Decisions(Evaluate(quotas, last, now, cooldownMs).firing, graceSeconds);
            && DistinctTargets(ds)
            && (forall i, j | 0 <= i < j < |ds| :: TargetBefore(ds[i].target, ds[j].target))
            && ((exists i :: 0 <= i < |ds| && ds[i].target == target)
                <==> exists q :: q in quotas && q.target == target && OverQuota(q)
                                 && (target in last ==> now - last[target] >= cooldownMs))
  {
    var fires := FiringQuota(last, now, cooldownMs);
    EvaluateMeaning(quotas, last, now, cooldownMs, target);
    FiringDistinct(fires, quotas);
    hide Filter, Evaluate;
    FiringMentioned(fires, quotas, graceSeconds, target);
    var raw := Map((q: Quota) => Decide(q, graceSeconds), Filter(fires, quotas));
    DecisionsInOrder(raw);
    SortByContents(DecisionRank, raw);
    MentionedAlike(raw, SortBy(DecisionRank, raw), target);
    hide SortBy, Map;
  }

  lemma FiringMentioned(fires: Quota -> bool, quotas: seq<Quota>, graceSeconds: int, target: Target)
    ensures var raw := Map((q: Quota) => Decide(q, graceSeconds), Filter(fires, quotas));
            (exists i :: 0 <= i < |raw| && raw[i].target == target)
            <==> exists q :: q in quotas && q.target == target && fires(q)
  {
    var firing := Filter(fires, quotas);
    var raw := Map((q: Quota) => Decide(q, graceSeconds), firing);
    hide Filter;
    if i :| 0 <= i < |raw| && raw[i].target == target {
      FilterMember(fires, quotas, firing[i]);
    }
    if q :| q in quotas && q.target == target && fires(q) {
      FilterMember(fires, quotas, q);
      var k :| 0 <= k < |firing| && firing[k] == q;
      assert raw[k].target == target;
    }
  }

  lemma MentionedAlike(a: seq<Decision>, b: seq<Decision>, target: Target)
    requires forall d :: d in b <==> d in a
    ensures (exists i :: 0 <= i < |a| && a[i].target == target) <==> (exists i :: 0 <= i < |b| && b[i].target == target)
  {
    if i :| 0 <= i < |a| && a[i].target == target {
      assert a[i] in b;
    }
    if i :| 0 <= i < |b| && b[i].target == target {
      assert b[i] in a;
    }
  }

  lemma DecisionsInOrder(raw: seq<Decision>)
    requires DistinctTargets(raw)
    ensures var ds := SortBy(DecisionRank, raw);
            DistinctTargets(ds) && forall i, j | 0 <= i < j < |ds| :: TargetBefore(ds[i].target, ds[j].target)
  {
    var ds := SortBy(DecisionRank, raw);
    SortBySorted(DecisionRank, raw);
    SortByContents(DecisionRank, raw);
    PermutationKeepsDistinctTargets(raw, ds);
  }

  /** Activities before groups, by ascending id within each kind. */
  predicate TargetBefore(a: Target, b: Target) {
    (a.scope.Activity? && !b.scope.Activity?) || (a.scope.Activity? == b.scope.Activity? && a.id <= b.id)
  }

  /** Something was used, and at least as much as allowed. */
  predicate OverQuota(q: Quota) {
    q.consumedSeconds > 0.0 && !(q.consumedSeconds < q.allowedSeconds)
  }

  /**
   * Each decision is about one of the quotas, carries its allowance, its consumption and
   * their difference, and the grace period it was asked to carry.
   */
  lemma DecisionsCarry(quotas: seq<Quota>, last: CoolDown, now: int, graceSeconds: int, cooldownMs: int, i: nat)
    requires i < |Decisions(Evaluate(quotas, last, now, cooldownMs).firing, graceSeconds)|
    ensures var d := Decisions(Evaluate(quotas, last, now, cooldownMs).firing, graceSeconds)[i];
            && d.graceSeconds == graceSeconds
            && d.overageSeconds == d.consumedSeconds - d.allowedSeconds >= 0.0
            && exists q :: q in quotas && OverQuota(q) && q.target == d.target
                           && q.allowedSeconds == d.allowedSeconds && q.consumedSeconds == d.consumedSeconds
  {
    var firing := Evaluate(quotas, last, now, cooldownMs).firing;
    var raw := Map((q: Quota) => Decide(q, graceSeconds), firing);
    var ds := Decisions(firing, graceSeconds);
    SortByContents(DecisionRank, raw);
    FiringFromQuotas(quotas, last, now, cooldownMs);
    hide SortBy, Evaluate;
    assert ds[i] in raw;
    var k :| 0 <= k < |raw| && raw[k] == ds[i];
    assert firing[k] in firing;
  }

  lemma {:induction false} FiringFromQuotas(quotas: seq<Quota>, last: CoolDown, now: int, cooldownMs: int)
    ensures forall q | q in Evaluate(quotas, last, now, cooldownMs).firing :: q in quotas && Exhausted(q)
  {
    if quotas != [] {
      FiringFromQuotas(quotas[..|quotas| - 1], last, now, cooldownMs);
    }
  }

  ghost predicate DistinctTargets(ds: seq<Decision>) {
    forall i, j | 0 <= i < j < |ds| :: ds[i].target != ds[j].target
  }

  lemma {:induction false} FiringDistinct(fires: Quota -> bool, quotas: seq<Quota>)
    requires Distinct(quotas)
    ensures Distinct(Filter(fires, quotas))
  {
    if quotas != [] {
      FiringDistinct(fires, quotas[1..]);
      var rest := Filter(fires, quotas[1..]);
      forall k | 0 <= k < |rest| ensures rest[k].target != quotas[0].target {
        FilterMember(fires, quotas[1..], rest[k]);
      }
    }
  }

  /** Reordering decisions keeps their targets distinct. */
  lemma PermutationKeepsDistinctTargets(raw: seq<Decision>, ds: seq<Decision>)
    requires DistinctTargets(raw) && multiset(ds) == multiset(raw)
    ensures DistinctTargets(ds)
  {
    assert NoDuplicates(raw);
    PermutationKeepsDistinct(raw, ds);
    forall i, j | 0 <= i < j < |ds| ensures ds[i].target != ds[j].target {
      assert ds[i] in multiset(ds) && ds[j] in multiset(ds);
      var p :| 0 <= p < |raw| && raw[p] == ds[i];
      var q :| 0 <= q < |raw| && raw[q] == ds[j];
    }
  }
}
