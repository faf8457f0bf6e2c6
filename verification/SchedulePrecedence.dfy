// Schedule precedence: evaluation order, the rule in effect, reordering, and the
// two editor views (rules that can never apply, rules in effect now).

module SchedulePrecedence {
  import opened Common

  datatype Scope = Overall | Activity | Group

  datatype Action = Allow | Deny | Extend

  /** An activity or an activity group. */
  datatype Target = Target(scope: Scope, id: int)

  /** Where a gathered row comes from: the user's own rows or a group's. */
  datatype RuleSource = FromUser | FromGroup(groupId: int)

  /** A rule as precedence sees it; effective bounds are UTC instants in milliseconds. */
  datatype ScheduleRule = ScheduleRule(
    id: int,
    ordinal: int,
    targetKind: Scope,
    targetId: Option<int>,
    recurrenceDays: Option<int>,
    recurrenceStartMinute: Option<int>,
    recurrenceEndMinute: Option<int>,
    effectiveFrom: Option<int>,
    effectiveTo: Option<int>,
    action: Action)

  type RuleActivePredicate = ScheduleRule -> bool

  function EvaluationRank(rule: ScheduleRule): Rank {
    (rule.ordinal, rule.id)
  }

  /** Ascending ordinal, then ascending id. */
  function ByOrdinal(rules: seq<ScheduleRule>): seq<ScheduleRule> {
    SortBy(EvaluationRank, rules)
  }

  function ResolveEffectiveRule(rules: seq<ScheduleRule>, isActive: RuleActivePredicate): Option<ScheduleRule> {
    Find(isActive, ByOrdinal(rules))
  }

  function ResolveEffectiveAction(rules: seq<ScheduleRule>, isActive: RuleActivePredicate, fallback: Action): Action {
    match ResolveEffectiveRule(rules, isActive)
    case Some(rule) => rule.action
    case None => fallback
  }

  // ----- reordering -----

  datatype ReorderError = WrongCount | UnknownId(id: int) | RepeatedId(id: int)

  datatype ReorderResult = Reordered(rules: seq<ScheduleRule>) | Mismatch(error: ReorderError)

  function IdOf(rule: ScheduleRule): int {
    rule.id
  }

  function Ids(rules: seq<ScheduleRule>): seq<int> {
    Map(IdOf, rules)
  }

  ghost predicate PermutationOfIds(rules: seq<ScheduleRule>, orderedIds: seq<int>) {
    NoDuplicates(orderedIds) && multiset(orderedIds) == multiset(Ids(rules))
  }

  /** `new Map(rules.map((rule) => [rule.id, rule]))`: a later rule with the same id replaces an earlier one. */
  function ById(rules: seq<ScheduleRule>): (m: map<int, ScheduleRule>)
    ensures forall id :: id in m <==> id in Ids(rules)
    ensures forall id | id in m :: m[id] in rules && m[id].id == id
  {
    if rules == [] then map[]
    else
      var last := rules[|rules| - 1];
      var earlier := rules[..|rules| - 1];
      assert rules == earlier + [last];
      assert Ids(rules) == Ids(earlier) + [last.id];
      ById(earlier)[last.id := last]
  }

  /** A requested order over the rules' ids: position `i` holds the rule with id `orderedIds[i]`, renumbered `i`. */
  ghost predicate InRequestedOrder(rules: seq<ScheduleRule>, orderedIds: seq<int>, result: seq<ScheduleRule>) {
    && |result| == |orderedIds|
    && forall i | 0 <= i < |result| ::
         result[i].id == orderedIds[i] && result[i].ordinal == i
         && exists rule | rule in rules :: result[i] == rule.(ordinal := i)
  }

  lemma MissingIdRefused(rules: seq<ScheduleRule>, orderedIds: seq<int>, k: nat)
    requires k < |orderedIds| && orderedIds[k] !in Ids(rules)
    ensures !PermutationOfIds(rules, orderedIds)
  {
    assert orderedIds[k] in multiset(orderedIds) && orderedIds[k] !in multiset(Ids(rules));
  }

  lemma WrongCountRefused(rules: seq<ScheduleRule>, orderedIds: seq<int>)
    requires |orderedIds| != |rules|
    ensures !PermutationOfIds(rules, orderedIds)
  {
    assert |multiset(orderedIds)| == |orderedIds| && |multiset(Ids(rules))| == |rules|;
  }

  /** The ids accepted so far: known, and none of them twice. */
  ghost predicate Accepted(rules: seq<ScheduleRule>, ids: seq<int>) {
    NoDuplicates(ids) && forall i | 0 <= i < |ids| :: ids[i] in Ids(rules)
  }

  /** Reassign dense ordinals to match a requested id order; anything but a permutation is refused. */
  method Reorder(rules: seq<ScheduleRule>, orderedIds: seq<int>) returns (result: ReorderResult)
    ensures result.Reordered? <==> PermutationOfIds(rules, orderedIds)
    ensures result.Reordered? ==> InRequestedOrder(rules, orderedIds, result.rules)
    ensures result.Reordered? ==> ByOrdinal(result.rules) == result.rules
    ensures result == Mismatch(WrongCount) <==> |orderedIds| != |rules|
  {
    hide PermutationOfIds;
    if |orderedIds| != |rules| {
      WrongCountRefused(rules, orderedIds);
      return Mismatch(WrongCount);
    }
    var byId := ById(rules);
    var seen: set<int> := {};
    var moved: seq<ScheduleRule> := [];
    for index := 0 to |orderedIds|
      invariant forall id :: id in seen <==> id in orderedIds[..index]
      invariant Accepted(rules, orderedIds[..index])
      invariant InRequestedOrder(rules, orderedIds[..index], moved)
    {
      var id := orderedIds[index];
      assert orderedIds[..index + 1] == orderedIds[..index] + [id];
      if id !in byId {
        MissingIdRefused(rules, orderedIds, index);
        return Mismatch(UnknownId(id));
      }
      if id in seen {
        RepeatRefused(rules, orderedIds, index);
        return Mismatch(RepeatedId(id));
      }
      seen := seen + {id};
      moved := moved + [byId[id].(ordinal := index)];
    }
    assert orderedIds[..|orderedIds|] == orderedIds;
    AcceptedIsPermutation(rules, orderedIds);
    DenseIsOrdered(moved);
    return Reordered(moved);
  }

  lemma RepeatRefused(rules: seq<ScheduleRule>, orderedIds: seq<int>, k: nat)
    requires k < |orderedIds| && orderedIds[k] in orderedIds[..k]
    ensures !PermutationOfIds(rules, orderedIds)
  {
  }

  lemma AcceptedIsPermutation(rules: seq<ScheduleRule>, orderedIds: seq<int>)
    requires Accepted(rules, orderedIds) && |orderedIds| == |rules|
    ensures PermutationOfIds(rules, orderedIds)
  {
    DistinctMembersFill(orderedIds, Ids(rules));
  }

  /** As many distinct members as there are places leave no place over. */
  lemma DistinctMembersFill(a: seq<int>, b: seq<int>)
    requires NoDuplicates(a) && |a| == |b| && forall i | 0 <= i < |a| :: a[i] in b
    ensures multiset(a) == multiset(b)
  {
    forall x ensures multiset(a)[x] <= multiset(b)[x] {
      CountAtMostOne(a, x);
      if x in multiset(a) {
        assert x in a && x in b;
      }
    }
    assert multiset(b) == multiset(a) + (multiset(b) - multiset(a));
    assert |multiset(a)| == |a| && |multiset(b)| == |b|;
  }

  /** Dense ordinals make the evaluation order the order of the list. */
  lemma DenseIsOrdered(rules: seq<ScheduleRule>)
    requires forall i | 0 <= i < |rules| :: rules[i].ordinal == i
    ensures ByOrdinal(rules) == rules
  {
    SortSorted(EvaluationRank, rules);
  }

  // ----- shadowing -----

  predicate TargetSupersetOf(earlier: ScheduleRule, later: ScheduleRule) {
    earlier.targetKind.Overall?
    || (earlier.targetKind == later.targetKind && earlier.targetId == later.targetId)
  }

  predicate SameWindow(a: ScheduleRule, b: ScheduleRule) {
    && a.recurrenceDays == b.recurrenceDays
    && a.recurrenceStartMinute == b.recurrenceStartMinute
    && a.recurrenceEndMinute == b.recurrenceEndMinute
    && a.effectiveFrom == b.effectiveFrom
    && a.effectiveTo == b.effectiveTo
  }

  predicate Shadows(earlier: ScheduleRule, later: ScheduleRule) {
    SameWindow(earlier, later) && TargetSupersetOf(earlier, later)
  }

  datatype ShadowFinding = ShadowFinding(shadowedId: int, shadowedById: int)

  ghost predicate IsFirstShadow(ordered: seq<ScheduleRule>, i: int, j: int) {
    0 <= j < i < |ordered| && Shadows(ordered[j], ordered[i])
    && forall k | 0 <= k < j :: !Shadows(ordered[k], ordered[i])
  }

  ghost predicate IsShadowed(ordered: seq<ScheduleRule>, i: int) {
    0 <= i < |ordered| && exists j | 0 <= j < i :: Shadows(ordered[j], ordered[i])
  }

  ghost predicate Reports(finding: ShadowFinding, ordered: seq<ScheduleRule>, i: int) {
    exists j :: IsFirstShadow(ordered, i, j) && finding == ShadowFinding(ordered[i].id, ordered[j].id)
  }

  /** One finding per shadowed position below `n`, against its first shadower, in evaluation order. */
  ghost predicate FindingsUpTo(ordered: seq<ScheduleRule>, n: nat, positions: seq<int>, findings: seq<ShadowFinding>) {
    && |findings| == |positions|
    && Ascending(positions)
    && (forall i :: i in positions <==> i < n && IsShadowed(ordered, i))
    && forall f | 0 <= f < |findings| :: Reports(findings[f], ordered, positions[f])
  }

  lemma ShadowedStep(ordered: seq<ScheduleRule>, i: nat, j: nat, positions: seq<int>, findings: seq<ShadowFinding>)
    requires i < |ordered| && FindingsUpTo(ordered, i, positions, findings)
    requires IsFirstShadow(ordered, i, j)
    ensures FindingsUpTo(ordered, i + 1, positions + [i], findings + [ShadowFinding(ordered[i].id, ordered[j].id)])
  {
    assert forall p | 0 <= p < |positions| :: positions[p] in positions;
  }

  lemma NotShadowedStep(ordered: seq<ScheduleRule>, i: nat, positions: seq<int>, findings: seq<ShadowFinding>)
    requires i < |ordered| && FindingsUpTo(ordered, i, positions, findings)
    requires forall k | 0 <= k < i :: !Shadows(ordered[k], ordered[i])
    ensures FindingsUpTo(ordered, i + 1, positions, findings)
  {
    assert !IsShadowed(ordered, i);
  }

  method FindShadowedRules(rules: seq<ScheduleRule>) returns (findings: seq<ShadowFinding>)
    ensures exists positions :: FindingsUpTo(ByOrdinal(rules), |ByOrdinal(rules)|, positions, findings)
  {
    var ordered := ByOrdinal(rules);
    findings := [];
    ghost var positions: seq<int> := [];
    assert FindingsUpTo(ordered, 0, positions, findings);
    hide FindingsUpTo, ByOrdinal;
    for i := 0 to |ordered|
      invariant FindingsUpTo(ordered, i, positions, findings)
    {
      var later := ordered[i];
      var j := 0;
      while j < i
        invariant 0 <= j <= i
        invariant forall k | 0 <= k < j :: !Shadows(ordered[k], later)
      {
        if SameWindow(ordered[j], later) && TargetSupersetOf(ordered[j], later) {
          break;
        }
        j := j + 1;
      }
      if j < i {
        ShadowedStep(ordered, i, j, positions, findings);
        findings := findings + [ShadowFinding(later.id, ordered[j].id)];
        positions := positions + [i];
      } else {
        NotShadowedStep(ordered, i, positions, findings);
      }
    }
  }

  // ----- rules in effect now -----

  function Covering(target: ScheduleRule): ScheduleRule -> bool {
    (candidate: ScheduleRule) => TargetSupersetOf(candidate, target)
  }

  /** The id of the first active rule among those covering `target`'s target. */
  function WinnerFor(rules: seq<ScheduleRule>, target: ScheduleRule, isActive: RuleActivePredicate): Option<int> {
    match ResolveEffectiveRule(Filter(Covering(target), ByOrdinal(rules)), isActive)
    case Some(winner) => Some(winner.id)
    case None => None
  }

  ghost predicate WinsAmong(
    rules: seq<ScheduleRule>, targets: seq<ScheduleRule>, isActive: RuleActivePredicate, id: int)
  {
    exists k | 0 <= k < |targets| :: WinnerFor(rules, targets[k], isActive) == Some(id)
  }

  /** The rule with this id wins for the target of some rule. */
  ghost predicate WinsSomewhere(rules: seq<ScheduleRule>, isActive: RuleActivePredicate, id: int) {
    WinsAmong(rules, ByOrdinal(rules), isActive, id)
  }

  predicate SameTarget(a: ScheduleRule, b: ScheduleRule) {
    a.targetKind == b.targetKind && a.targetId == b.targetId
  }

  lemma SameTargetSameWinner(rules: seq<ScheduleRule>, a: ScheduleRule, b: ScheduleRule, isActive: RuleActivePredicate)
    requires SameTarget(a, b)
    ensures WinnerFor(rules, a, isActive) == WinnerFor(rules, b, isActive)
  {
    FilterAgree(Covering(a), Covering(b), ByOrdinal(rules));
  }

  lemma WinsAmongOneMore(
    rules: seq<ScheduleRule>, targets: seq<ScheduleRule>, target: ScheduleRule, isActive: RuleActivePredicate, id: int)
    ensures WinsAmong(rules, targets + [target], isActive, id)
            <==> WinsAmong(rules, targets, isActive, id) || WinnerFor(rules, target, isActive) == Some(id)
  {
    var more := targets + [target];
    if WinsAmong(rules, targets, isActive, id) {
      var k :| 0 <= k < |targets| && WinnerFor(rules, targets[k], isActive) == Some(id);
      assert more[k] == targets[k];
    }
    assert more[|targets|] == target;
  }

  ghost predicate SeenTarget(targets: seq<ScheduleRule>, key: (Scope, Option<int>)) {
    exists k | 0 <= k < |targets| :: key == (targets[k].targetKind, targets[k].targetId)
  }

  method EffectiveRuleIds(rules: seq<ScheduleRule>, isActive: RuleActivePredicate) returns (winners: seq<int>)
    ensures NoDuplicates(winners)
    ensures forall id :: id in winners <==> WinsSomewhere(rules, isActive, id)
  {
    hide WinnerFor, WinsAmong, SeenTarget;
    var ordered := ByOrdinal(rules);
    winners := [];
    var seenTargets: set<(Scope, Option<int>)> := {};
    NothingYet(rules, isActive);
    for i := 0 to |ordered|
      invariant NoDuplicates(winners)
      invariant forall key :: key in seenTargets <==> SeenTarget(ordered[..i], key)
      invariant forall id :: id in winners <==> WinsAmong(rules, ordered[..i], isActive, id)
    {
      var rule := ordered[i];
      var key := (rule.targetKind, rule.targetId);
      assert ordered[..i + 1] == ordered[..i] + [rule];
      SeenOneMore(ordered[..i], rule);
      forall id ensures WinsAmong(rules, ordered[..i + 1], isActive, id)
                        <==> (WinsAmong(rules, ordered[..i], isActive, id)
                              || WinnerFor(rules, rule, isActive) == Some(id)) {
        WinsAmongOneMore(rules, ordered[..i], rule, isActive, id);
      }
      if key in seenTargets {
        SeenTargetHasWinner(rules, ordered[..i], rule, isActive);
      } else {
        seenTargets := seenTargets + {key};
        var covering := Filter(Covering(rule), ordered);
        var winner := ResolveEffectiveRule(covering, isActive);
        WinnerIs(rules, rule, isActive);
        if winner.Some? {
          winners := AddToSet(winners, winner.value.id);
        }
      }
    }
    assert ordered[..|ordered|] == ordered;
  }

  lemma WinnerIs(rules: seq<ScheduleRule>, target: ScheduleRule, isActive: RuleActivePredicate)
    ensures var winner := ResolveEffectiveRule(Filter(Covering(target), ByOrdinal(rules)), isActive);
            WinnerFor(rules, target, isActive) == if winner.Some? then Some(winner.value.id) else None
  {
  }

  lemma NothingYet(rules: seq<ScheduleRule>, isActive: RuleActivePredicate)
    ensures forall id :: !WinsAmong(rules, [], isActive, id)
    ensures forall key :: !SeenTarget([], key)
  {
  }

  lemma SeenOneMore(targets: seq<ScheduleRule>, target: ScheduleRule)
    ensures forall key :: SeenTarget(targets + [target], key)
                          <==> SeenTarget(targets, key) || key == (target.targetKind, target.targetId)
  {
    var more := targets + [target];
    forall key ensures SeenTarget(more, key)
           <==> SeenTarget(targets, key) || key == (target.targetKind, target.targetId) {
      if SeenTarget(targets, key) {
        var k :| 0 <= k < |targets| && key == (targets[k].targetKind, targets[k].targetId);
        assert more[k] == targets[k];
      }
      assert more[|targets|] == target;
    }
  }

  lemma SeenTargetHasWinner(
    rules: seq<ScheduleRule>, targets: seq<ScheduleRule>, target: ScheduleRule, isActive: RuleActivePredicate)
    requires SeenTarget(targets, (target.targetKind, target.targetId))
    ensures forall id | WinnerFor(rules, target, isActive) == Some(id) :: WinsAmong(rules, targets, isActive, id)
  {
    var k :| 0 <= k < |targets| && (target.targetKind, target.targetId) == (targets[k].targetKind, targets[k].targetId);
    SameTargetSameWinner(rules, target, targets[k], isActive);
  }

  /** A predicate that depends on a rule's window only, as the real resolver does. */
  ghost predicate RespectsWindows(isActive: RuleActivePredicate) {
    forall a, b | SameWindow(a, b) :: isActive(a) == isActive(b)
  }

  /** The winner for a target is the first rule of the whole list that covers it and is active. */
  lemma WinnerIsFirst(rules: seq<ScheduleRule>, target: ScheduleRule, isActive: RuleActivePredicate) returns (k: nat)
    requires WinnerFor(rules, target, isActive).Some?
    ensures k < |ByOrdinal(rules)| && WinnerFor(rules, target, isActive) == Some(ByOrdinal(rules)[k].id)
    ensures TargetSupersetOf(ByOrdinal(rules)[k], target) && isActive(ByOrdinal(rules)[k])
    ensures forall j | 0 <= j < k :: !(TargetSupersetOf(ByOrdinal(rules)[j], target) && isActive(ByOrdinal(rules)[j]))
  {
    var ordered := ByOrdinal(rules);
    var covering := Filter(Covering(target), ordered);
    SortBySorted(EvaluationRank, rules);
    FilterKeepsOrder(EvaluationRank, Covering(target), ordered);
    SortSorted(EvaluationRank, covering);
    FindFilter(isActive, Covering(target), ordered);
    k := FindPosition(Both(Covering(target), isActive), ordered);
    forall j | 0 <= j < k ensures !(TargetSupersetOf(ordered[j], target) && isActive(ordered[j])) {
      assert !Both(Covering(target), isActive)(ordered[j]);
    }
  }

  lemma OrderedIdsDistinct(rules: seq<ScheduleRule>)
    requires NoDuplicates(Ids(rules))
    ensures NoDuplicates(Ids(ByOrdinal(rules)))
  {
    SortByMapped(EvaluationRank, IdOf, rules);
    PermutationKeepsDistinct(Ids(rules), Ids(ByOrdinal(rules)));
  }

  /** With distinct ids a shadowed rule never wins for any target, so the two editor views never overlap. */
  lemma ShadowedNeverWins(rules: seq<ScheduleRule>, isActive: RuleActivePredicate, i: int)
    requires NoDuplicates(Ids(rules))
    requires RespectsWindows(isActive)
    requires IsShadowed(ByOrdinal(rules), i)
    ensures !WinsSomewhere(rules, isActive, ByOrdinal(rules)[i].id)
  {
    hide WinnerFor, ByOrdinal, Shadows;
    var ordered := ByOrdinal(rules);
    var j :| 0 <= j < i && Shadows(ordered[j], ordered[i]);
    forall t | 0 <= t < |ordered| ensures WinnerFor(rules, ordered[t], isActive) != Some(ordered[i].id) {
      ShadowedLoses(rules, isActive, i, j, ordered[t]);
    }
  }

  lemma ShadowedLoses(rules: seq<ScheduleRule>, isActive: RuleActivePredicate, i: int, j: int, target: ScheduleRule)
    requires NoDuplicates(Ids(rules)) && RespectsWindows(isActive)
    requires 0 <= j < i < |ByOrdinal(rules)| && Shadows(ByOrdinal(rules)[j], ByOrdinal(rules)[i])
    ensures WinnerFor(rules, target, isActive) != Some(ByOrdinal(rules)[i].id)
  {
    var ordered := ByOrdinal(rules);
    OrderedIdsDistinct(rules);
    assert isActive(ordered[i]) ==> isActive(ordered[j]);
    assert TargetSupersetOf(ordered[i], target) ==> TargetSupersetOf(ordered[j], target);
    hide WinnerFor, ByOrdinal, Shadows, TargetSupersetOf, RespectsWindows;
    if WinnerFor(rules, target, isActive).Some? {
      var k := WinnerIsFirst(rules, target, isActive);
      assert Ids(ordered)[k] == ordered[k].id && Ids(ordered)[i] == ordered[i].id;
    }
  }

  /** Whatever the two editor views return, they share no rule. */
  lemma ViewsDisjoint(
    rules: seq<ScheduleRule>, isActive: RuleActivePredicate,
    positions: seq<int>, findings: seq<ShadowFinding>, winners: seq<int>)
    requires NoDuplicates(Ids(rules)) && RespectsWindows(isActive)
    requires FindingsUpTo(ByOrdinal(rules), |ByOrdinal(rules)|, positions, findings)
    requires forall id :: id in winners <==> WinsSomewhere(rules, isActive, id)
    ensures forall f | 0 <= f < |findings| :: findings[f].shadowedId !in winners
  {
    hide ByOrdinal, WinsSomewhere;
    forall f | 0 <= f < |findings| ensures findings[f].shadowedId !in winners {
      assert positions[f] in positions;
      ShadowedNeverWins(rules, isActive, positions[f]);
    }
  }

  // ----- the same answers without sorting -----

  /** Lower ordinal first, and the lower id between equal ordinals. */
  predicate Precedes(a: ScheduleRule, b: ScheduleRule) {
    a.ordinal < b.ordinal || (a.ordinal == b.ordinal && a.id < b.id)
  }

  lemma OrderedPrecedes(rules: seq<ScheduleRule>, i: nat, j: nat)
    requires NoDuplicates(Ids(rules)) && i < j < |ByOrdinal(rules)|
    ensures Precedes(ByOrdinal(rules)[i], ByOrdinal(rules)[j])
  {
    var ordered := ByOrdinal(rules);
    OrderedIdsDistinct(rules);
    SortBySorted(EvaluationRank, rules);
    hide ByOrdinal;
    assert Ids(ordered)[i] == ordered[i].id && Ids(ordered)[j] == ordered[j].id;
  }

  lemma OrderedMembers(rules: seq<ScheduleRule>, rule: ScheduleRule)
    ensures rule in ByOrdinal(rules) <==> rule in rules
  {
    SortByContents(EvaluationRank, rules);
  }

  /** The rule in effect is the active one that precedes every other active one. */
  lemma EarliestWins(rules: seq<ScheduleRule>, isActive: RuleActivePredicate)
    requires NoDuplicates(Ids(rules))
    ensures match ResolveEffectiveRule(rules, isActive)
            case None => forall r | r in rules :: !isActive(r)
            case Some(w) =>
              w in rules && isActive(w) && forall r | r in rules && isActive(r) && r != w :: Precedes(w, r)
  {
    var ordered := ByOrdinal(rules);
    FindMeaning(isActive, ordered);
    if ResolveEffectiveRule(rules, isActive).None? {
      forall r | r in rules ensures !isActive(r) {
        OrderedMembers(rules, r);
      }
    } else {
      var k := FindPosition(isActive, ordered);
      OrderedMembers(rules, ordered[k]);
      forall r | r in rules && isActive(r) && r != ordered[k] ensures Precedes(ordered[k], r) {
        OrderedMembers(rules, r);
        var j :| 0 <= j < |ordered| && ordered[j] == r;
        OrderedPrecedes(rules, k, j);
      }
    }
  }

  /** `e` is in force over everything `r` is about: the same target, or all access. */
  predicate CoversTarget(e: ScheduleRule, r: ScheduleRule) {
    match e.targetKind
    case Overall => true
    case Activity => r.targetKind == Activity && r.targetId == e.targetId
    case Group => r.targetKind == Group && r.targetId == e.targetId
  }

  /** Rules that differ at most in id, ordinal, target and action. */
  predicate SameTimes(a: ScheduleRule, b: ScheduleRule) {
    b.(id := a.id, ordinal := a.ordinal, targetKind := a.targetKind, targetId := a.targetId, action := a.action) == a
  }

  ghost predicate PlainlyShadows(rules: seq<ScheduleRule>, e: ScheduleRule, r: ScheduleRule) {
    e in rules && Precedes(e, r) && CoversTarget(e, r) && SameTimes(e, r)
  }

  /**
   * A rule is reported exactly when some rule preceding it covers its target at the same
   * times, and it is reported against the first such rule.
   */
  lemma ReportedExactly(rules: seq<ScheduleRule>, positions: seq<int>, findings: seq<ShadowFinding>, r: ScheduleRule)
    requires NoDuplicates(Ids(rules)) && r in rules
    requires FindingsUpTo(ByOrdinal(rules), |ByOrdinal(rules)|, positions, findings)
    ensures (exists f :: 0 <= f < |findings| && findings[f].shadowedId == r.id)
            <==> exists e :: PlainlyShadows(rules, e, r)
    ensures forall f | 0 <= f < |findings| && findings[f].shadowedId == r.id ::
              exists e :: PlainlyShadows(rules, e, r) && findings[f].shadowedById == e.id
                          && forall other | PlainlyShadows(rules, other, r) && other != e :: Precedes(e, other)
  {
    var ordered := ByOrdinal(rules);
    OrderedMembers(rules, r);
    OrderedIdsDistinct(rules);
    hide ByOrdinal;
    var i :| 0 <= i < |ordered| && ordered[i] == r;
    forall f | 0 <= f < |findings| && findings[f].shadowedId == r.id
      ensures exists e :: PlainlyShadows(rules, e, r) && findings[f].shadowedById == e.id
                          && forall other | PlainlyShadows(rules, other, r) && other != e :: Precedes(e, other) {
      assert Reports(findings[f], ordered, positions[f]);
      var j :| IsFirstShadow(ordered, positions[f], j)
               && findings[f] == ShadowFinding(ordered[positions[f]].id, ordered[j].id);
      assert Ids(ordered)[positions[f]] == r.id && Ids(ordered)[i] == r.id;
      FirstShadowIsEarliest(rules, i, j);
    }
    if e :| PlainlyShadows(rules, e, r) {
      ShadowedHere(rules, i, e);
      assert i in positions;
      var f :| 0 <= f < |positions| && positions[f] == i;
      assert Reports(findings[f], ordered, positions[f]);
    }
  }

  lemma FirstShadowIsEarliest(rules: seq<ScheduleRule>, i: nat, j: nat)
    requires NoDuplicates(Ids(rules)) && IsFirstShadow(ByOrdinal(rules), i, j)
    ensures var ordered := ByOrdinal(rules);
            && PlainlyShadows(rules, ordered[j], ordered[i])
            && forall other | PlainlyShadows(rules, other, ordered[i]) && other != ordered[j] ::
                 Precedes(ordered[j], other)
  {
    var ordered := ByOrdinal(rules);
    hide ByOrdinal;
    OrderedMembers(rules, ordered[j]);
    OrderedPrecedes(rules, j, i);
    forall other | PlainlyShadows(rules, other, ordered[i]) && other != ordered[j] ensures Precedes(ordered[j], other) {
      var k := PositionBefore(rules, other, i);
      OrderedPrecedes(rules, j, k);
    }
  }

  /** A rule preceding another stands before it in evaluation order. */
  lemma PositionBefore(rules: seq<ScheduleRule>, e: ScheduleRule, i: nat) returns (k: nat)
    requires NoDuplicates(Ids(rules)) && i < |ByOrdinal(rules)| && e in rules && Precedes(e, ByOrdinal(rules)[i])
    ensures k < i && ByOrdinal(rules)[k] == e
  {
    var ordered := ByOrdinal(rules);
    OrderedMembers(rules, e);
    hide ByOrdinal;
    k :| 0 <= k < |ordered| && ordered[k] == e;
    if k > i {
      OrderedPrecedes(rules, i, k);
    }
  }

  lemma ShadowedHere(rules: seq<ScheduleRule>, i: nat, e: ScheduleRule)
    requires NoDuplicates(Ids(rules)) && i < |ByOrdinal(rules)| && PlainlyShadows(rules, e, ByOrdinal(rules)[i])
    ensures IsShadowed(ByOrdinal(rules), i)
  {
    var k := PositionBefore(rules, e, i);
  }

  /** An id is in effect exactly when its rule is, for some rule's target, the first active one covering it. */
  lemma InEffectExactly(rules: seq<ScheduleRule>, isActive: RuleActivePredicate, id: int)
    requires NoDuplicates(Ids(rules))
    ensures WinsSomewhere(rules, isActive, id)
            <==> exists t, w :: t in rules && FirstCovering(rules, isActive, t, w) && w.id == id
  {
    hide WinnerFor, ByOrdinal, FirstCovering;
    var ordered := ByOrdinal(rules);
    if WinsSomewhere(rules, isActive, id) {
      var k :| 0 <= k < |ordered| && WinnerFor(rules, ordered[k], isActive) == Some(id);
      OrderedMembers(rules, ordered[k]);
      WinnerPlainly(rules, isActive, ordered[k], id);
    }
    if t, w :| t in rules && FirstCovering(rules, isActive, t, w) && w.id == id {
      OrderedMembers(rules, t);
      WinnerPlainly(rules, isActive, t, id);
      var k :| 0 <= k < |ordered| && ordered[k] == t;
    }
  }

  /** Active, covering the target, and preceding every other such rule. */
  ghost predicate FirstCovering(
    rules: seq<ScheduleRule>, isActive: RuleActivePredicate, target: ScheduleRule, w: ScheduleRule)
  {
    && w in rules && isActive(w) && CoversTarget(w, target)
    && forall r | r in rules && isActive(r) && CoversTarget(r, target) && r != w :: Precedes(w, r)
  }

  lemma WinnerPlainly(rules: seq<ScheduleRule>, isActive: RuleActivePredicate, target: ScheduleRule, id: int)
    requires NoDuplicates(Ids(rules))
    ensures WinnerFor(rules, target, isActive) == Some(id)
            <==> exists w :: FirstCovering(rules, isActive, target, w) && w.id == id
  {
    var ordered := ByOrdinal(rules);
    if WinnerFor(rules, target, isActive).Some? {
      var k := WinnerIsFirst(rules, target, isActive);
      OrderedMembers(rules, ordered[k]);
      forall r | r in rules && isActive(r) && CoversTarget(r, target) && r != ordered[k]
        ensures Precedes(ordered[k], r) {
        OrderedMembers(rules, r);
        var j :| 0 <= j < |ordered| && ordered[j] == r;
        OrderedPrecedes(rules, k, j);
      }
      assert FirstCovering(rules, isActive, target, ordered[k]);
    }
    if w :| FirstCovering(rules, isActive, target, w) && w.id == id {
      SomeWinner(rules, isActive, target, w);
      var k := WinnerIsFirst(rules, target, isActive);
      OrderedMembers(rules, ordered[k]);
      if ordered[k] != w {
        assert Precedes(w, ordered[k]);
        var j := PositionBefore(rules, w, k);
      }
    }
  }

  lemma SomeWinner(rules: seq<ScheduleRule>, isActive: RuleActivePredicate, target: ScheduleRule, w: ScheduleRule)
    requires w in rules && isActive(w) && CoversTarget(w, target)
    ensures WinnerFor(rules, target, isActive).Some?
  {
    var ordered := ByOrdinal(rules);
    var covering := Filter(Covering(target), ordered);
    OrderedMembers(rules, w);
    FilterMember(Covering(target), ordered, w);
    OrderedMembers(covering, w);
    FindMeaning(isActive, ByOrdinal(covering));
  }
}
