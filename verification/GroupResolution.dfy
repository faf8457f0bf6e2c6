// A user's own schedule rules merged with those of the groups the user belongs to.

module GroupResolution {
  import opened Common
  import opened SchedulePrecedence

  /** A group and its stored schedules. */
  datatype ScheduleGroup = ScheduleGroup(id: int, schedules: seq<ScheduleRule>)

  datatype GatheredRule = GatheredRule(rule: ScheduleRule, source: RuleSource)

  function Tag(source: RuleSource): ScheduleRule -> GatheredRule {
    rule => GatheredRule(rule, source)
  }

  /** Each group's schedules in evaluation order, groups in the given (ascending id) order. */
  function Inherited(groups: seq<ScheduleGroup>): seq<GatheredRule> {
    if groups == [] then []
    else Map(Tag(FromGroup(groups[0].id)), ByOrdinal(groups[0].schedules)) + Inherited(groups[1..])
  }

  function Renumbered(gathered: GatheredRule, ordinal: int): GatheredRule {
    gathered.(rule := gathered.rule.(ordinal := ordinal))
  }

  function Resequence(rules: seq<GatheredRule>): seq<GatheredRule> {
    seq(|rules|, i requires 0 <= i < |rules| => Renumbered(rules[i], i))
  }

  /** Own rules first, then each group's, renumbered densely over the whole list. */
  function MergeScheduleRulesWithGroups(own: seq<ScheduleRule>, groups: seq<ScheduleGroup>): seq<GatheredRule> {
    Resequence(Map(Tag(FromUser), ByOrdinal(own)) + Inherited(groups))
  }

  function RuleOf(gathered: GatheredRule): ScheduleRule {
    gathered.rule
  }

  function Rules(gathered: seq<GatheredRule>): seq<ScheduleRule> {
    Map(RuleOf, gathered)
  }

  function OnRule(isActive: RuleActivePredicate): GatheredRule -> bool {
    (gathered: GatheredRule) => isActive(gathered.rule)
  }

  function Tagged(rule: Option<ScheduleRule>, source: RuleSource): Option<GatheredRule> {
    if rule.Some? then Some(GatheredRule(rule.value, source)) else None
  }

  /** The first of the groups that has an active rule supplies its own first active one. */
  function GroupWinner(groups: seq<ScheduleGroup>, isActive: RuleActivePredicate): Option<GatheredRule> {
    if groups == [] then None
    else
      var winner := ResolveEffectiveRule(groups[0].schedules, isActive);
      if winner.Some? then Tagged(winner, FromGroup(groups[0].id)) else GroupWinner(groups[1..], isActive)
  }

  /** The rule the layers decide on, and where it comes from: the user's own winner, else the groups'. */
  function LayeredWinner(
    own: seq<ScheduleRule>, groups: seq<ScheduleGroup>, isActive: RuleActivePredicate): Option<GatheredRule>
  {
    var winner := ResolveEffectiveRule(own, isActive);
    if winner.Some? then Tagged(winner, FromUser) else GroupWinner(groups, isActive)
  }

  lemma {:induction false} FindTagged(rules: seq<ScheduleRule>, source: RuleSource, isActive: RuleActivePredicate)
    ensures Find(OnRule(isActive), Map(Tag(source), rules)) == Tagged(Find(isActive, rules), source)
  {
    if rules != [] {
      FindTagged(rules[1..], source, isActive);
      assert Map(Tag(source), rules)[1..] == Map(Tag(source), rules[1..]);
    }
  }

  /** The first active rule of the gathered layers is the layered winner. */
  lemma LayersInOrder(own: seq<ScheduleRule>, groups: seq<ScheduleGroup>, isActive: RuleActivePredicate)
    ensures Find(OnRule(isActive), Map(Tag(FromUser), ByOrdinal(own)) + Inherited(groups))
            == LayeredWinner(own, groups, isActive)
  {
    FindConcat(OnRule(isActive), Map(Tag(FromUser), ByOrdinal(own)), Inherited(groups));
    FindTagged(ByOrdinal(own), FromUser, isActive);
    GroupsInOrder(groups, isActive);
  }

  lemma {:induction false} GroupsInOrder(groups: seq<ScheduleGroup>, isActive: RuleActivePredicate)
    ensures Find(OnRule(isActive), Inherited(groups)) == GroupWinner(groups, isActive)
  {
    if groups != [] {
      var first := ByOrdinal(groups[0].schedules);
      FindConcat(OnRule(isActive), Map(Tag(FromGroup(groups[0].id)), first), Inherited(groups[1..]));
      FindTagged(first, FromGroup(groups[0].id), isActive);
      GroupsInOrder(groups[1..], isActive);
    }
  }

  /** The same position is the first active one in both lists. */
  ghost predicate SameFirst(
    a: seq<GatheredRule>, b: seq<ScheduleRule>, isActive: RuleActivePredicate, k: int)
  {
    0 <= k < |a| && k < |b| && Find(OnRule(isActive), a) == Some(a[k]) && Find(isActive, b) == Some(b[k])
  }

  /** Renumbering changes no window, so the same position wins. */
  lemma {:induction false} SamePositionWins(a: seq<GatheredRule>, b: seq<ScheduleRule>, isActive: RuleActivePredicate)
    requires RespectsWindows(isActive)
    requires |a| == |b| && forall i | 0 <= i < |a| :: SameWindow(a[i].rule, b[i])
    ensures Find(OnRule(isActive), a).Some? <==> Find(isActive, b).Some?
    ensures Find(isActive, b).Some? ==> exists k :: SameFirst(a, b, isActive, k)
  {
    if a != [] {
      if isActive(b[0]) {
        assert SameFirst(a, b, isActive, 0);
      } else {
        SamePositionWins(a[1..], b[1..], isActive);
        if Find(isActive, b).Some? {
          var k :| SameFirst(a[1..], b[1..], isActive, k);
          assert SameFirst(a, b, isActive, k + 1);
        }
      }
    }
  }

  /** The rule in effect is the merged entry that stands for this winner, its source kept and its ordinal its place. */
  ghost predicate WinsAt(
    merged: seq<GatheredRule>, winner: GatheredRule, isActive: RuleActivePredicate, k: int)
  {
    && 0 <= k < |merged|
    && merged[k] == Renumbered(winner, k)
    && ResolveEffectiveRule(Rules(merged), isActive) == Some(merged[k].rule)
  }

  /**
   * The merged list is already in evaluation order whatever ids the tables share, and
   * under it a user's own active rule always beats a group's, and a lower group's a
   * higher one's: the rule in effect is the layered winner, with the winner's source.
   */
  lemma MergeKeepsPrecedence(own: seq<ScheduleRule>, groups: seq<ScheduleGroup>, isActive: RuleActivePredicate)
    requires RespectsWindows(isActive)
    ensures var merged := MergeScheduleRulesWithGroups(own, groups);
            var winner := LayeredWinner(own, groups, isActive);
            && ByOrdinal(Rules(merged)) == Rules(merged)
            && (winner.None? ==> ResolveEffectiveRule(Rules(merged), isActive).None?)
            && (winner.Some? ==> exists k :: WinsAt(merged, winner.value, isActive, k))
  {
    var layers := Map(Tag(FromUser), ByOrdinal(own)) + Inherited(groups);
    var merged := MergeScheduleRulesWithGroups(own, groups);
    DenseIsOrdered(Rules(merged));
    LayersInOrder(own, groups, isActive);
    SamePositionWins(layers, Rules(merged), isActive);
    hide LayeredWinner, ByOrdinal, Find, Inherited;
    if LayeredWinner(own, groups, isActive).Some? {
      var k :| SameFirst(layers, Rules(merged), isActive, k);
      assert WinsAt(merged, layers[k], isActive, k);
    }
  }

  // ----- the layered winner, read off the stored rows -----

  /** The rules that are active in a layer, and the one with the lowest ordinal among them. */
  ghost predicate EarliestActive(rules: seq<ScheduleRule>, isActive: RuleActivePredicate, rule: ScheduleRule) {
    rule in rules && isActive(rule) && forall r | r in rules && isActive(r) && r != rule :: Precedes(rule, r)
  }

  ghost predicate Silent(rules: seq<ScheduleRule>, isActive: RuleActivePredicate) {
    forall r | r in rules :: !isActive(r)
  }

  /** What supplies a winner: the user's own rules, or those of one group below which every layer is silent. */
  ghost predicate Supplies(
    own: seq<ScheduleRule>, groups: seq<ScheduleGroup>, isActive: RuleActivePredicate, winner: GatheredRule)
  {
    match winner.source
    case FromUser => EarliestActive(own, isActive, winner.rule)
    case FromGroup(id) =>
      && Silent(own, isActive)
      && exists g | 0 <= g < |groups| ::
           && groups[g].id == id && EarliestActive(groups[g].schedules, isActive, winner.rule)
           && forall k | 0 <= k < g :: Silent(groups[k].schedules, isActive)
  }

  ghost predicate DistinctInLayers(own: seq<ScheduleRule>, groups: seq<ScheduleGroup>) {
    NoDuplicates(Ids(own)) && forall g | 0 <= g < |groups| :: NoDuplicates(Ids(groups[g].schedules))
  }

  /**
   * The layered winner is the earliest active rule of the first layer that has one, the
   * user's own rules being the first layer and the groups following in order.
   */
  lemma LayeredPlainly(own: seq<ScheduleRule>, groups: seq<ScheduleGroup>, isActive: RuleActivePredicate)
    requires DistinctInLayers(own, groups)
    ensures match LayeredWinner(own, groups, isActive)
            case None => Silent(own, isActive) && forall g | 0 <= g < |groups| :: Silent(groups[g].schedules, isActive)
            case Some(winner) => Supplies(own, groups, isActive, winner)
  {
    EarliestWins(own, isActive);
    GroupPlainly(own, groups, isActive);
    hide ResolveEffectiveRule;
  }

  lemma {:induction false} GroupPlainly(
    own: seq<ScheduleRule>, groups: seq<ScheduleGroup>, isActive: RuleActivePredicate)
    requires forall g | 0 <= g < |groups| :: NoDuplicates(Ids(groups[g].schedules))
    ensures match GroupWinner(groups, isActive)
            case None => forall g | 0 <= g < |groups| :: Silent(groups[g].schedules, isActive)
            case Some(winner) =>
              winner.source.FromGroup? && (Silent(own, isActive) ==> Supplies(own, groups, isActive, winner))
    decreases groups
  {
    hide ResolveEffectiveRule;
    if groups != [] {
      EarliestWins(groups[0].schedules, isActive);
      var rest := groups[1..];
      GroupPlainly(own, rest, isActive);
      assert forall k | 0 <= k < |rest| :: rest[k] == groups[k + 1];
      if ResolveEffectiveRule(groups[0].schedules, isActive).None? && Silent(own, isActive)
         && GroupWinner(rest, isActive).Some? {
        var winner := GroupWinner(rest, isActive).value;
        var g :| 0 <= g < |rest| && rest[g].id == winner.source.groupId
                 && EarliestActive(rest[g].schedules, isActive, winner.rule)
                 && forall k | 0 <= k < g :: Silent(rest[k].schedules, isActive);
        assert groups[g + 1] == rest[g];
        forall k | 0 <= k < g + 1 ensures Silent(groups[k].schedules, isActive) {
          if k > 0 {
            assert groups[k] == rest[k - 1];
          }
        }
      }
    }
  }
}
