// The effective policy of a user on a day, and how it relates to "right now".

module EffectivePolicy {
  import opened Common
  import opened Calendar
  import opened BudgetWindow
  import opened SchedulePrecedence
  import opened Windows
  import opened Resolve
  import opened Budgets

  datatype Policy = Policy(
    date: Date,
    allowedWindows: seq<AllowedWindow>,
    overallSeconds: Option<int>,
    perActivitySeconds: seq<ActivityQuota>,
    activeRules: seq<ActiveRule>)

  function DayStart(zone: Zone, date: Date): int
    requires ValidDate(date)
  {
    LocalMidnight(zone, date)
  }

  function DayEnd(zone: Zone, date: Date): int
    requires ValidDate(date)
  {
    LocalMidnight(zone, AddDays(date, 1))
  }

  /** The overall rules the resolver sweeps for a date. */
  function DayOverallRules(
    schedules: seq<ScheduleRule>, exceptions: seq<ExceptionInput>, zone: Zone, date: Date): seq<ActiveRule>
    requires ValidDate(date)
  {
    OverallRulesOn(schedules, exceptions, IsoWeekday(date), DayStart(zone, date), DayEnd(zone, date))
  }

  /** The rows of a target's daily slot that are in play on a weekday. */
  function TargetRowsOn(budgets: seq<BudgetInput>, weekday: int, target: Target): seq<BudgetInput>
    requires 1 <= weekday <= 7
  {
    InPlay(TargetRows(target, budgets), weekday)
  }

  /**
   * One quota per activity or group with rows in play that weekday, in target order,
   * worth those rows plus every live grant of the same target that overlaps the day.
   */
  ghost predicate DayQuotas(
    quotas: seq<ActivityQuota>, budgets: seq<BudgetInput>, weekday: int,
    grants: seq<GrantInput>, dayStart: int, dayEnd: int)
    requires 1 <= weekday <= 7
  {
    && (forall i, j | 0 <= i < j < |quotas| :: RankLess(QuotaRank(quotas[i]), QuotaRank(quotas[j])))
    && (forall i | 0 <= i < |quotas| ::
          var target := quotas[i].target;
          && !target.scope.Overall?
          && TargetRowsOn(budgets, weekday, target) != []
          && quotas[i].seconds == SumAllowed(TargetRowsOn(budgets, weekday, target))
                                  + SumGrants(grants, GrantFor(target), dayStart, dayEnd))
    && (forall target: Target | !target.scope.Overall? && TargetRowsOn(budgets, weekday, target) != [] ::
          exists i | 0 <= i < |quotas| :: quotas[i].target == target)
  }

  /** The overall allowance of a weekday plus the live overall grants, or none without a row in play. */
  function DayOverallSeconds(
    budgets: seq<BudgetInput>, weekday: int, grants: seq<GrantInput>, dayStart: int, dayEnd: int): Option<int>
    requires 1 <= weekday <= 7
  {
    var rows := InPlay(Filter(InSlot(OVERALL_DAILY_SLOT), budgets), weekday);
    if rows == [] then None else Some(SumAllowed(rows) + SumGrants(grants, OverallGrant, dayStart, dayEnd))
  }

  /** The day's allowances: reduce to the rows in play, then fold in the grants. */
  method ResolveAllowances(
    budgets: seq<BudgetInput>, weekday: int, grants: seq<GrantInput>, dayStart: int, dayEnd: int)
    returns (overallSeconds: Option<int>, perActivitySeconds: seq<ActivityQuota>)
    requires 1 <= weekday <= 7 && TargetCoherent(budgets)
    ensures overallSeconds == DayOverallSeconds(budgets, weekday, grants, dayStart, dayEnd)
    ensures DayQuotas(perActivitySeconds, budgets, weekday, grants, dayStart, dayEnd)
  {
    var budgetsForDay := SelectBudgetsForWeekday(budgets, weekday);
    SelectedCoherent(budgets, budgetsForDay, weekday);
    OverallRowsAreOneSlot(budgetsForDay);
    overallSeconds := ResolveOverallSeconds(budgetsForDay, grants, dayStart, dayEnd);
    perActivitySeconds := BuildActivityQuotas(budgetsForDay, grants, dayStart, dayEnd);
    QuotasOfSelection(perActivitySeconds, budgetsForDay, budgets, weekday, grants, dayStart, dayEnd);
  }

  /** What applies on the given local date. */
  method ResolvePolicy(
    date: Date, zone: Zone, schedules: seq<ScheduleRule>, budgets: seq<BudgetInput>,
    grants: seq<GrantInput>, exceptions: seq<ExceptionInput>)
    returns (policy: Policy)
    requires ValidDate(date) && TargetCoherent(budgets)
    ensures policy.date == date
    ensures policy.allowedWindows == AllowedRuns(DayOverallRules(schedules, exceptions, zone, date))
    ensures policy.activeRules == ActiveRulesOn(schedules, IsoWeekday(date), DayStart(zone, date), DayEnd(zone, date))
    ensures policy.overallSeconds
            == DayOverallSeconds(budgets, IsoWeekday(date), grants, DayStart(zone, date), DayEnd(zone, date))
    ensures DayQuotas(policy.perActivitySeconds, budgets, IsoWeekday(date),
                      grants, DayStart(zone, date), DayEnd(zone, date))
  {
    var dayStart, dayEnd := DayStart(zone, date), DayEnd(zone, date);
    var weekday := IsoWeekday(date);
    hide IsoWeekday, DayStart, DayEnd, DayQuotas, DayOverallSeconds;
    hide AllowedRuns, ActiveRulesOn, ExceptionRulesOn, Filter;
    var activeRules := ActiveRulesOn(schedules, weekday, dayStart, dayEnd);
    var exceptionRules := ExceptionRulesOn(exceptions, dayStart, dayEnd);
    var allowedWindows := ResolveAllowedWindows(Filter(IsOverall, exceptionRules) + Filter(IsOverall, activeRules));
    var overallSeconds, perActivitySeconds := ResolveAllowances(budgets, weekday, grants, dayStart, dayEnd);
    policy := Policy(date, allowedWindows, overallSeconds, perActivitySeconds, activeRules);
  }

  lemma QuotasOfSelection(
    quotas: seq<ActivityQuota>, selected: seq<BudgetInput>, budgets: seq<BudgetInput>, weekday: int,
    grants: seq<GrantInput>, dayStart: int, dayEnd: int)
    requires 1 <= weekday <= 7
    requires forall slot :: Filter(InSlot(slot), selected) == InPlay(Filter(InSlot(slot), budgets), weekday)
    requires QuotasFor(quotas, selected, grants, dayStart, dayEnd)
    ensures DayQuotas(quotas, budgets, weekday, grants, dayStart, dayEnd)
  {
    forall target: Target
      ensures Filter(InSlot(DailySlot(target)), selected) == TargetRowsOn(budgets, weekday, target) {
    }
  }

  // ----- quotas and their source -----

  function BudgetOf(row: GatheredBudget): BudgetInput {
    row.budget
  }

  function PlainBudgets(rows: seq<GatheredBudget>): seq<BudgetInput> {
    Map(BudgetOf, rows)
  }

  lemma {:induction false} FilterBudgets(slot: Slot, rows: seq<GatheredBudget>)
    ensures Filter(InSlot(slot), PlainBudgets(rows)) == PlainBudgets(Filter(GatheredIn(slot), rows))
  {
    if rows != [] {
      FilterBudgets(slot, rows[1..]);
      assert rows == [rows[0]] + rows[1..];
      MapCons(BudgetOf, rows[0], rows[1..]);
      MapCons(BudgetOf, rows[0], Filter(GatheredIn(slot), rows[1..]));
      FilterCons(InSlot(slot), rows[0].budget, PlainBudgets(rows[1..]));
      FilterCons(GatheredIn(slot), rows[0], rows[1..]);
    }
  }

  /**
   * Over merged budgets, each quota's seconds come from the one source of its slot (own
   * rows, else the first group defining it), and the quota exists exactly when that
   * source has a row in play on the weekday.
   */
  lemma QuotasHaveOneSource(
    quotas: seq<ActivityQuota>, merged: seq<GatheredBudget>, own: seq<BudgetInput>, groups: seq<UserGroup>,
    weekday: int, grants: seq<GrantInput>, dayStart: int, dayEnd: int, target: Target)
    requires 1 <= weekday <= 7 && !target.scope.Overall?
    requires forall slot :: Filter(GatheredIn(slot), merged) == SlotRows(slot, own, groups)
    requires DayQuotas(quotas, PlainBudgets(merged), weekday, grants, dayStart, dayEnd)
    ensures var rows := InPlay(PlainBudgets(SlotRows(DailySlot(target), own, groups)), weekday);
            (rows != [] <==> exists i | 0 <= i < |quotas| :: quotas[i].target == target)
            && forall i | 0 <= i < |quotas| && quotas[i].target == target ::
                 quotas[i].seconds == SumAllowed(rows) + SumGrants(grants, GrantFor(target), dayStart, dayEnd)
  {
    FilterBudgets(DailySlot(target), merged);
  }

  /** All rows of a slot share one source, and it is the user's whenever the user has such a row. */
  lemma {:induction false} OneSourcePerSlot(slot: Slot, own: seq<BudgetInput>, groups: seq<UserGroup>)
    ensures forall i, j | 0 <= i < |SlotRows(slot, own, groups)| && 0 <= j < |SlotRows(slot, own, groups)| ::
              SlotRows(slot, own, groups)[i].source == SlotRows(slot, own, groups)[j].source
    ensures Defines(slot, own) ==> PlainBudgets(SlotRows(slot, own, groups)) == Filter(InSlot(slot), own)
    ensures SlotRows(slot, own, groups) == [] <==>
            !Defines(slot, own) && forall g | 0 <= g < |groups| :: !Defines(slot, groups[g].budgets)
  {
    DefinesFilter(slot, own);
    GroupRowsOneSource(slot, groups);
  }

  lemma {:induction false} GroupRowsOneSource(slot: Slot, groups: seq<UserGroup>)
    ensures forall i, j | 0 <= i < |GroupRows(slot, groups)| && 0 <= j < |GroupRows(slot, groups)| ::
              GroupRows(slot, groups)[i].source == GroupRows(slot, groups)[j].source
    ensures GroupRows(slot, groups) == [] <==> forall g | 0 <= g < |groups| :: !Defines(slot, groups[g].budgets)
  {
    if groups != [] {
      GroupRowsOneSource(slot, groups[1..]);
      DefinesFilter(slot, groups[0].budgets);
      var rest := groups[1..];
      assert forall g | 0 <= g < |rest| :: rest[g] == groups[g + 1];
      assert forall g | 1 <= g < |groups| :: groups[g] == rest[g - 1];
    }
  }

  /** With no grants the day's overall figure is the weekday baseline that the time-limit push reads. */
  method OverallWithoutGrants(budgets: seq<BudgetInput>, weekday: int, dayStart: int, dayEnd: int)
    returns (pushed: Option<int>, resolved: Option<int>)
    requires 1 <= weekday <= 7 && TargetCoherent(budgets)
    ensures pushed == resolved == DayOverallSeconds(budgets, weekday, [], dayStart, dayEnd)
  {
    pushed := OverallDailySecondsForWeekday(budgets, weekday);
    var quotas;
    resolved, quotas := ResolveAllowances(budgets, weekday, [], dayStart, dayEnd);
  }

  // ----- the day resolver refines the instant resolver -----

  /** The storage rule for recurrence minutes: both or neither, and a nonempty window inside the day. */
  ghost predicate MinutesCoherent(rule: ScheduleRule) {
    && (rule.recurrenceStartMinute.Some? <==> rule.recurrenceEndMinute.Some?)
    && (rule.recurrenceStartMinute.Some? ==>
          0 <= rule.recurrenceStartMinute.value < rule.recurrenceEndMinute.value <= MINUTES_PER_DAY)
  }

  /** No effective bound falls strictly inside the day. */
  ghost predicate BoundsOffDay(rule: ScheduleRule, dayStart: int, dayEnd: int) {
    && (rule.effectiveFrom.Some? ==> !(dayStart < rule.effectiveFrom.value < dayEnd))
    && (rule.effectiveTo.Some? ==> !(dayStart < rule.effectiveTo.value < dayEnd))
  }

  /** The day-granular date gate is exact at every instant of the day precisely when no bound falls inside it. */
  lemma DateGateExact(rule: ScheduleRule, dayStart: int, dayEnd: int)
    requires dayStart < dayEnd
    requires rule.effectiveFrom.Some? && rule.effectiveTo.Some? ==> rule.effectiveFrom.value < rule.effectiveTo.value
    ensures (forall at | dayStart <= at < dayEnd :: DateGateAt(rule, at) == DateGateOnDay(rule, dayStart, dayEnd))
            <==> BoundsOffDay(rule, dayStart, dayEnd)
  {
    if rule.effectiveFrom.Some? && dayStart < rule.effectiveFrom.value < dayEnd {
      assert !DateGateAt(rule, dayStart) && DateGateOnDay(rule, dayStart, dayEnd);
    }
    if rule.effectiveTo.Some? && dayStart < rule.effectiveTo.value < dayEnd {
      assert !DateGateAt(rule, rule.effectiveTo.value) && DateGateOnDay(rule, dayStart, dayEnd);
    }
  }

  /** The rule has no dates, or the instant is in the day and no effective bound falls inside the day. */
  ghost predicate SameGate(rule: ScheduleRule, at: int, dayStart: int, dayEnd: int) {
    || (rule.effectiveFrom.None? && rule.effectiveTo.None?)
    || (dayStart <= at < dayEnd && BoundsOffDay(rule, dayStart, dayEnd))
  }

  /** A rule is active at an instant exactly when it applies that day and covers the local minute. */
  lemma RuleActiveOnDay(rule: ScheduleRule, at: int, zone: Zone, dayStart: int, dayEnd: int)
    requires MinutesCoherent(rule) && SameGate(rule, at, dayStart, dayEnd)
    ensures IsRuleActiveAt(rule, at, zone)
            <==> AppliesOnDay(rule, IsoWeekday(LocalCalendarDate(zone, at)), dayStart, dayEnd)
                 && Covers(Project(rule), LocalTimeOfDayMinutes(zone, at))
  {
    hide MaskCovers, LocalCalendarDate, IsoWeekday;
  }

  function IsOverallSchedule(rule: ScheduleRule): bool {
    rule.targetKind.Overall?
  }

  function ActionOf(rule: Option<ScheduleRule>): Option<Action> {
    if rule.Some? then Some(rule.value.action) else None
  }

  function ActionOfActive(rule: Option<ActiveRule>): Option<Action> {
    if rule.Some? then Some(rule.value.action) else None
  }

  /** Precondition shared by the per-day lemmas: every rule reads the instant as the day does. */
  ghost predicate Agrees(
    rules: seq<ScheduleRule>, isActive: RuleActivePredicate, applies: ScheduleRule -> bool, minute: int)
  {
    forall i | 0 <= i < |rules| :: isActive(rules[i]) <==> applies(rules[i]) && Covers(Project(rules[i]), minute)
  }

  lemma {:induction false} SameFirstAction(
    rules: seq<ScheduleRule>, isActive: RuleActivePredicate, applies: ScheduleRule -> bool, minute: int)
    requires Agrees(rules, isActive, applies, minute)
    ensures ActionOfActive(Find(CoveringMinute(minute), Filter(IsOverall, Map(Project, Filter(applies, rules)))))
            == ActionOf(Find(isActive, Filter(IsOverallSchedule, rules)))
  {
    if rules != [] {
      var head, rest := rules[0], rules[1..];
      assert rules == [head] + rest;
      SameFirstAction(rest, isActive, applies, minute);
      var applied, overall := Filter(applies, rest), Filter(IsOverallSchedule, rest);
      assert [] + applied == applied && [] + overall == overall;
      assert [] + Filter(IsOverall, Map(Project, applied)) == Filter(IsOverall, Map(Project, applied));
      FilterCons(applies, head, rest);
      FilterCons(IsOverallSchedule, head, rest);
      MapCons(Project, head, Filter(applies, rest));
      FilterCons(IsOverall, Project(head), Map(Project, Filter(applies, rest)));
      FindCons(CoveringMinute(minute), Project(head), Filter(IsOverall, Map(Project, Filter(applies, rest))));
      FindCons(isActive, head, Filter(IsOverallSchedule, rest));
    }
  }

  ghost predicate ExtendActive(rules: seq<ScheduleRule>, isActive: RuleActivePredicate) {
    exists i | 0 <= i < |rules| :: IsOverallSchedule(rules[i]) && rules[i].action.Extend? && isActive(rules[i])
  }

  lemma SameExtension(
    rules: seq<ScheduleRule>, isActive: RuleActivePredicate, applies: ScheduleRule -> bool, minute: int)
    requires Agrees(rules, isActive, applies, minute)
    ensures Extended(Filter(IsOverall, Map(Project, Filter(applies, rules))), minute) <==> ExtendActive(rules, isActive)
  {
    var applied := Filter(applies, rules);
    var projected := Map(Project, applied);
    var overall := Filter(IsOverall, projected);
    if ExtendActive(rules, isActive) {
      var i :| 0 <= i < |rules| && IsOverallSchedule(rules[i]) && rules[i].action.Extend? && isActive(rules[i]);
      FilterMember(applies, rules, rules[i]);
      var j :| 0 <= j < |applied| && applied[j] == rules[i];
      FilterMember(IsOverall, projected, projected[j]);
      var k :| 0 <= k < |overall| && overall[k] == projected[j];
      assert overall[k].action.Extend? && Covers(overall[k], minute);
    }
    if Extended(overall, minute) {
      var k :| 0 <= k < |overall| && overall[k].action.Extend? && Covers(overall[k], minute);
      FilterMember(IsOverall, projected, overall[k]);
      var j :| 0 <= j < |projected| && projected[j] == overall[k];
      FilterMember(applies, rules, applied[j]);
      var i :| 0 <= i < |rules| && rules[i] == applied[j];
      assert isActive(rules[i]);
    }
  }

  /** What the instant resolver says about access right now, extensions included. */
  ghost predicate OpenAt(schedules: seq<ScheduleRule>, at: int, zone: Zone) {
    !ResolveEffectiveAction(Filter(IsOverallSchedule, schedules), RuleActiveAt(at, zone), Allow).Deny?
    || ExtendActive(schedules, RuleActiveAt(at, zone))
  }

  lemma SomeExtendActive(schedules: seq<ScheduleRule>, isActive: RuleActivePredicate)
    ensures ExtendActive(ByOrdinal(schedules), isActive) <==> ExtendActive(schedules, isActive)
  {
    SortByContents(EvaluationRank, schedules);
    var ordered := ByOrdinal(schedules);
    forall i | 0 <= i < |schedules| ensures schedules[i] in ordered {
      assert schedules[i] in schedules;
    }
    forall i | 0 <= i < |ordered| ensures ordered[i] in schedules {
      assert ordered[i] in ordered;
    }
  }

  lemma DayAgrees(schedules: seq<ScheduleRule>, at: int, zone: Zone, dayStart: int, dayEnd: int)
    requires forall i | 0 <= i < |schedules| ::
               MinutesCoherent(schedules[i]) && SameGate(schedules[i], at, dayStart, dayEnd)
    ensures Agrees(ByOrdinal(schedules), RuleActiveAt(at, zone),
                   AppliesOn(IsoWeekday(LocalCalendarDate(zone, at)), dayStart, dayEnd),
                   LocalTimeOfDayMinutes(zone, at))
  {
    hide IsoWeekday, LocalCalendarDate, LocalTimeOfDayMinutes, IsRuleActiveAt;
    var ordered := ByOrdinal(schedules);
    SortByContents(EvaluationRank, schedules);
    forall i | 0 <= i < |ordered| ensures ordered[i] in schedules {
      assert ordered[i] in ordered;
    }
    forall i | 0 <= i < |ordered|
      ensures RuleActiveAt(at, zone)(ordered[i])
              <==> AppliesOn(IsoWeekday(LocalCalendarDate(zone, at)), dayStart, dayEnd)(ordered[i])
                   && Covers(Project(ordered[i]), LocalTimeOfDayMinutes(zone, at))
    {
      RuleActiveOnDay(ordered[i], at, zone, dayStart, dayEnd);
    }
  }

  /** The minute reading of a day's overall rules, without exceptions, is the instant resolver's. */
  lemma DayMeaningIsInstantMeaning(
    schedules: seq<ScheduleRule>, at: int, zone: Zone, weekday: int, dayStart: int, dayEnd: int)
    requires forall i | 0 <= i < |schedules| ::
               MinutesCoherent(schedules[i]) && SameGate(schedules[i], at, dayStart, dayEnd)
    requires weekday == IsoWeekday(LocalCalendarDate(zone, at))
    ensures MinuteAllowed(OverallRulesOn(schedules, [], weekday, dayStart, dayEnd), LocalTimeOfDayMinutes(zone, at))
            <==> OpenAt(schedules, at, zone)
  {
    hide IsoWeekday, LocalCalendarDate, LocalTimeOfDayMinutes, IsRuleActiveAt, Agrees, Extended, ExtendActive;
    var ordered := ByOrdinal(schedules);
    var isActive, applies := RuleActiveAt(at, zone), AppliesOn(weekday, dayStart, dayEnd);
    var minute := LocalTimeOfDayMinutes(zone, at);
    DayAgrees(schedules, at, zone, dayStart, dayEnd);
    SameFirstAction(ordered, isActive, applies, minute);
    SameExtension(ordered, isActive, applies, minute);
    SomeExtendActive(schedules, isActive);
    FilterSort(EvaluationRank, IsOverallSchedule, schedules);
    var overall := Filter(IsOverall, ActiveRulesOn(schedules, weekday, dayStart, dayEnd));
    assert Filter(IsOverall, ExceptionRulesOn([], dayStart, dayEnd)) == [];
    assert OverallRulesOn(schedules, [], weekday, dayStart, dayEnd) == overall;
  }

  lemma {:induction false} ProjectedWithinDay(schedules: seq<ScheduleRule>, weekday: int, dayStart: int, dayEnd: int)
    requires 1 <= weekday <= 7
    requires forall i | 0 <= i < |schedules| :: MinutesCoherent(schedules[i])
    ensures WithinDay(OverallRulesOn(schedules, [], weekday, dayStart, dayEnd))
  {
    var ordered := ByOrdinal(schedules);
    var applied := Filter(AppliesOn(weekday, dayStart, dayEnd), ordered);
    var projected := Map(Project, applied);
    var overall := Filter(IsOverall, projected);
    SortByContents(EvaluationRank, schedules);
    assert OverallRulesOn(schedules, [], weekday, dayStart, dayEnd) == overall;
    forall k | 0 <= k < |overall|
      ensures 0 <= overall[k].startMinute <= MINUTES_PER_DAY && 0 <= overall[k].endMinute <= MINUTES_PER_DAY
    {
      FilterMember(IsOverall, projected, overall[k]);
      var j :| 0 <= j < |projected| && projected[j] == overall[k];
      FilterMember(AppliesOn(weekday, dayStart, dayEnd), ordered, applied[j]);
      assert applied[j] in schedules;
    }
  }

  /** No effective bound falls strictly inside the local day of `at`. */
  ghost predicate DatesOnDayEdges(rule: ScheduleRule, at: int, zone: Zone) {
    var date := LocalCalendarDate(zone, at);
    BoundsOffDay(rule, DayStart(zone, date), DayEnd(zone, date))
  }

  ghost predicate AllUndated(schedules: seq<ScheduleRule>) {
    forall i | 0 <= i < |schedules| :: schedules[i].effectiveFrom.None? && schedules[i].effectiveTo.None?
  }

  /**
   * The windows resolved for an instant's local date answer "is access open now?" exactly
   * as the instant resolver does: at every instant in every zone for rules without dates,
   * and for dated rules at every instant that its day's midnights do not misplace.
   */
  lemma DayRefinesInstant(schedules: seq<ScheduleRule>, at: int, zone: Zone)
    requires forall i | 0 <= i < |schedules| :: MinutesCoherent(schedules[i]) && DatesOnDayEdges(schedules[i], at, zone)
    requires AllUndated(schedules) || InPlace(Daily, at, zone)
    ensures var windows := AllowedRuns(DayOverallRules(schedules, [], zone, LocalCalendarDate(zone, at)));
            Allows(windows, LocalTimeOfDayMinutes(zone, at)) <==> OpenAt(schedules, at, zone)
  {
    var date := LocalCalendarDate(zone, at);
    if !AllUndated(schedules) {
      DayHoldsInstant(at, zone);
    }
    hide LocalMidnight, IsoWeekday, LocalCalendarDate, LocalTimeOfDayMinutes, LocalDay;
    hide OpenAt, MinuteAllowed, AllowedRuns;
    var dayStart, dayEnd := DayStart(zone, date), DayEnd(zone, date);
    DayMeaningIsInstantMeaning(schedules, at, zone, IsoWeekday(date), dayStart, dayEnd);
    ProjectedWithinDay(schedules, IsoWeekday(date), dayStart, dayEnd);
    AllowedRunsMeaning(DayOverallRules(schedules, [], zone, date), LocalTimeOfDayMinutes(zone, at));
  }

  lemma DayHoldsInstant(at: int, zone: Zone)
    requires InPlace(Daily, at, zone)
    ensures var date := LocalCalendarDate(zone, at);
            DayStart(zone, date) <= at < DayEnd(zone, date)
  {
    hide LocalMidnight, AddDays, LocalCalendarDate, InPlace;
    InPlaceIsHeld(Daily, at, zone);
  }

  // ----- the real predicate for the editor views -----

  /** The instant resolver depends on a rule's window only, so a shadowed rule never wins at any instant in any zone. */
  lemma ResolverRespectsWindows(at: int, zone: Zone)
    ensures RespectsWindows(RuleActiveAt(at, zone))
  {
  }

  lemma ShadowedNeverWinsNow(rules: seq<ScheduleRule>, i: int, at: int, zone: Zone)
    requires NoDuplicates(Ids(rules)) && IsShadowed(ByOrdinal(rules), i)
    ensures !WinsSomewhere(rules, RuleActiveAt(at, zone), ByOrdinal(rules)[i].id)
  {
    ResolverRespectsWindows(at, zone);
    ShadowedNeverWins(rules, RuleActiveAt(at, zone), i);
  }
}
