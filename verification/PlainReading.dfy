// What the day and instant resolvers answer in the stored rows' own terms: weekdays as
// sets of days, precedence as a comparison of ordinals and ids, no sorting and no search.

module PlainReading {
  import opened Common
  import opened Calendar
  import opened BudgetWindow
  import opened SchedulePrecedence
  import opened Windows
  import opened Resolve
  import opened Weekdays
  import opened GatheredExceptions
  import opened EffectivePolicy

  // ----- one rule -----

  /** The storage rule for masks: some set of days, not empty in storage, possibly empty here. */
  predicate MaskStored(rule: ScheduleRule) {
    rule.recurrenceDays.Some? ==> 0 <= rule.recurrenceDays.value <= 127
  }

  /** The rule's dates meet the day `[from, to)` with number `day`, and its days of the week include it. */
  ghost predicate OnDay(rule: ScheduleRule, day: int, from: int, to: int) {
    && (rule.effectiveFrom.Some? ==> rule.effectiveFrom.value < to)
    && (rule.effectiveTo.Some? ==> from < rule.effectiveTo.value)
    && (rule.recurrenceDays.Some? ==> InWeek(rule.recurrenceDays.value, (day + 3) % 7))
  }

  /** The rule's minutes, all day where it gives none, include this minute. */
  predicate InMinutes(rule: ScheduleRule, minute: int) {
    && (rule.recurrenceStartMinute.Some? ==> rule.recurrenceStartMinute.value <= minute)
    && (rule.recurrenceEndMinute.Some? ==> minute < rule.recurrenceEndMinute.value)
  }

  lemma OnDayReading(rule: ScheduleRule, day: int, from: int, to: int)
    requires MaskStored(rule) && day >= FIRST_MODERN_DAY
    ensures AppliesOnDay(rule, IsoWeekday(DateOfDay(day)), from, to) <==> OnDay(rule, day, from, to)
  {
    if rule.recurrenceDays.Some? {
      MaskInWeek(rule.recurrenceDays.value, day);
    }
    hide InWeek, MaskCovers, IsoWeekday;
  }

  /**
   * What a day's rules are: those on the day, each with its own id, target and action, and
   * its minutes or the whole day.
   */
  lemma RulesOnDay(schedules: seq<ScheduleRule>, day: int, from: int, to: int, active: ActiveRule)
    requires day >= FIRST_MODERN_DAY && forall rule | rule in schedules :: MaskStored(rule)
    ensures active in ActiveRulesOn(schedules, IsoWeekday(DateOfDay(day)), from, to)
            <==> exists rule :: rule in schedules && OnDay(rule, day, from, to) && Represents(active, rule)
  {
    var applies := AppliesOn(IsoWeekday(DateOfDay(day)), from, to);
    var ordered := ByOrdinal(schedules);
    var kept := Filter(applies, ordered);
    var on := ActiveRulesOn(schedules, IsoWeekday(DateOfDay(day)), from, to);
    hide OnDay, IsoWeekday, AppliesOnDay, ByOrdinal;
    if active in on {
      var k :| 0 <= k < |on| && on[k] == active;
      FilterMember(applies, ordered, kept[k]);
      OrderedMembers(schedules, kept[k]);
      OnDayReading(kept[k], day, from, to);
      assert Represents(active, kept[k]);
    }
    if rule :| rule in schedules && OnDay(rule, day, from, to) && Represents(active, rule) {
      OrderedMembers(schedules, rule);
      OnDayReading(rule, day, from, to);
      FilterMember(applies, ordered, rule);
      var k :| 0 <= k < |kept| && kept[k] == rule;
      assert on[k] == active;
    }
  }

  predicate Represents(active: ActiveRule, rule: ScheduleRule) {
    && active.id == rule.id && active.targetKind == rule.targetKind
    && active.targetId == rule.targetId && active.action == rule.action
    && active.startMinute == (if rule.recurrenceStartMinute.Some? then rule.recurrenceStartMinute.value else 0)
    && active.endMinute == (if rule.recurrenceEndMinute.Some? then rule.recurrenceEndMinute.value else 1440)
  }

  /**
   * Inside the dates, on the days of the week by the local day number, and in the minutes
   * by the local second of the day.
   */
  ghost predicate ActiveNow(rule: ScheduleRule, at: int, zone: Zone) {
    var second := at / 1000 + zone(at);
    && (rule.effectiveFrom.Some? ==> rule.effectiveFrom.value <= at)
    && (rule.effectiveTo.Some? ==> at < rule.effectiveTo.value)
    && (rule.recurrenceDays.Some? ==> InWeek(rule.recurrenceDays.value, (second / 86_400 + 3) % 7))
    && (rule.recurrenceStartMinute.Some? ==> rule.recurrenceStartMinute.value * 60 <= second % 86_400)
    && (rule.recurrenceEndMinute.Some? ==> second % 86_400 < rule.recurrenceEndMinute.value * 60)
  }

  lemma ActiveNowReading(rule: ScheduleRule, at: int, zone: Zone)
    requires MaskStored(rule) && MinutesCoherent(rule) && LocalDay(zone, at) >= FIRST_MODERN_DAY
    ensures IsRuleActiveAt(rule, at, zone) <==> ActiveNow(rule, at, zone)
  {
    DateOfLocalDay(zone, at);
    if rule.recurrenceDays.Some? {
      MaskInWeek(rule.recurrenceDays.value, LocalDay(zone, at));
    }
    assert LocalDay(zone, at) == (at / 1000 + zone(at)) / 86_400;
    if rule.recurrenceStartMinute.Some? {
      MinuteReading(zone, at, rule.recurrenceStartMinute.value);
      MinuteReading(zone, at, rule.recurrenceEndMinute.value);
    }
    hide InWeek, MaskCovers, IsoWeekday, LocalCalendarDate, LocalTimeOfDayMinutes, LocalDay;
  }

  lemma MinuteReading(zone: Zone, at: int, minute: int)
    ensures minute <= LocalTimeOfDayMinutes(zone, at) <==> minute * 60 <= (at / 1000 + zone(at)) % 86_400
  {
    var second := WallSecond(zone, at) % SECONDS_PER_DAY;
    assert minute <= second / 60 <==> minute * 60 <= second;
  }

  lemma DateOfLocalDay(zone: Zone, at: int)
    ensures LocalCalendarDate(zone, at) == DateOfDay(LocalDay(zone, at))
  {
  }

  // ----- all rules -----

  ghost predicate OpensOrCloses(rule: ScheduleRule, day: int, from: int, to: int, minute: int) {
    rule.targetKind.Overall? && OnDay(rule, day, from, to) && InMinutes(rule, minute)
  }

  /** Some deny applies to the minute and precedes every other rule that does. */
  ghost predicate DeniedBy(
    schedules: seq<ScheduleRule>, day: int, from: int, to: int, minute: int, deny: ScheduleRule)
  {
    && deny in schedules && deny.action.Deny? && OpensOrCloses(deny, day, from, to, minute)
    && forall r | r in schedules && OpensOrCloses(r, day, from, to, minute) && r != deny :: Precedes(deny, r)
  }

  ghost predicate ExtendedBy(
    schedules: seq<ScheduleRule>, day: int, from: int, to: int, minute: int, rule: ScheduleRule)
  {
    rule in schedules && rule.action.Extend? && OpensOrCloses(rule, day, from, to, minute)
  }

  /** The rules' test for a minute, as the resolver makes it. */
  function AppliesAt(weekday: int, from: int, to: int, minute: int): RuleActivePredicate
    requires 1 <= weekday <= 7
  {
    (rule: ScheduleRule) => AppliesOnDay(rule, weekday, from, to) && Covers(Project(rule), minute)
  }

  lemma AppliesReading(rule: ScheduleRule, day: int, from: int, to: int, minute: int)
    requires MaskStored(rule) && day >= FIRST_MODERN_DAY && 0 <= minute < 1440
    ensures AppliesAt(IsoWeekday(DateOfDay(day)), from, to, minute)(rule)
            <==> OnDay(rule, day, from, to) && InMinutes(rule, minute)
  {
    hide OnDay, IsoWeekday, AppliesOnDay;
    OnDayReading(rule, day, from, to);
  }

  ghost predicate AllMasksStored(schedules: seq<ScheduleRule>) {
    forall rule | rule in schedules :: MaskStored(rule)
  }

  /** The first recurring rule covering a minute is the one that precedes all others applying to it. */
  lemma RecurringDeny(schedules: seq<ScheduleRule>, day: int, from: int, to: int, minute: int)
    requires NoDuplicates(Ids(schedules)) && AllMasksStored(schedules)
    requires day >= FIRST_MODERN_DAY && 0 <= minute < 1440
    ensures DenyWins(Filter(IsOverall, ActiveRulesOn(schedules, IsoWeekday(DateOfDay(day)), from, to)), minute)
            <==> exists deny :: DeniedBy(schedules, day, from, to, minute, deny)
  {
    var weekday := IsoWeekday(DateOfDay(day));
    var isActive := AppliesAt(weekday, from, to, minute);
    var both := Both(IsOverallSchedule, isActive);
    var ordered := ByOrdinal(schedules);
    SameFirstAction(ordered, isActive, AppliesOn(weekday, from, to), minute);
    FindFilter(isActive, IsOverallSchedule, ordered);
    EarliestWins(schedules, both);
    hide IsoWeekday, OnDay, AppliesOnDay, Find, Filter, ByOrdinal;
    forall rule | rule in schedules ensures both(rule) <==> OpensOrCloses(rule, day, from, to, minute) {
      AppliesReading(rule, day, from, to, minute);
    }
    if ActionOf(ResolveEffectiveRule(schedules, both)) == Some(Deny) {
      assert DeniedBy(schedules, day, from, to, minute, ResolveEffectiveRule(schedules, both).value);
    }
    if deny :| DeniedBy(schedules, day, from, to, minute, deny) {
      assert both(deny);
    }
  }

  lemma RecurringExtend(schedules: seq<ScheduleRule>, day: int, from: int, to: int, minute: int)
    requires AllMasksStored(schedules) && day >= FIRST_MODERN_DAY && 0 <= minute < 1440
    ensures Extended(Filter(IsOverall, ActiveRulesOn(schedules, IsoWeekday(DateOfDay(day)), from, to)), minute)
            <==> exists rule :: ExtendedBy(schedules, day, from, to, minute, rule)
  {
    var weekday := IsoWeekday(DateOfDay(day));
    var isActive := AppliesAt(weekday, from, to, minute);
    SameExtension(ByOrdinal(schedules), isActive, AppliesOn(weekday, from, to), minute);
    SomeExtendActive(schedules, isActive);
    hide IsoWeekday, OnDay, AppliesOnDay, Find, Filter, ByOrdinal, Extended;
    if i :| 0 <= i < |schedules| && IsOverallSchedule(schedules[i]) && schedules[i].action.Extend?
            && isActive(schedules[i]) {
      AppliesReading(schedules[i], day, from, to, minute);
      assert ExtendedBy(schedules, day, from, to, minute, schedules[i]);
    }
    if rule :| ExtendedBy(schedules, day, from, to, minute, rule) {
      AppliesReading(rule, day, from, to, minute);
      var i :| 0 <= i < |schedules| && schedules[i] == rule;
      assert isActive(schedules[i]);
    }
  }

  /**
   * Access right now: open inside an active extension, or unless the active overall rule
   * that precedes the others denies.
   */
  lemma AccessNow(schedules: seq<ScheduleRule>, at: int, zone: Zone)
    requires NoDuplicates(Ids(schedules)) && AllMasksStored(schedules) && LocalDay(zone, at) >= FIRST_MODERN_DAY
    requires forall rule | rule in schedules :: MinutesCoherent(rule)
    ensures OpenAt(schedules, at, zone)
            <==> || (exists rule :: rule in schedules && rule.action.Extend? && OverallNow(rule, at, zone))
                 || !exists deny :: deny in schedules && deny.action.Deny? && FirstNow(schedules, at, zone, deny)
  {
    var isActive := RuleActiveAt(at, zone);
    var both := Both(IsOverallSchedule, isActive);
    EarliestWins(schedules, both);
    FilterSort(EvaluationRank, IsOverallSchedule, schedules);
    FindFilter(isActive, IsOverallSchedule, ByOrdinal(schedules));
    hide ActiveNow, IsRuleActiveAt, Find, Filter, ByOrdinal;
    forall rule | rule in schedules ensures both(rule) <==> OverallNow(rule, at, zone) {
      ActiveNowReading(rule, at, zone);
    }
    var w := ResolveEffectiveRule(schedules, both);
    if w.Some? {
      assert FirstNow(schedules, at, zone, w.value);
    }
    if rule :| rule in schedules && rule.action.Extend? && OverallNow(rule, at, zone) {
      var i :| 0 <= i < |schedules| && schedules[i] == rule;
      assert both(schedules[i]);
    }
    if i :| 0 <= i < |schedules| && IsOverallSchedule(schedules[i]) && schedules[i].action.Extend?
            && isActive(schedules[i]) {
      assert both(schedules[i]) && schedules[i] in schedules;
    }
  }

  ghost predicate OverallNow(rule: ScheduleRule, at: int, zone: Zone) {
    rule.targetKind.Overall? && ActiveNow(rule, at, zone)
  }

  ghost predicate FirstNow(schedules: seq<ScheduleRule>, at: int, zone: Zone, rule: ScheduleRule) {
    && OverallNow(rule, at, zone)
    && forall r | r in schedules && OverallNow(r, at, zone) && r != rule :: Precedes(rule, r)
  }

  // ----- exceptions -----

  /** An override of overall access in force at an instant. */
  predicate InForce(exc: ExceptionInput, t: int) {
    && exc.targetKind.Overall?
    && (if exc.effectiveFrom.Some? then exc.effectiveFrom.value else exc.createdAt) <= t < exc.expiresAt
  }

  predicate FirstInForce(exceptions: seq<ExceptionInput>, t: int, k: int) {
    0 <= k < |exceptions| && InForce(exceptions[k], t) && forall j | 0 <= j < k :: !InForce(exceptions[j], t)
  }

  /** Just before the middle of a minute of the day. */
  function MidMinute(from: int, minute: int): int {
    from + minute * 60_000 + 29_999
  }

  lemma OverrideReading(exc: ExceptionInput, from: int, to: int, minute: int)
    requires 0 <= minute && MidMinute(from, minute) < to
    ensures Overrides(from, to, minute)(exc) <==> InForce(exc, MidMinute(from, minute))
  {
    ExceptionCoversMinute(exc, from, to, minute);
  }

  lemma FirstInForceFound(exceptions: seq<ExceptionInput>, from: int, to: int, minute: int)
    requires 0 <= minute && MidMinute(from, minute) < to
    ensures match Find(Overrides(from, to, minute), exceptions)
            case None => forall k :: !FirstInForce(exceptions, MidMinute(from, minute), k)
            case Some(exc) => exists k :: FirstInForce(exceptions, MidMinute(from, minute), k) && exceptions[k] == exc
  {
    var p := Overrides(from, to, minute);
    forall i | 0 <= i < |exceptions| ensures p(exceptions[i]) <==> InForce(exceptions[i], MidMinute(from, minute)) {
      OverrideReading(exceptions[i], from, to, minute);
    }
    FindMeaning(p, exceptions);
    if Find(p, exceptions).Some? {
      var k := FindPosition(p, exceptions);
      assert FirstInForce(exceptions, MidMinute(from, minute), k);
    } else {
      assert forall i | 0 <= i < |exceptions| :: exceptions[i] in exceptions;
    }
  }

  ghost predicate ExtendInForce(exceptions: seq<ExceptionInput>, t: int) {
    exists i :: 0 <= i < |exceptions| && exceptions[i].action.Extend? && InForce(exceptions[i], t)
  }

  lemma {:induction false} ExceptionExtend(exceptions: seq<ExceptionInput>, from: int, to: int, minute: int)
    requires 0 <= minute && MidMinute(from, minute) < to
    ensures Extended(Filter(IsOverall, ExceptionRulesOn(exceptions, from, to)), minute)
            <==> ExtendInForce(exceptions, MidMinute(from, minute))
  {
    if exceptions != [] {
      var exc, tail := exceptions[0], exceptions[1..];
      var rest := ExceptionRulesOn(tail, from, to);
      ExceptionExtend(tail, from, to, minute);
      OverrideReading(exc, from, to, minute);
      assert exceptions == [exc] + tail;
      ExtendInForceCons(exc, tail, MidMinute(from, minute));
      if ExceptionWindowOnDay(exc, from, to).Some? {
        FilterCons(IsOverall, RuleOf(exc, from, to), rest);
        ExtendedCons(RuleOf(exc, from, to), Filter(IsOverall, rest), minute);
        assert [] + Filter(IsOverall, rest) == Filter(IsOverall, rest);
      } else {
        assert [] + rest == rest;
      }
    }
  }

  lemma ExtendInForceCons(exc: ExceptionInput, tail: seq<ExceptionInput>, t: int)
    ensures ExtendInForce([exc] + tail, t) <==> (exc.action.Extend? && InForce(exc, t)) || ExtendInForce(tail, t)
  {
    var all := [exc] + tail;
    assert forall i | 0 <= i < |tail| :: all[i + 1] == tail[i];
    if i :| 0 <= i < |tail| && tail[i].action.Extend? && InForce(tail[i], t) {
      assert all[i + 1] == tail[i];
    }
    if i :| 0 <= i < |all| && all[i].action.Extend? && InForce(all[i], t) {
      assert i > 0 ==> all[i] == tail[i - 1];
    }
    assert all[0] == exc;
  }

  lemma ExtendedCons(rule: ActiveRule, rest: seq<ActiveRule>, minute: int)
    ensures Extended([rule] + rest, minute) <==> (rule.action.Extend? && Covers(rule, minute)) || Extended(rest, minute)
  {
    var all := [rule] + rest;
    assert all[0] == rule;
    if i :| 0 <= i < |rest| && rest[i].action.Extend? && Covers(rest[i], minute) {
      assert all[i + 1] == rest[i];
    }
    if i :| 0 <= i < |all| && all[i].action.Extend? && Covers(all[i], minute) {
      assert i > 0 ==> all[i] == rest[i - 1];
    }
  }

  lemma {:induction false} ExtendedConcat(a: seq<ActiveRule>, b: seq<ActiveRule>, minute: int)
    ensures Extended(a + b, minute) <==> Extended(a, minute) || Extended(b, minute)
  {
    if a == [] {
      assert a + b == b;
    } else {
      ExtendedConcat(a[1..], b, minute);
      ExtendedCons(a[0], a[1..] + b, minute);
      ExtendedCons(a[0], a[1..], minute);
      assert a + b == [a[0]] + (a[1..] + b);
      assert a == [a[0]] + a[1..];
    }
  }

  // ----- the day -----

  /**
   * Open in the stored rows' own terms: inside some extension; or not denied, where the
   * first override in force decides, and without one the rule that precedes the others.
   */
  ghost predicate PlainlyOpen(
    schedules: seq<ScheduleRule>, exceptions: seq<ExceptionInput>, day: int, from: int, to: int, minute: int)
  {
    var t := MidMinute(from, minute);
    || ExtendInForce(exceptions, t)
    || (exists rule :: ExtendedBy(schedules, day, from, to, minute, rule))
    || (if exists k :: FirstInForce(exceptions, t, k)
        then exists k :: FirstInForce(exceptions, t, k) && !exceptions[k].action.Deny?
        else !exists deny :: DeniedBy(schedules, day, from, to, minute, deny))
  }

  lemma MinuteIsPlain(
    schedules: seq<ScheduleRule>, exceptions: seq<ExceptionInput>, day: int, from: int, to: int, minute: int)
    requires NoDuplicates(Ids(schedules)) && AllMasksStored(schedules) && day >= FIRST_MODERN_DAY
    requires 0 <= minute < 1440 && MidMinute(from, minute) < to
    ensures MinuteAllowed(OverallRulesOn(schedules, exceptions, IsoWeekday(DateOfDay(day)), from, to), minute)
            <==> PlainlyOpen(schedules, exceptions, day, from, to, minute)
  {
    var excs := Filter(IsOverall, ExceptionRulesOn(exceptions, from, to));
    var recurring := Filter(IsOverall, ActiveRulesOn(schedules, IsoWeekday(DateOfDay(day)), from, to));
    RecurringDeny(schedules, day, from, to, minute);
    RecurringExtend(schedules, day, from, to, minute);
    ExceptionExtend(exceptions, from, to, minute);
    ExtendedConcat(excs, recurring, minute);
    FindConcat(CoveringMinute(minute), excs, recurring);
    FirstOverride(exceptions, from, to, minute);
    FirstInForceFound(exceptions, from, to, minute);
    hide Find, Filter, Extended, ExceptionRulesOn, ActiveRulesOn, IsoWeekday, FirstInForce, DeniedBy, ExtendedBy;
    OneFirst(exceptions, MidMinute(from, minute));
  }

  lemma OneFirst(exceptions: seq<ExceptionInput>, t: int)
    ensures forall j, k | FirstInForce(exceptions, t, j) && FirstInForce(exceptions, t, k) :: j == k
  {
  }

  /**
   * The resolved windows of a date, against a plain reading of the stored rows: on a
   * 24-hour day, or with no exceptions on any day, a minute is in them exactly when it is
   * plainly open.
   */
  lemma WindowsArePlain(
    schedules: seq<ScheduleRule>, exceptions: seq<ExceptionInput>, zone: Zone, day: int, minute: int)
    requires NoDuplicates(Ids(schedules)) && AllMasksStored(schedules) && day >= FIRST_MODERN_DAY
    requires forall i | 0 <= i < |schedules| :: MinutesCoherent(schedules[i])
    requires var from, to := DayStart(zone, DateOfDay(day)), DayEnd(zone, DateOfDay(day));
             to == from + 24 * 60 * 60_000 || (exceptions == [] && MidMinute(from, minute) < to)
    ensures var date := DateOfDay(day);
            Allows(AllowedRuns(DayOverallRules(schedules, exceptions, zone, date)), minute)
            <==> 0 <= minute < 1440
                 && PlainlyOpen(schedules, exceptions, day, DayStart(zone, date), DayEnd(zone, date), minute)
  {
    var date := DateOfDay(day);
    var from, to := DayStart(zone, date), DayEnd(zone, date);
    hide DayStart, DayEnd, DateOfDay, IsoWeekday, AllowedRuns, PlainlyOpen, MinuteAllowed;
    DayRulesInside(schedules, exceptions, IsoWeekday(date), from, to);
    AllowedRunsMeaning(DayOverallRules(schedules, exceptions, zone, date), minute);
    if 0 <= minute < 1440 {
      MinuteIsPlain(schedules, exceptions, day, from, to, minute);
    }
  }

  lemma DayRulesInside(
    schedules: seq<ScheduleRule>, exceptions: seq<ExceptionInput>, weekday: int, from: int, to: int)
    requires 1 <= weekday <= 7 && forall i | 0 <= i < |schedules| :: MinutesCoherent(schedules[i])
    requires exceptions == [] || to == from + 24 * 60 * 60_000
    ensures WithinDay(OverallRulesOn(schedules, exceptions, weekday, from, to))
  {
    ProjectedWithinDay(schedules, weekday, from, to);
    ExceptionsInside(exceptions, from, to);
    var none := Filter(IsOverall, ExceptionRulesOn([], from, to));
    var excs := Filter(IsOverall, ExceptionRulesOn(exceptions, from, to));
    var recurring := Filter(IsOverall, ActiveRulesOn(schedules, weekday, from, to));
    assert none + recurring == recurring;
    hide Filter, ExceptionRulesOn, ActiveRulesOn;
    forall i | 0 <= i < |excs + recurring|
      ensures 0 <= (excs + recurring)[i].startMinute <= MINUTES_PER_DAY
      ensures 0 <= (excs + recurring)[i].endMinute <= MINUTES_PER_DAY {
    }
  }

  lemma {:induction false} ExceptionsInside(exceptions: seq<ExceptionInput>, from: int, to: int)
    requires exceptions == [] || to == from + 24 * 60 * 60_000
    ensures WithinDay(Filter(IsOverall, ExceptionRulesOn(exceptions, from, to)))
  {
    if exceptions != [] {
      var exc, rest := exceptions[0], ExceptionRulesOn(exceptions[1..], from, to);
      ExceptionsInside(exceptions[1..], from, to);
      if ExceptionWindowOnDay(exc, from, to).Some? {
        ExceptionWithinDay(exc, from, to);
        FilterCons(IsOverall, RuleOf(exc, from, to), rest);
        assert [] + Filter(IsOverall, rest) == Filter(IsOverall, rest);
      } else {
        assert [] + rest == rest;
      }
    }
  }
}
