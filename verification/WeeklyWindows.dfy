// The weekly allowed-hours grid: the day resolver run over the seven local days of a
// reference week.

module WeeklyWindows {
  import opened Common
  import opened Calendar
  import opened BudgetWindow
  import opened SchedulePrecedence
  import opened Windows
  import opened Resolve
  import opened EffectivePolicy

  /** Without effective dates the rules of a day depend on its weekday alone. */
  lemma RecurringDaysAlike(schedules: seq<ScheduleRule>, zone: Zone, a: Date, b: Date)
    requires AllUndated(schedules) && ValidDate(a) && ValidDate(b) && IsoWeekday(a) == IsoWeekday(b)
    ensures DayOverallRules(schedules, [], zone, a) == DayOverallRules(schedules, [], zone, b)
  {
    hide DayStart, DayEnd, IsoWeekday;
    var ordered := ByOrdinal(schedules);
    SortByContents(EvaluationRank, schedules);
    var p := AppliesOn(IsoWeekday(a), DayStart(zone, a), DayEnd(zone, a));
    var q := AppliesOn(IsoWeekday(b), DayStart(zone, b), DayEnd(zone, b));
    forall rule | rule in ordered ensures p(rule) == q(rule) {
      assert rule in schedules;
    }
    FilterAgree(p, q, ordered);
  }

  /** Day number of the Monday of the week in which `reference` falls. */
  function ReferenceMonday(zone: Zone, reference: int): int {
    LocalDay(zone, reference) - (LocalDay(zone, reference) + 3) % 7
  }

  /** The date of ISO weekday `w` in the week starting on `monday`. */
  function WeekDate(monday: Date, w: int): (d: Date)
    requires 1 <= monday.month <= 12
    ensures ValidDate(d)
  {
    AddDays(monday, w - 1)
  }

  /** The Monday of the week of `reference`, as the date arithmetic finds it. */
  function MondayOf(zone: Zone, reference: int): (d: Date)
    ensures ValidDate(d)
  {
    var today := LocalCalendarDate(zone, reference);
    AddDays(today, -(IsoWeekday(today) - 1))
  }

  /** Shifting the reference date back to Monday and on by `offset` lands on that weekday. */
  lemma WeekDates(zone: Zone, reference: int, w: int)
    requires ReferenceMonday(zone, reference) >= FIRST_MODERN_DAY && 1 <= w <= 7
    ensures WeekDate(MondayOf(zone, reference), w) == DateOfDay(ReferenceMonday(zone, reference) + (w - 1))
    ensures IsoWeekday(WeekDate(MondayOf(zone, reference), w)) == w
  {
    hide DateOfDay, LocalDay, AddDays, IsoWeekday, DayNumber, UtcDay;
    var day := LocalDay(zone, reference);
    var start := ReferenceMonday(zone, reference);
    ModernDay(day);
    WeekdayOfDay(day);
    AddDaysIsAddition(DateOfDay(day), -((day + 3) % 7));
    ModernDay(start);
    AddDaysIsAddition(DateOfDay(start), w - 1);
    WeekdayOfDay(start + (w - 1));
    MondayPlus(day, w - 1);
  }

  lemma MondayPlus(day: int, offset: int)
    requires 0 <= offset < 7
    ensures (day - (day + 3) % 7 + offset + 3) % 7 == offset
  {
    var q := (day + 3) / 7;
    assert day + 3 == 7 * q + (day + 3) % 7;
    assert day - (day + 3) % 7 + offset + 3 == 7 * q + offset;
  }

  /** The windows the day resolver gives for a date, recurring layer only. */
  function DayWindows(schedules: seq<ScheduleRule>, zone: Zone, date: Date): seq<AllowedWindow>
    requires ValidDate(date)
  {
    AllowedRuns(DayOverallRules(schedules, [], zone, date))
  }

  ghost predicate WeekFrom(monday: Date, start: int)
    requires ValidDate(monday)
  {
    forall w | 1 <= w <= 7 ::
      WeekDate(monday, w) == DateOfDay(start + (w - 1)) && IsoWeekday(WeekDate(monday, w)) == w
  }

  lemma ReferenceWeek(zone: Zone, reference: int)
    requires ReferenceMonday(zone, reference) >= FIRST_MODERN_DAY
    ensures WeekFrom(MondayOf(zone, reference), ReferenceMonday(zone, reference))
  {
    hide DateOfDay, IsoWeekday, ReferenceMonday, MondayOf, WeekDate;
    forall w | 1 <= w <= 7
      ensures WeekDate(MondayOf(zone, reference), w) == DateOfDay(ReferenceMonday(zone, reference) + (w - 1))
      ensures IsoWeekday(WeekDate(MondayOf(zone, reference), w)) == w
    {
      WeekDates(zone, reference, w);
    }
  }

  /** The grid entry of every date's weekday is that date's own windows. */
  ghost predicate ServesEveryDate(grid: map<int, seq<AllowedWindow>>, schedules: seq<ScheduleRule>, zone: Zone) {
    forall date | ValidDate(date) ::
      IsoWeekday(date) in grid && grid[IsoWeekday(date)] == DayWindows(schedules, zone, date)
  }

  /** The grid holds the days of the week starting at day number `start`. */
  ghost predicate HoldsWeek(grid: map<int, seq<AllowedWindow>>, schedules: seq<ScheduleRule>, zone: Zone, start: int) {
    && (forall w :: w in grid <==> 1 <= w <= 7)
    && forall w | w in grid :: grid[w] == DayWindows(schedules, zone, DateOfDay(start + (w - 1)))
  }

  lemma GridServesEveryDate(
    schedules: seq<ScheduleRule>, zone: Zone, monday: Date, start: int, grid: map<int, seq<AllowedWindow>>)
    requires ValidDate(monday) && WeekFrom(monday, start) && AllUndated(schedules)
    requires forall w | 1 <= w <= 7 :: w in grid && grid[w] == DayWindows(schedules, zone, WeekDate(monday, w))
    ensures ServesEveryDate(grid, schedules, zone)
  {
    hide AddDays, DateOfDay, IsoWeekday, AllowedRuns, DayOverallRules;
    forall date | ValidDate(date)
      ensures IsoWeekday(date) in grid && grid[IsoWeekday(date)] == DayWindows(schedules, zone, date)
    {
      var w := IsoWeekday(date);
      RecurringDaysAlike(schedules, zone, date, WeekDate(monday, w));
    }
  }

  /** Resolve one date with no budgets, grants or exceptions. */
  method RecurringWindows(
    schedules: seq<ScheduleRule>, zone: Zone, date: Date)
    returns (allowedWindows: seq<AllowedWindow>)
    requires ValidDate(date)
    ensures allowedWindows == DayWindows(schedules, zone, date)
  {
    var effective := ResolvePolicy(date, zone, schedules, [], [], []);
    allowedWindows := effective.allowedWindows;
  }

  /** The grid holds the first `count` days from `monday` on, keyed by ISO weekday. */
  ghost predicate GridFrom(
    grid: map<int, seq<AllowedWindow>>, schedules: seq<ScheduleRule>, zone: Zone, monday: Date, count: int)
    requires ValidDate(monday)
  {
    && (forall w :: w in grid <==> 1 <= w <= count)
    && forall w | 1 <= w <= count :: grid[w] == DayWindows(schedules, zone, WeekDate(monday, w))
  }

  lemma GridStep(
    grid: map<int, seq<AllowedWindow>>, schedules: seq<ScheduleRule>, zone: Zone, monday: Date, count: int,
    next: seq<AllowedWindow>)
    requires ValidDate(monday) && 0 <= count && GridFrom(grid, schedules, zone, monday, count)
    requires next == DayWindows(schedules, zone, WeekDate(monday, count + 1))
    ensures GridFrom(grid[count + 1 := next], schedules, zone, monday, count + 1)
  {
    hide DayWindows, WeekDate;
  }

  method ResolveWeek(
    schedules: seq<ScheduleRule>, zone: Zone, monday: Date)
    returns (byWeekday: map<int, seq<AllowedWindow>>)
    requires ValidDate(monday)
    ensures GridFrom(byWeekday, schedules, zone, monday, 7)
  {
    byWeekday := map[];
    assert GridFrom(byWeekday, schedules, zone, monday, 0);
    hide GridFrom, WeekDate, DayWindows;
    for offset := 0 to 7
      invariant GridFrom(byWeekday, schedules, zone, monday, offset)
    {
      var allowedWindows := RecurringWindows(schedules, zone, WeekDate(monday, offset + 1));
      GridStep(byWeekday, schedules, zone, monday, offset, allowedWindows);
      byWeekday := byWeekday[offset + 1 := allowedWindows];
    }
  }

  lemma GridOfWeek(
    grid: map<int, seq<AllowedWindow>>, schedules: seq<ScheduleRule>, zone: Zone, monday: Date, start: int)
    requires ValidDate(monday) && GridFrom(grid, schedules, zone, monday, 7) && WeekFrom(monday, start)
    ensures HoldsWeek(grid, schedules, zone, start)
    ensures AllUndated(schedules) ==> ServesEveryDate(grid, schedules, zone)
  {
    hide DateOfDay, IsoWeekday, WeekDate, DayWindows;
    if AllUndated(schedules) {
      GridServesEveryDate(schedules, zone, monday, start, grid);
    }
  }

  /**
   * The allowed windows of each ISO weekday. For recurring rules the entry of a weekday
   * is what the day resolver gives for every date with that weekday, whichever week the
   * reference instant lies in.
   */
  method ResolveWeeklyAllowedWindows(schedules: seq<ScheduleRule>, zone: Zone, reference: int)
    returns (byWeekday: map<int, seq<AllowedWindow>>)
    requires ReferenceMonday(zone, reference) >= FIRST_MODERN_DAY
    ensures HoldsWeek(byWeekday, schedules, zone, ReferenceMonday(zone, reference))
    ensures AllUndated(schedules) ==> ServesEveryDate(byWeekday, schedules, zone)
  {
    hide GridFrom, WeekFrom, HoldsWeek, ServesEveryDate, MondayOf;
    var monday := MondayOf(zone, reference);
    byWeekday := ResolveWeek(schedules, zone, monday);
    ReferenceWeek(zone, reference);
    GridOfWeek(byWeekday, schedules, zone, monday, ReferenceMonday(zone, reference));
  }
}
