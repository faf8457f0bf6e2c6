// Budget windows: local wall-clock time enters here. A zone is a function from
// UTC instants (milliseconds) to its offset from UTC (seconds) at that instant.

module BudgetWindow {
  import opened Common
  import opened Calendar

  type Zone = int -> int

  const SECONDS_PER_DAY := 86_400

  /** No zone is ever a whole day away from UTC. */
  const MAX_OFFSET := SECONDS_PER_DAY

  // ----- reading the local clock -----

  /** Local wall-clock reading of an instant in whole seconds, counted as if it were UTC. */
  function WallSecond(zone: Zone, instant: int): int {
    instant / 1000 + zone(instant)
  }

  function LocalDay(zone: Zone, instant: int): int {
    WallSecond(zone, instant) / SECONDS_PER_DAY
  }

  function LocalCalendarDate(zone: Zone, instant: int): (d: Date)
    ensures ValidDate(d)
  {
    DateOfDay(LocalDay(zone, instant))
  }

  function LocalTimeOfDayMinutes(zone: Zone, instant: int): (m: int)
    ensures 0 <= m < 1440
  {
    WallSecond(zone, instant) % SECONDS_PER_DAY / 60
  }

  /** Read the wall fields back as if they were UTC and subtract the instant. */
  function TzOffsetMs(zone: Zone, instant: int): int {
    UtcDay(LocalCalendarDate(zone, instant)) * MS_PER_DAY
    + WallSecond(zone, instant) % SECONDS_PER_DAY * 1000
    - instant
  }

  // ----- from wall time to an instant -----

  /**
   * Two-pass offset reconciliation: correct by the offset at the wall time read as
   * UTC, then once more if the offset at the corrected instant differs.
   */
  function Reconcile(zone: Zone, wallAsUtc: int): int {
    var firstOffset := TzOffsetMs(zone, wallAsUtc);
    var utc := wallAsUtc - firstOffset;
    var secondOffset := TzOffsetMs(zone, utc);
    if secondOffset != firstOffset then wallAsUtc - secondOffset else utc
  }

  function WallTimeToUtc(zone: Zone, date: Date, secondOfDay: int): int
    requires 1 <= date.month <= 12
  {
    Reconcile(zone, UtcDay(date) * MS_PER_DAY + secondOfDay * 1000)
  }

  function LocalMidnight(zone: Zone, date: Date): int
    requires 1 <= date.month <= 12
  {
    WallTimeToUtc(zone, date, 0)
  }

  ghost predicate BoundedOffsets(zone: Zone) {
    forall t :: -MAX_OFFSET <= zone(t) <= MAX_OFFSET
  }

  /** Within reach of wall second `wall` the offset is `before` up to second `jump` and `after` from it. */
  ghost predicate OneJump(zone: Zone, wall: int, jump: int, before: int, after: int) {
    forall t | (wall - MAX_OFFSET) * 1000 <= t < (wall + MAX_OFFSET + 1) * 1000 ::
      zone(t) == if t < jump * 1000 then before else after
  }

  /** At most one change of offset, in either direction, among the instants that can read `wall`. */
  ghost predicate AtMostOneJump(zone: Zone, wall: int) {
    BoundedOffsets(zone) && exists jump, before, after :: OneJump(zone, wall, jump, before, after)
  }

  ghost predicate ReadsAt(zone: Zone, wall: int, second: int) {
    WallSecond(zone, second * 1000) == wall
  }

  ghost predicate Occurs(zone: Zone, wall: int) {
    exists second :: ReadsAt(zone, wall, second)
  }

  ghost predicate OccursOnce(zone: Zone, wall: int) {
    exists second :: ReadsAt(zone, wall, second) && forall other | ReadsAt(zone, wall, other) :: other == second
  }

  function WallOf(date: Date, secondOfDay: int): int
    requires 1 <= date.month <= 12
  {
    UtcDay(date) * SECONDS_PER_DAY + secondOfDay
  }

  /** Far enough from year 100 that no reading within reach is remapped by `Date.UTC`. */
  ghost predicate Reachable(wall: int) {
    wall >= (FIRST_MODERN_DAY + 2) * SECONDS_PER_DAY
  }

  lemma SplitDay(wall: int)
    ensures wall / SECONDS_PER_DAY * MS_PER_DAY + wall % SECONDS_PER_DAY * 1000 == wall * 1000
  {
    var day := wall / SECONDS_PER_DAY;
    assert wall == day * SECONDS_PER_DAY + wall % SECONDS_PER_DAY;
  }

  lemma WholeSecond(second: int)
    ensures second * 1000 / 1000 == second
  {
  }

  lemma OffsetIsZoneOffset(zone: Zone, second: int)
    requires WallSecond(zone, second * 1000) >= FIRST_MODERN_DAY * SECONDS_PER_DAY
    ensures TzOffsetMs(zone, second * 1000) == 1000 * zone(second * 1000)
  {
    var wall := WallSecond(zone, second * 1000);
    WholeSecond(second);
    var day := wall / SECONDS_PER_DAY;
    DayNotBefore(wall, FIRST_MODERN_DAY);
    ModernDay(day);
    SplitDay(wall);
  }

  lemma DayNotBefore(wall: int, day: int)
    ensures wall >= day * SECONDS_PER_DAY <==> wall / SECONDS_PER_DAY >= day
  {
  }

  /** What the two passes compute, in whole seconds. */
  function TwoPass(zone: Zone, wall: int): int {
    wall - zone((wall - zone(wall * 1000)) * 1000)
  }

  lemma ReconcileIsTwoPass(zone: Zone, wall: int)
    requires BoundedOffsets(zone) && Reachable(wall)
    ensures Reconcile(zone, wall * 1000) == TwoPass(zone, wall) * 1000
  {
    hide TzOffsetMs;
    WholeSecond(wall);
    OffsetIsZoneOffset(zone, wall);
    var first := wall - zone(wall * 1000);
    WholeSecond(first);
    OffsetIsZoneOffset(zone, first);
  }

  lemma WallMs(date: Date, secondOfDay: int)
    requires 1 <= date.month <= 12
    ensures UtcDay(date) * MS_PER_DAY + secondOfDay * 1000 == WallOf(date, secondOfDay) * 1000
  {
    var day := UtcDay(date);
    assert day * MS_PER_DAY == day * SECONDS_PER_DAY * 1000;
  }

  lemma TwoPassCorrect(zone: Zone, wall: int)
    requires AtMostOneJump(zone, wall)
    ensures ReadsAt(zone, wall, TwoPass(zone, wall)) <==> Occurs(zone, wall)
  {
    var first := wall - zone(wall * 1000);
    var result := TwoPass(zone, wall);
    WholeSecond(result);
    var jump, before, after :| OneJump(zone, wall, jump, before, after);
    if Occurs(zone, wall) {
      var second :| ReadsAt(zone, wall, second);
      NearEnough(zone, wall, second);
      WholeSecond(second);
      assert zone(second * 1000) == if second < jump then before else after;
      assert zone(wall * 1000) == if wall < jump then before else after;
      assert zone(first * 1000) == if first < jump then before else after;
      assert zone(result * 1000) == if result < jump then before else after;
    }
  }

  /** The returned instant reads the requested wall time back exactly when some instant does. */
  lemma WallTimeToUtcCorrect(zone: Zone, date: Date, secondOfDay: int)
    requires 1 <= date.month <= 12
    requires AtMostOneJump(zone, WallOf(date, secondOfDay)) && Reachable(WallOf(date, secondOfDay))
    ensures WallSecond(zone, WallTimeToUtc(zone, date, secondOfDay)) == WallOf(date, secondOfDay)
            <==> Occurs(zone, WallOf(date, secondOfDay))
  {
    hide UtcDay, TzOffsetMs, Reconcile;
    WallMs(date, secondOfDay);
    ReconcileIsTwoPass(zone, WallOf(date, secondOfDay));
    TwoPassCorrect(zone, WallOf(date, secondOfDay));
  }

  lemma NearEnough(zone: Zone, wall: int, second: int)
    requires BoundedOffsets(zone) && ReadsAt(zone, wall, second)
    ensures wall - MAX_OFFSET <= second <= wall + MAX_OFFSET
  {
  }

  /**
   * A wall time skipped by a forward jump resolves an hour (the size of the jump)
   * away from itself: after the jump when it reads no earlier than the jump's UTC
   * second, before the jump otherwise. Only in the first case can a skipped
   * midnight land on the transition; west of Greenwich it lands on the day before.
   */
  lemma SkippedWallTime(zone: Zone, date: Date, secondOfDay: int, jump: int, before: int, after: int)
    requires 1 <= date.month <= 12
    requires BoundedOffsets(zone) && Reachable(WallOf(date, secondOfDay))
    requires OneJump(zone, WallOf(date, secondOfDay), jump, before, after)
    requires jump + before <= WallOf(date, secondOfDay) < jump + after
    ensures var wall := WallOf(date, secondOfDay);
            var result := WallTimeToUtc(zone, date, secondOfDay);
            WallSecond(zone, result) == if wall >= jump then wall + (after - before) else wall - (after - before)
  {
    hide UtcDay, TzOffsetMs, Reconcile;
    var wall := WallOf(date, secondOfDay);
    WallMs(date, secondOfDay);
    ReconcileIsTwoPass(zone, wall);
    SkippedTwoPass(zone, wall, jump, before, after);
  }

  lemma SkippedTwoPass(zone: Zone, wall: int, jump: int, before: int, after: int)
    requires BoundedOffsets(zone) && OneJump(zone, wall, jump, before, after)
    requires jump + before <= wall < jump + after
    ensures WallSecond(zone, TwoPass(zone, wall) * 1000)
            == if wall >= jump then wall + (after - before) else wall - (after - before)
  {
    var first := wall - zone(wall * 1000);
    var result := TwoPass(zone, wall);
    WholeSecond(result);
    assert -MAX_OFFSET <= zone(wall * 1000) <= MAX_OFFSET && -MAX_OFFSET <= zone(first * 1000) <= MAX_OFFSET;
    assert zone(wall * 1000) == if wall < jump then before else after;
    assert zone(first * 1000) == if first < jump then before else after;
    assert zone(result * 1000) == if result < jump then before else after;
  }

  /** Near one jump a wall time occurs exactly once unless the jump skips or repeats it. */
  lemma OccursOnceExactly(zone: Zone, wall: int, jump: int, before: int, after: int)
    requires BoundedOffsets(zone) && OneJump(zone, wall, jump, before, after)
    requires -MAX_OFFSET <= before <= MAX_OFFSET && -MAX_OFFSET <= after <= MAX_OFFSET
    ensures OccursOnce(zone, wall)
            <==> !(jump + before <= wall < jump + after) && !(jump + after <= wall < jump + before)
  {
    forall second ensures ReadsAt(zone, wall, second) <==>
                          (second < jump && second == wall - before) || (second >= jump && second == wall - after) {
      WholeSecond(second);
      if wall - MAX_OFFSET <= second <= wall + MAX_OFFSET {
        assert zone(second * 1000) == if second < jump then before else after;
      } else if ReadsAt(zone, wall, second) {
        NearEnough(zone, wall, second);
      }
    }
    if wall < jump + before && wall < jump + after {
      assert ReadsAt(zone, wall, wall - before);
    }
    if wall >= jump + before && wall >= jump + after {
      assert ReadsAt(zone, wall, wall - after);
    }
    if jump + after <= wall < jump + before {
      assert ReadsAt(zone, wall, wall - before) && ReadsAt(zone, wall, wall - after);
    }
  }

  // ----- ordinary midnights -----

  /** The local midnight that starts `day` happens exactly once, with at most one offset change near it. */
  ghost predicate OrdinaryMidnight(zone: Zone, day: int) {
    var wall := day * SECONDS_PER_DAY;
    Reachable(wall) && AtMostOneJump(zone, wall) && OccursOnce(zone, wall)
  }

  function MidnightOf(zone: Zone, day: int): int {
    LocalMidnight(zone, DateOfDay(day))
  }

  /** An ordinary midnight splits time: exactly the instants before it read an earlier local day. */
  lemma MidnightSplits(zone: Zone, day: int, instant: int)
    requires OrdinaryMidnight(zone, day)
    ensures MidnightOf(zone, day) % 1000 == 0
    ensures WallSecond(zone, MidnightOf(zone, day)) == day * SECONDS_PER_DAY
    ensures LocalDay(zone, instant) < day <==> instant < MidnightOf(zone, day)
  {
    hide UtcDay, DateOfDay, TzOffsetMs, Reconcile;
    var wall := day * SECONDS_PER_DAY;
    MidnightIsTwoPass(zone, day);
    TwoPassCorrect(zone, wall);
    ReadingSplits(zone, wall, TwoPass(zone, wall), instant);
    DayNotBefore(WallSecond(zone, instant), day);
  }

  /** A wall time that occurs once, near at most one jump, is first reached and never left again. */
  lemma ReadingSplits(zone: Zone, wall: int, second: int, instant: int)
    requires AtMostOneJump(zone, wall) && OccursOnce(zone, wall) && ReadsAt(zone, wall, second)
    ensures WallSecond(zone, instant) < wall <==> instant < second * 1000
  {
    var only :| ReadsAt(zone, wall, only) && forall other | ReadsAt(zone, wall, other) :: other == only;
    assert only == second;
    var jump, before, after :| OneJump(zone, wall, jump, before, after);
    NearEnough(zone, wall, second);
    WholeSecond(second);
    assert zone(second * 1000) == if second < jump then before else after;
    assert -MAX_OFFSET <= zone(instant) <= MAX_OFFSET;
    var at := instant / 1000;
    if wall - MAX_OFFSET <= at <= wall + MAX_OFFSET {
      assert zone(instant) == if at < jump then before else after;
      if second < jump <= at && WallSecond(zone, instant) < wall {
        Reread(zone, wall, jump, before, after, wall - after, at);
      } else if at < jump <= second && WallSecond(zone, instant) >= wall {
        Reread(zone, wall, jump, before, after, wall - before, at);
      }
    }
  }

  /** If the other side of the jump could read `wall` too, it would occur a second time. */
  lemma Reread(zone: Zone, wall: int, jump: int, before: int, after: int, again: int, at: int)
    requires BoundedOffsets(zone) && OneJump(zone, wall, jump, before, after)
    requires wall - MAX_OFFSET <= at <= wall + MAX_OFFSET
    requires (again == wall - after && jump <= at < again) || (again == wall - before && again <= at < jump)
    ensures ReadsAt(zone, wall, again)
  {
    WholeSecond(again);
    assert -MAX_OFFSET <= zone(at * 1000) <= MAX_OFFSET;
    assert zone(at * 1000) == if at < jump then before else after;
    assert zone(again * 1000) == if again < jump then before else after;
  }

  // ----- midnights that a jump skips or repeats -----

  /** A change of offset at UTC second `at`. */
  datatype Jump = Jump(at: int, before: int, after: int)

  /** At most this one change of offset, in either direction, near the local midnight that starts `day`. */
  ghost predicate MidnightNear(zone: Zone, day: int, j: Jump) {
    var wall := day * SECONDS_PER_DAY;
    && Reachable(wall) && BoundedOffsets(zone) && OneJump(zone, wall, j.at, j.before, j.after)
    && -MAX_OFFSET <= j.before <= MAX_OFFSET && -MAX_OFFSET <= j.after <= MAX_OFFSET
  }

  predicate Skips(j: Jump, wall: int) {
    j.at + j.before <= wall < j.at + j.after
  }

  predicate Repeats(j: Jump, wall: int) {
    j.at + j.after <= wall < j.at + j.before
  }

  /**
   * The seconds on the wrong side of the instant that a wall time resolves to. A skipped
   * one resolves before the jump when it reads earlier than the jump's UTC second, else
   * after it; a repeated one resolves to its first or its second reading by the same test.
   */
  predicate Misplaced(j: Jump, wall: int, second: int) {
    if Skips(j, wall) then
      if wall < j.at then wall - j.after <= second < j.at else j.at <= second < wall - j.before
    else if Repeats(j, wall) then
      if wall < j.at then j.at <= second < wall - j.after else wall - j.before <= second < j.at
    else false
  }

  /** Where the two passes take a wall time near one jump. */
  lemma TwoPassNear(zone: Zone, wall: int, j: Jump)
    requires BoundedOffsets(zone) && OneJump(zone, wall, j.at, j.before, j.after)
    requires -MAX_OFFSET <= j.before <= MAX_OFFSET && -MAX_OFFSET <= j.after <= MAX_OFFSET
    ensures TwoPass(zone, wall)
            == if Skips(j, wall) then (if wall < j.at then wall - j.after else wall - j.before)
               else if Repeats(j, wall) then (if wall < j.at then wall - j.before else wall - j.after)
               else if wall < j.at + j.before then wall - j.before else wall - j.after
  {
    var first := wall - zone(wall * 1000);
    assert -MAX_OFFSET <= zone(wall * 1000) <= MAX_OFFSET;
    assert zone(wall * 1000) == if wall < j.at then j.before else j.after;
    assert zone(first * 1000) == if first < j.at then j.before else j.after;
  }

  lemma ReadingNear(zone: Zone, wall: int, j: Jump, instant: int)
    requires BoundedOffsets(zone) && OneJump(zone, wall, j.at, j.before, j.after)
    requires -MAX_OFFSET <= j.before <= MAX_OFFSET && -MAX_OFFSET <= j.after <= MAX_OFFSET
    ensures var second := instant / 1000;
            WallSecond(zone, instant) < wall <==> second + (if second < j.at then j.before else j.after) < wall
  {
    assert -MAX_OFFSET <= zone(instant) <= MAX_OFFSET;
    var second := instant / 1000;
    if wall - MAX_OFFSET <= second <= wall + MAX_OFFSET {
      assert zone(instant) == if instant < j.at * 1000 then j.before else j.after;
    }
  }

  /** Near one jump, a midnight separates the earlier local days from an instant exactly when it is not misplaced. */
  lemma MidnightSplitsExactly(zone: Zone, day: int, j: Jump, instant: int)
    requires MidnightNear(zone, day, j)
    ensures MidnightOf(zone, day) == TwoPass(zone, day * SECONDS_PER_DAY) * 1000
    ensures (LocalDay(zone, instant) < day <==> instant < MidnightOf(zone, day))
            <==> !Misplaced(j, day * SECONDS_PER_DAY, instant / 1000)
  {
    hide UtcDay, DateOfDay, TzOffsetMs, Reconcile;
    var wall := day * SECONDS_PER_DAY;
    MidnightIsTwoPass(zone, day);
    TwoPassNear(zone, wall, j);
    ReadingNear(zone, wall, j, instant);
    DayNotBefore(WallSecond(zone, instant), day);
  }

  /** The midnight computed for a day reads an earlier day exactly when a jump past its own UTC second skips it. */
  lemma MidnightReadsItsDay(zone: Zone, day: int, j: Jump)
    requires MidnightNear(zone, day, j)
    ensures var wall := day * SECONDS_PER_DAY;
            LocalDay(zone, MidnightOf(zone, day)) < day <==> Skips(j, wall) && wall < j.at
  {
    hide LocalDay, MidnightOf, MidnightNear;
    var wall := day * SECONDS_PER_DAY;
    MidnightSplitsExactly(zone, day, j, MidnightOf(zone, day));
    WholeSecond(TwoPass(zone, wall));
    assert TwoPass(zone, wall) == MidnightOf(zone, day) / 1000;
    NearTwoPass(zone, day, j);
  }

  lemma NearTwoPass(zone: Zone, day: int, j: Jump)
    requires MidnightNear(zone, day, j)
    ensures var wall := day * SECONDS_PER_DAY;
            Misplaced(j, wall, TwoPass(zone, wall)) <==> Skips(j, wall) && wall < j.at
  {
    TwoPassNear(zone, day * SECONDS_PER_DAY, j);
  }

  lemma MidnightIsTwoPass(zone: Zone, day: int)
    requires BoundedOffsets(zone) && Reachable(day * SECONDS_PER_DAY)
    ensures MidnightOf(zone, day) == TwoPass(zone, day * SECONDS_PER_DAY) * 1000
  {
    hide UtcDay, DateOfDay, TzOffsetMs, Reconcile;
    var wall := day * SECONDS_PER_DAY;
    DayNotBefore(wall, FIRST_MODERN_DAY);
    ModernDay(day);
    WallMs(DateOfDay(day), 0);
    ReconcileIsTwoPass(zone, wall);
  }

  // ----- window edges as calendar days -----

  datatype WindowKind = Daily | Weekly | Monthly

  /** First date of the window holding `date`, and the date its end falls on. */
  function WindowDates(kind: WindowKind, date: Date): (edges: (Date, Date))
    requires ValidDate(date)
    ensures 1 <= edges.0.month <= 12 && 1 <= edges.1.month <= 12
  {
    match kind
    case Daily => (date, AddDays(date, 1))
    case Weekly =>
      var daysSinceMonday := (LocalWeekday(date) + 6) % 7;
      var monday := AddDays(date, -daysSinceMonday);
      (monday, AddDays(monday, 7))
    case Monthly =>
      (Date(date.year, date.month, 1),
       if date.month == 12 then Date(date.year + 1, 1, 1) else Date(date.year, date.month + 1, 1))
  }

  /** The same edges as day numbers: the reference the calendar arithmetic is compared with. */
  function StartDay(kind: WindowKind, day: int): int {
    match kind
    case Daily => day
    case Weekly => day - (day + 3) % 7
    case Monthly => day - (DateOfDay(day).day - 1)
  }

  function EndDay(kind: WindowKind, day: int): int {
    match kind
    case Daily => day + 1
    case Weekly => StartDay(kind, day) + 7
    case Monthly => StartDay(kind, day) + DaysInMonth(DateOfDay(day).year, DateOfDay(day).month)
  }

  lemma NextMonth(date: Date)
    requires ValidDate(date)
    ensures var next := if date.month == 12 then Date(date.year + 1, 1, 1) else Date(date.year, date.month + 1, 1);
            ValidDate(next) && DayNumber(next) == DayNumber(date) - date.day + 1 + DaysInMonth(date.year, date.month)
  {
    MonthTable(date.year);
    YearStep(date.year);
  }

  lemma DatesAreDays(kind: WindowKind, day: int)
    requires StartDay(kind, day) >= FIRST_MODERN_DAY
    ensures WindowDates(kind, DateOfDay(day)) == (DateOfDay(StartDay(kind, day)), DateOfDay(EndDay(kind, day)))
  {
    hide DayFromYear, DaysBeforeMonth, YearOfDay, DateOfDay;
    var date := DateOfDay(day);
    match kind
    case Daily =>
      ModernDay(day);
    case Weekly =>
      ModernDay(day);
      ModernDay(day - (day + 3) % 7);
      ModuloShift(day);
    case Monthly =>
      DateUnique(Date(date.year, date.month, 1));
      NextMonth(date);
      DateUnique(if date.month == 12 then Date(date.year + 1, 1, 1) else Date(date.year, date.month + 1, 1));
  }

  /** A window holds its day, and every day it holds has the same window. */
  lemma SamePeriod(kind: WindowKind, day: int, other: int)
    ensures StartDay(kind, day) <= day < EndDay(kind, day)
    ensures StartDay(kind, day) <= other < EndDay(kind, day)
            ==> StartDay(kind, other) == StartDay(kind, day) && EndDay(kind, other) == EndDay(kind, day)
  {
    hide DayFromYear, DaysBeforeMonth, YearOfDay, DateOfDay;
    var date := DateOfDay(day);
    if kind.Monthly? && StartDay(kind, day) <= other < EndDay(kind, day) {
      DateUnique(Date(date.year, date.month, 1 + other - StartDay(kind, day)));
    }
  }

  lemma PeriodsDisjoint(kind: WindowKind, day: int, other: int)
    requires other >= EndDay(kind, day)
    ensures StartDay(kind, other) >= EndDay(kind, day)
  {
    SamePeriod(kind, day, day);
    SamePeriod(kind, other, other);
    var last := EndDay(kind, day) - 1;
    SamePeriod(kind, day, last);
    SamePeriod(kind, other, last);
  }

  lemma PeriodsAbut(kind: WindowKind, day: int)
    ensures StartDay(kind, EndDay(kind, day)) == EndDay(kind, day)
  {
    PeriodsDisjoint(kind, day, EndDay(kind, day));
    SamePeriod(kind, EndDay(kind, day), EndDay(kind, day));
  }

  // ----- budget windows -----

  /** A half-open window of UTC instants and the zone whose midnights bound it. */
  datatype Bounds = Bounds(start: int, end: int, zone: Zone)

  datatype TimezoneChange = TimezoneChange(at: int, previous: Zone)

  function WindowContaining(kind: WindowKind, instant: int, zone: Zone): Bounds {
    var edges := WindowDates(kind, LocalCalendarDate(zone, instant));
    Bounds(LocalMidnight(zone, edges.0), LocalMidnight(zone, edges.1), zone)
  }

  /** Both midnights bounding the window of `instant` are ordinary ones. */
  ghost predicate OrdinaryWindow(kind: WindowKind, instant: int, zone: Zone) {
    var day := LocalDay(zone, instant);
    OrdinaryMidnight(zone, StartDay(kind, day)) && OrdinaryMidnight(zone, EndDay(kind, day))
  }

  /** Every window runs from the midnight of its period's first day to that of the next period's. */
  lemma WindowEdges(kind: WindowKind, instant: int, zone: Zone)
    requires StartDay(kind, LocalDay(zone, instant)) >= FIRST_MODERN_DAY
    ensures var day := LocalDay(zone, instant);
            WindowContaining(kind, instant, zone)
            == Bounds(MidnightOf(zone, StartDay(kind, day)), MidnightOf(zone, EndDay(kind, day)), zone)
  {
    hide DateOfDay, WindowDates, StartDay, EndDay, LocalMidnight;
    DatesAreDays(kind, LocalDay(zone, instant));
  }

  lemma ReachableDay(day: int)
    requires Reachable(day * SECONDS_PER_DAY)
    ensures day >= FIRST_MODERN_DAY
  {
    DayNotBefore(day * SECONDS_PER_DAY, FIRST_MODERN_DAY);
  }

  /** A window holds exactly the instants whose local day lies in its period. */
  lemma WindowMembers(kind: WindowKind, instant: int, zone: Zone, other: int)
    requires OrdinaryWindow(kind, instant, zone)
    ensures var day := LocalDay(zone, instant);
            var w := WindowContaining(kind, instant, zone);
            w.start <= other < w.end <==> StartDay(kind, day) <= LocalDay(zone, other) < EndDay(kind, day)
    ensures WindowContaining(kind, instant, zone).start <= instant < WindowContaining(kind, instant, zone).end
  {
    hide DateOfDay, WindowDates, StartDay, EndDay, LocalMidnight, LocalDay, WindowContaining, MidnightOf;
    var day := LocalDay(zone, instant);
    ReachableDay(StartDay(kind, day));
    WindowEdges(kind, instant, zone);
    SamePeriod(kind, day, day);
    MidnightSplits(zone, StartDay(kind, day), other);
    MidnightSplits(zone, EndDay(kind, day), other);
    MidnightSplits(zone, StartDay(kind, day), instant);
    MidnightSplits(zone, EndDay(kind, day), instant);
  }

  ghost predicate EdgesNear(kind: WindowKind, instant: int, zone: Zone, s: Jump, e: Jump) {
    var day := LocalDay(zone, instant);
    MidnightNear(zone, StartDay(kind, day), s) && MidnightNear(zone, EndDay(kind, day), e)
  }

  /** The instant is on its own side of both midnights of its window. */
  ghost predicate WellPlaced(kind: WindowKind, instant: int, zone: Zone, s: Jump, e: Jump) {
    var day := LocalDay(zone, instant);
    && !Misplaced(s, StartDay(kind, day) * SECONDS_PER_DAY, instant / 1000)
    && !Misplaced(e, EndDay(kind, day) * SECONDS_PER_DAY, instant / 1000)
  }

  /**
   * With at most one jump near each of its midnights, skipping or repeating them or not,
   * a window holds its own instant exactly when neither midnight misplaces the instant.
   */
  lemma WindowHoldsInstantExactly(kind: WindowKind, instant: int, zone: Zone, s: Jump, e: Jump)
    requires EdgesNear(kind, instant, zone, s, e)
    ensures var w := WindowContaining(kind, instant, zone);
            w.start <= instant < w.end <==> WellPlaced(kind, instant, zone, s, e)
  {
    hide DateOfDay, WindowDates, StartDay, EndDay, LocalMidnight, LocalDay, WindowContaining, MidnightOf, Misplaced;
    var day := LocalDay(zone, instant);
    ReachableDay(StartDay(kind, day));
    WindowEdges(kind, instant, zone);
    SamePeriod(kind, day, day);
    MidnightSplitsExactly(zone, StartDay(kind, day), s, instant);
    MidnightSplitsExactly(zone, EndDay(kind, day), e, instant);
  }

  ghost predicate EqualOrDisjoint(a: Bounds, b: Bounds) {
    (a.start == b.start && a.end == b.end) || a.end <= b.start || b.end <= a.start
  }

  /** Offsets a day apart at most: a zone that never moved across the date line. */
  ghost predicate WithinOneDay(zone: Zone) {
    BoundedOffsets(zone) && forall t, u :: zone(t) - zone(u) <= SECONDS_PER_DAY
  }

  /** The midnights of both days are ordinary, or at least those of a zone that never moved across the date line. */
  ghost predicate MidnightsInStep(zone: Zone, day: int, later: int) {
    || (OrdinaryMidnight(zone, day) && OrdinaryMidnight(zone, later))
    || (WithinOneDay(zone) && Reachable(day * SECONDS_PER_DAY) && Reachable(later * SECONDS_PER_DAY))
  }

  lemma MidnightsGrow(zone: Zone, day: int, later: int)
    requires MidnightsInStep(zone, day, later) && day <= later
    ensures MidnightOf(zone, day) <= MidnightOf(zone, later)
  {
    hide MidnightOf;
    if OrdinaryMidnight(zone, day) && OrdinaryMidnight(zone, later) {
      MidnightSplits(zone, day, MidnightOf(zone, later));
      MidnightSplits(zone, later, MidnightOf(zone, later));
    } else {
      MidnightIsTwoPass(zone, day);
      MidnightIsTwoPass(zone, later);
    }
  }

  /** Each window's edges are in step with the other's. */
  ghost predicate WindowsInStep(kind: WindowKind, instant: int, other: int, zone: Zone) {
    var day, day' := LocalDay(zone, instant), LocalDay(zone, other);
    MidnightsInStep(zone, EndDay(kind, day), StartDay(kind, day'))
    && MidnightsInStep(zone, EndDay(kind, day'), StartDay(kind, day))
  }

  /** Two windows of a kind are equal or disjoint, also around midnights that a jump skips or repeats. */
  lemma WindowsDisjoint(kind: WindowKind, instant: int, other: int, zone: Zone)
    requires WindowsInStep(kind, instant, other, zone)
    ensures EqualOrDisjoint(WindowContaining(kind, instant, zone), WindowContaining(kind, other, zone))
  {
    hide DateOfDay, WindowDates, StartDay, EndDay, LocalMidnight, LocalDay, WindowContaining, MidnightOf;
    var day, day' := LocalDay(zone, instant), LocalDay(zone, other);
    ReachableDay(StartDay(kind, day));
    ReachableDay(StartDay(kind, day'));
    WindowEdges(kind, instant, zone);
    WindowEdges(kind, other, zone);
    SamePeriod(kind, day, day');
    SamePeriod(kind, day', day);
    if day' >= EndDay(kind, day) {
      PeriodsDisjoint(kind, day, day');
      MidnightsGrow(zone, EndDay(kind, day), StartDay(kind, day'));
    } else if day >= EndDay(kind, day') {
      PeriodsDisjoint(kind, day', day);
      MidnightsGrow(zone, EndDay(kind, day'), StartDay(kind, day));
    }
  }

  /** The midnights of this window are ordinary, or near one jump each that does not misplace the instant. */
  ghost predicate InPlace(kind: WindowKind, instant: int, zone: Zone) {
    || OrdinaryWindow(kind, instant, zone)
    || exists s, e :: EdgesNear(kind, instant, zone, s, e) && WellPlaced(kind, instant, zone, s, e)
  }

  lemma InPlaceIsHeld(kind: WindowKind, instant: int, zone: Zone)
    requires InPlace(kind, instant, zone)
    ensures WindowContaining(kind, instant, zone).start <= instant < WindowContaining(kind, instant, zone).end
  {
    if OrdinaryWindow(kind, instant, zone) {
      WindowMembers(kind, instant, zone, instant);
    } else {
      hide WindowContaining, EdgesNear, WellPlaced;
      var s, e :| EdgesNear(kind, instant, zone, s, e) && WellPlaced(kind, instant, zone, s, e);
      WindowHoldsInstantExactly(kind, instant, zone, s, e);
    }
  }

  /** The window asked for at a window's end starts there, if that instant is in place. */
  lemma WindowsAbut(kind: WindowKind, instant: int, zone: Zone)
    requires InPlace(kind, instant, zone) && InPlace(kind, WindowContaining(kind, instant, zone).end, zone)
    requires WindowsInStep(kind, instant, WindowContaining(kind, instant, zone).end, zone)
    ensures var end := WindowContaining(kind, instant, zone).end;
            WindowContaining(kind, end, zone).start == end
  {
    hide WindowContaining, InPlace, WindowsInStep;
    var end := WindowContaining(kind, instant, zone).end;
    InPlaceIsHeld(kind, instant, zone);
    InPlaceIsHeld(kind, end, zone);
    WindowsDisjoint(kind, instant, end, zone);
  }

  /**
   * Near one jump of less than a day, the next window starts where this one ends except
   * when the jump skips that midnight and is past its UTC second.
   */
  lemma WindowsAbutExactly(kind: WindowKind, instant: int, zone: Zone, s: Jump, e: Jump)
    requires EdgesNear(kind, instant, zone, s, e) && WellPlaced(kind, instant, zone, s, e)
    requires e.after - e.before < SECONDS_PER_DAY
    ensures var end := WindowContaining(kind, instant, zone).end;
            var wall := EndDay(kind, LocalDay(zone, instant)) * SECONDS_PER_DAY;
            WindowContaining(kind, end, zone).start == end <==> !(Skips(e, wall) && wall < e.at)
  {
    hide DateOfDay, WindowDates, StartDay, EndDay, LocalMidnight, LocalDay, WindowContaining, MidnightOf, Misplaced;
    var day := LocalDay(zone, instant);
    var next := EndDay(kind, day);
    WindowHoldsInstantExactly(kind, instant, zone, s, e);
    SamePeriod(kind, day, day);
    ReachableDay(StartDay(kind, day));
    WindowEdges(kind, instant, zone);
    var end := MidnightOf(zone, next);
    MidnightReadsItsDay(zone, next, e);
    MidnightReadsNear(zone, next, e);
    if LocalDay(zone, end) == next {
      PeriodsAbut(kind, day);
    } else {
      SamePeriod(kind, day, next - 1);
    }
    WindowEdges(kind, end, zone);
  }

  /** A jump of less than a day takes a midnight no further than the day before. */
  lemma MidnightReadsNear(zone: Zone, day: int, j: Jump)
    requires MidnightNear(zone, day, j) && j.after - j.before < SECONDS_PER_DAY
    ensures day - 1 <= LocalDay(zone, MidnightOf(zone, day)) <= day
  {
    hide MidnightOf;
    var wall := day * SECONDS_PER_DAY;
    MidnightIsTwoPass(zone, day);
    TwoPassNear(zone, wall, j);
    var second := TwoPass(zone, wall);
    WholeSecond(second);
    assert zone(second * 1000) == if second < j.at then j.before else j.after;
    DayNotBefore(WallSecond(zone, second * 1000), day - 1);
    DayNotBefore(WallSecond(zone, second * 1000), day + 1);
  }

  // ----- an instance west of Greenwich -----

  /** Local midnight of 15 October 2017 (day 17454), when clocks three hours behind moved to two hours behind. */
  const SPRING_DAY := 17_454

  const SPRING_JUMP := Jump(SPRING_DAY * SECONDS_PER_DAY + 10_800, -10_800, -7_200)

  function SpringZone(): Zone {
    t => if t < SPRING_JUMP.at * 1000 then SPRING_JUMP.before else SPRING_JUMP.after
  }

  lemma SpringMidnight(day: int)
    requires SPRING_DAY - 1 <= day <= SPRING_DAY
    ensures MidnightNear(SpringZone(), day, SPRING_JUMP)
  {
  }

  /**
   * The skipped midnight resolves to an instant that reads 23:00 on the day before, an hour
   * before the jump. For that hour the daily window ends before the instant it was asked
   * for, and the window asked for at its end is the same one again.
   */
  lemma SkippedMidnightInstance()
    ensures var zone := SpringZone();
            var midnight := MidnightOf(zone, SPRING_DAY);
            var t := (SPRING_JUMP.at - 1) * 1000;
            && WallSecond(zone, midnight) == SPRING_DAY * SECONDS_PER_DAY - 3600
            && LocalDay(zone, midnight) == LocalDay(zone, t) == SPRING_DAY - 1
            && WindowContaining(Daily, t, zone).end == midnight == t + 1000 - 3_600_000
            && WindowContaining(Daily, t, zone).end <= t
            && WindowContaining(Daily, midnight, zone).end == midnight
  {
    hide DateOfDay, WindowDates, LocalMidnight, WindowContaining, MidnightOf;
    var zone := SpringZone();
    SpringMidnight(SPRING_DAY);
    SpringMidnight(SPRING_DAY - 1);
    MidnightIsTwoPass(zone, SPRING_DAY);
    TwoPassNear(zone, SPRING_DAY * SECONDS_PER_DAY, SPRING_JUMP);
    var midnight := MidnightOf(zone, SPRING_DAY);
    var t := (SPRING_JUMP.at - 1) * 1000;
    ReachableDay(SPRING_DAY - 1);
    WindowEdges(Daily, t, zone);
    WindowEdges(Daily, midnight, zone);
  }

  // ----- across a timezone change -----

  /**
   * The window active at `now`: the one open when the zone changed stays pinned in
   * the previous zone, and later windows follow `zone`, starting no earlier than
   * the pinned window's end.
   */
  function EffectiveWindow(kind: WindowKind, now: int, zone: Zone, change: Option<TimezoneChange>): Bounds {
    if change.None? || now < change.value.at then WindowContaining(kind, now, zone)
    else
      var pinned := WindowContaining(kind, change.value.at, change.value.previous);
      if now < pinned.end then pinned
      else
        var natural := WindowContaining(kind, now, zone);
        if natural.start < pinned.end then Bounds(pinned.end, natural.end, zone) else natural
  }

  ghost predicate IsPinned(kind: WindowKind, now: int, change: Option<TimezoneChange>) {
    change.Some? && now < WindowContaining(kind, change.value.at, change.value.previous).end
  }

  /** No change recorded, or it has already happened; and the instants asked for are in place. */
  ghost predicate Settled(kind: WindowKind, now: int, zone: Zone, change: Option<TimezoneChange>) {
    && (change.Some? ==> change.value.at <= now && InPlace(kind, change.value.at, change.value.previous))
    && (!IsPinned(kind, now, change) ==> InPlace(kind, now, zone))
  }

  lemma EffectiveWindowContains(kind: WindowKind, now: int, zone: Zone, change: Option<TimezoneChange>)
    requires Settled(kind, now, zone, change)
    ensures var w := EffectiveWindow(kind, now, zone, change); w.start <= now < w.end
  {
    hide WindowContaining, LocalDay, InPlace;
    if change.Some? {
      InPlaceIsHeld(kind, change.value.at, change.value.previous);
    }
    if !IsPinned(kind, now, change) {
      InPlaceIsHeld(kind, now, zone);
    }
  }

  /** Two windows that both follow the new zone have their midnights in step. */
  ghost predicate BothInStep(kind: WindowKind, now: int, later: int, zone: Zone, change: Option<TimezoneChange>) {
    !IsPinned(kind, now, change) && !IsPinned(kind, later, change) ==> WindowsInStep(kind, now, later, zone)
  }

  /** From the change onward any two windows, stub and pinned window included, are equal or disjoint. */
  lemma EffectiveWindowsDisjoint(kind: WindowKind, now: int, later: int, zone: Zone, change: Option<TimezoneChange>)
    requires Settled(kind, now, zone, change) && Settled(kind, later, zone, change)
    requires BothInStep(kind, now, later, zone, change)
    ensures EqualOrDisjoint(EffectiveWindow(kind, now, zone, change), EffectiveWindow(kind, later, zone, change))
  {
    hide WindowContaining, LocalDay, InPlace, WindowsInStep;
    if !IsPinned(kind, now, change) && !IsPinned(kind, later, change) {
      WindowsDisjoint(kind, now, later, zone);
      InPlaceIsHeld(kind, now, zone);
      InPlaceIsHeld(kind, later, zone);
    }
  }

  /** Each window starts where the one before it ends, also across the seam. */
  lemma EffectiveWindowsAbut(kind: WindowKind, now: int, zone: Zone, change: Option<TimezoneChange>)
    requires Settled(kind, now, zone, change)
    requires var end := EffectiveWindow(kind, now, zone, change).end;
             Settled(kind, end, zone, change) && BothInStep(kind, now, end, zone, change)
    ensures var end := EffectiveWindow(kind, now, zone, change).end;
            EffectiveWindow(kind, end, zone, change).start == end
  {
    hide EffectiveWindow, Settled, BothInStep;
    var end := EffectiveWindow(kind, now, zone, change).end;
    EffectiveWindowContains(kind, now, zone, change);
    EffectiveWindowContains(kind, end, zone, change);
    EffectiveWindowsDisjoint(kind, now, end, zone, change);
  }

  // ----- periods and the seam, in calendar terms -----

  /** A day is its own period; a week runs from Monday for seven days; a month from its first to the next month's. */
  lemma PeriodsMeaning(kind: WindowKind, day: int)
    requires StartDay(kind, day) >= FIRST_MODERN_DAY
    ensures var first, past, date := StartDay(kind, day), EndDay(kind, day), DateOfDay(day);
            && first <= day < past
            && match kind
               case Daily => first == day && past == day + 1
               case Weekly => IsoWeekday(DateOfDay(first)) == 1 && past == first + 7
               case Monthly =>
                 && DateOfDay(first) == Date(date.year, date.month, 1)
                 && DateOfDay(past).day == 1
                 && DateOfDay(past).year * 12 + DateOfDay(past).month == date.year * 12 + date.month + 1
  {
    hide DayFromYear, DaysBeforeMonth, YearOfDay, DateOfDay;
    SamePeriod(kind, day, day);
    var date := DateOfDay(day);
    match kind
    case Daily =>
    case Weekly =>
      WeekdayOfDay(StartDay(kind, day));
      MondayBefore(day);
    case Monthly =>
      NextMonth(date);
      DateUnique(Date(date.year, date.month, 1));
      DateUnique(if date.month == 12 then Date(date.year + 1, 1, 1) else Date(date.year, date.month + 1, 1));
  }

  lemma MondayBefore(day: int)
    ensures (day - (day + 3) % 7 + 3) % 7 == 0
  {
    var q := (day + 3) / 7;
    assert day + 3 == 7 * q + (day + 3) % 7;
  }

  /**
   * A timezone change leaves the window it falls in alone, in the old zone. Past that
   * window's end the new zone's windows apply: at most the first of them starts later than
   * it naturally would, at the old window's end, and none ends at another time.
   */
  lemma SeamMeaning(kind: WindowKind, now: int, zone: Zone, change: TimezoneChange)
    ensures var w := EffectiveWindow(kind, now, zone, Some(change));
            var pinned := WindowContaining(kind, change.at, change.previous);
            var natural := WindowContaining(kind, now, zone);
            && (now < change.at ==> w == natural)
            && (change.at <= now < pinned.end ==> w == pinned && w.zone == change.previous)
            && (change.at <= now && pinned.end <= now ==>
                  && w.end == natural.end && w.zone == zone
                  && w.start >= natural.start && w.start >= pinned.end
                  && (w.start == natural.start || w.start == pinned.end))
    ensures EffectiveWindow(kind, now, zone, None) == WindowContaining(kind, now, zone)
  {
    hide WindowDates, LocalMidnight, LocalCalendarDate;
  }
}
