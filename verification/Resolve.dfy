// The day resolver's access windows: which rules apply on a day, the sweep over
// rule edges, and its agreement with a minute-by-minute reading of the rules.

module Resolve {
  import opened Common
  import opened Calendar
  import opened BudgetWindow
  import opened SchedulePrecedence
  import opened Windows

  const MS_PER_MINUTE := 60_000

  /** A rule that is a candidate on a day, with its window in that day's local minutes. */
  datatype ActiveRule = ActiveRule(
    id: int, targetKind: Scope, targetId: Option<int>, action: Action, startMinute: int, endMinute: int)

  predicate Covers(rule: ActiveRule, minute: int) {
    rule.startMinute <= minute < rule.endMinute
  }

  function CoveringMinute(minute: int): ActiveRule -> bool {
    (rule: ActiveRule) => Covers(rule, minute)
  }

  // ----- the meaning of an overall rule list, minute by minute -----

  function LowEdge(rules: seq<ActiveRule>): int {
    if rules == [] then 0
    else Min(LowEdge(rules[1..]), Min(rules[0].startMinute, rules[0].endMinute))
  }

  function HighEdge(rules: seq<ActiveRule>): int {
    if rules == [] then MINUTES_PER_DAY
    else Max(HighEdge(rules[1..]), Max(rules[0].startMinute, rules[0].endMinute))
  }

  /** The first rule covering the minute, in precedence order, denies it. */
  predicate DenyWins(rules: seq<ActiveRule>, minute: int) {
    var winner := Find(CoveringMinute(minute), rules);
    winner.Some? && winner.value.action.Deny?
  }

  predicate Extended(rules: seq<ActiveRule>, minute: int) {
    exists i | 0 <= i < |rules| :: rules[i].action.Extend? && Covers(rules[i], minute)
  }

  /** Access is open unless a deny is the first rule covering the minute, and always inside an extension. */
  predicate MinuteAllowed(rules: seq<ActiveRule>, minute: int) {
    Extended(rules, minute) || !DenyWins(rules, minute)
  }

  function AllowedAt(rules: seq<ActiveRule>): int -> bool {
    minute => MinuteAllowed(rules, minute)
  }

  /** The reference answer: the maximal runs of allowed minutes between the outermost edges. */
  function AllowedRuns(rules: seq<ActiveRule>): seq<AllowedWindow> {
    Runs(AllowedAt(rules), LowEdge(rules), HighEdge(rules))
  }

  // ----- the edge sweep -----

  ghost predicate IsEdge(rules: seq<ActiveRule>, x: int) {
    x == 0 || x == MINUTES_PER_DAY
    || exists i | 0 <= i < |rules| :: x == rules[i].startMinute || x == rules[i].endMinute
  }

  lemma {:induction false} EdgeBounds(rules: seq<ActiveRule>)
    ensures IsEdge(rules, LowEdge(rules)) && IsEdge(rules, HighEdge(rules))
    ensures forall x | IsEdge(rules, x) :: LowEdge(rules) <= x <= HighEdge(rules)
    ensures LowEdge(rules) <= 0 && MINUTES_PER_DAY <= HighEdge(rules)
  {
    if rules != [] {
      EdgeBounds(rules[1..]);
      forall x ensures IsEdge(rules, x)
             <==> IsEdge(rules[1..], x) || x == rules[0].startMinute || x == rules[0].endMinute {
        EdgeCons(rules, x);
      }
    }
  }

  lemma EdgeCons(rules: seq<ActiveRule>, x: int)
    requires rules != []
    ensures IsEdge(rules, x) <==> IsEdge(rules[1..], x) || x == rules[0].startMinute || x == rules[0].endMinute
  {
    var rest := rules[1..];
    if IsEdge(rest, x) && x != 0 && x != MINUTES_PER_DAY {
      var i :| 0 <= i < |rest| && (x == rest[i].startMinute || x == rest[i].endMinute);
      assert rules[i + 1] == rest[i];
    }
    if IsEdge(rules, x) && x != 0 && x != MINUTES_PER_DAY {
      var i :| 0 <= i < |rules| && (x == rules[i].startMinute || x == rules[i].endMinute);
      assert i > 0 ==> rules[i] == rest[i - 1];
    }
  }

  function SpansSegment(start: int, end: int): ActiveRule -> bool {
    (rule: ActiveRule) => rule.startMinute <= start && rule.endMinute >= end
  }

  /** Between neighbouring edges no rule starts or stops, so one winner decides the whole segment. */
  lemma SegmentWinner(rules: seq<ActiveRule>, points: seq<int>, i: nat, minute: int)
    requires Ascending(points) && i + 1 < |points| && points[i] <= minute < points[i + 1]
    requires forall x | IsEdge(rules, x) :: x in points
    ensures Find(SpansSegment(points[i], points[i + 1]), rules) == Find(CoveringMinute(minute), rules)
  {
    forall rule | rule in rules
      ensures SpansSegment(points[i], points[i + 1])(rule) == CoveringMinute(minute)(rule)
    {
      assert IsEdge(rules, rule.startMinute) && IsEdge(rules, rule.endMinute);
      NoPointInside(points, i, rule.startMinute);
      NoPointInside(points, i, rule.endMinute);
    }
    FindAgree(SpansSegment(points[i], points[i + 1]), CoveringMinute(minute), rules);
  }

  lemma NoPointInside(points: seq<int>, i: nat, x: int)
    requires Ascending(points) && i + 1 < |points| && x in points
    ensures x <= points[i] || x >= points[i + 1]
  {
    var k :| 0 <= k < |points| && points[k] == x;
  }

  function IsExtend(rule: ActiveRule): bool {
    rule.action.Extend?
  }

  function WindowOf(rule: ActiveRule): AllowedWindow {
    AllowedWindow(rule.startMinute, rule.endMinute)
  }

  function ExtendWindows(rules: seq<ActiveRule>): seq<AllowedWindow> {
    Map(WindowOf, Filter(IsExtend, rules))
  }

  lemma ExtendWindowsMeaning(rules: seq<ActiveRule>, minute: int)
    ensures Allows(ExtendWindows(rules), minute) <==> Extended(rules, minute)
  {
    var kept, windows := Filter(IsExtend, rules), ExtendWindows(rules);
    forall k | 0 <= k < |kept| ensures Contains(windows[k], minute) <==> Covers(kept[k], minute) {
    }
    forall rule ensures rule in kept <==> rule in rules && rule.action.Extend? {
      FilterMember(IsExtend, rules, rule);
    }
    hide Filter, ExtendWindows, Contains, Covers;
    if k :| 0 <= k < |windows| && Contains(windows[k], minute) {
      assert kept[k] in rules;
    }
    if i :| 0 <= i < |rules| && rules[i].action.Extend? && Covers(rules[i], minute) {
      var k :| 0 <= k < |kept| && kept[k] == rules[i];
      assert Contains(windows[k], minute);
    }
  }

  lemma ExtendedInside(rules: seq<ActiveRule>, minute: int)
    requires Extended(rules, minute)
    ensures LowEdge(rules) <= minute < HighEdge(rules)
  {
    EdgeBounds(rules);
    var i :| 0 <= i < |rules| && rules[i].action.Extend? && Covers(rules[i], minute);
    assert IsEdge(rules, rules[i].startMinute) && IsEdge(rules, rules[i].endMinute);
  }

  /** Every edge once, in ascending order. */
  method SegmentPoints(rules: seq<ActiveRule>) returns (points: seq<int>)
    ensures Ascending(points)
    ensures forall x :: x in points <==> IsEdge(rules, x)
    ensures |points| >= 2 && points[0] == LowEdge(rules) && points[|points| - 1] == HighEdge(rules)
  {
    var edges := [0, MINUTES_PER_DAY];
    for k := 0 to |rules|
      invariant NoDuplicates(edges)
      invariant forall x :: x in edges <==> IsEdge(rules[..k], x)
    {
      assert rules[..k + 1] == rules[..k] + [rules[k]];
      forall x ensures IsEdge(rules[..k + 1], x) <==>
                       IsEdge(rules[..k], x) || x == rules[k].startMinute || x == rules[k].endMinute {
        EdgeAppend(rules[..k], rules[k], x);
      }
      edges := AddToSet(edges, rules[k].startMinute);
      edges := AddToSet(edges, rules[k].endMinute);
    }
    assert rules[..|rules|] == rules;
    points := SortNumbers(edges);
    SortNumbersAscending(edges);
    EdgeBounds(rules);
    assert IsEdge(rules, 0) && IsEdge(rules, MINUTES_PER_DAY);
    assert 0 in points && MINUTES_PER_DAY in points && LowEdge(rules) in points && HighEdge(rules) in points;
    assert points[0] in points && points[|points| - 1] in points;
  }

  lemma EdgeAppend(rules: seq<ActiveRule>, rule: ActiveRule, x: int)
    ensures IsEdge(rules + [rule], x) <==> IsEdge(rules, x) || x == rule.startMinute || x == rule.endMinute
  {
    var more := rules + [rule];
    if IsEdge(rules, x) && x != 0 && x != MINUTES_PER_DAY {
      var i :| 0 <= i < |rules| && (x == rules[i].startMinute || x == rules[i].endMinute);
      assert more[i] == rules[i];
    }
    assert more[|rules|] == rule;
  }

  /**
   * First-match over the segments between rule edges, widened by every extension.
   * For any rule list, in or out of the day, the result is the canonical list of the
   * minutes the rules allow.
   */
  method ResolveAllowedWindows(overallRules: seq<ActiveRule>) returns (allowed: seq<AllowedWindow>)
    ensures Canonical(allowed)
    ensures forall m :: Allows(allowed, m) <==>
                        LowEdge(overallRules) <= m < HighEdge(overallRules) && MinuteAllowed(overallRules, m)
    ensures allowed == AllowedRuns(overallRules)
  {
    var points := SegmentPoints(overallRules);
    var windows: seq<AllowedWindow> := [];
    for i := 0 to |points| - 1
      invariant forall m :: Allows(windows, m) <==> points[0] <= m < points[i] && !DenyWins(overallRules, m)
    {
      var start, end := points[i], points[i + 1];
      var winner := Find(SpansSegment(start, end), overallRules);
      var open := winner.None? || !winner.value.action.Deny?;
      forall m ensures start <= m < end ==> (open <==> !DenyWins(overallRules, m)) {
        if start <= m < end {
          SegmentWinner(overallRules, points, i, m);
        }
      }
      if open {
        var segment := AllowedWindow(start, end);
        forall m ensures Allows(windows + [segment], m) <==> Allows(windows, m) || start <= m < end {
          AllowsConcat(windows, [segment], m);
          AllowsSingle(segment, m);
        }
        windows := windows + [segment];
      }
    }
    var widened := windows + ExtendWindows(overallRules);
    allowed := MergeWindows(widened);
    forall m ensures Allows(allowed, m) <==>
                     LowEdge(overallRules) <= m < HighEdge(overallRules) && MinuteAllowed(overallRules, m) {
      AllowsConcat(windows, ExtendWindows(overallRules), m);
      ExtendWindowsMeaning(overallRules, m);
      if Extended(overallRules, m) {
        ExtendedInside(overallRules, m);
      }
    }
    CanonicalIsRuns(allowed, AllowedAt(overallRules), LowEdge(overallRules), HighEdge(overallRules));
  }

  ghost predicate WithinDay(rules: seq<ActiveRule>) {
    forall i | 0 <= i < |rules| ::
             0 <= rules[i].startMinute <= MINUTES_PER_DAY && 0 <= rules[i].endMinute <= MINUTES_PER_DAY
  }

  lemma {:induction false} DayEdges(rules: seq<ActiveRule>)
    requires WithinDay(rules)
    ensures LowEdge(rules) == 0 && HighEdge(rules) == MINUTES_PER_DAY
  {
    if rules != [] {
      DayEdges(rules[1..]);
    }
  }

  /** On ordinary days: a minute of the day is in the result exactly when the rules allow it. */
  lemma AllowedRunsMeaning(rules: seq<ActiveRule>, minute: int)
    requires WithinDay(rules)
    ensures Canonical(AllowedRuns(rules))
    ensures Allows(AllowedRuns(rules), minute) <==> 0 <= minute < MINUTES_PER_DAY && MinuteAllowed(rules, minute)
  {
    DayEdges(rules);
    RunsMeaning(AllowedAt(rules), LowEdge(rules), HighEdge(rules), minute);
  }

  /** Adding an extension at any precedence never removes an allowed minute, whatever else is listed. */
  lemma ExtendNeverRemoves(rules: seq<ActiveRule>, k: nat, extra: ActiveRule, minute: int)
    requires k <= |rules| && extra.action.Extend?
    requires Allows(AllowedRuns(rules), minute)
    ensures Allows(AllowedRuns(rules[..k] + [extra] + rules[k..]), minute)
  {
    var more := rules[..k] + [extra] + rules[k..];
    AllowedRunsMinutes(rules, minute);
    AllowedRunsMinutes(more, minute);
    hide AllowedRuns, LowEdge, HighEdge, MinuteAllowed;
    EdgesWiden(rules, k, extra);
    ExtendKeepsMeaning(rules, k, extra, minute);
  }

  lemma AllowedRunsMinutes(rules: seq<ActiveRule>, minute: int)
    ensures Allows(AllowedRuns(rules), minute)
            <==> LowEdge(rules) <= minute < HighEdge(rules) && MinuteAllowed(rules, minute)
  {
    RunsMeaning(AllowedAt(rules), LowEdge(rules), HighEdge(rules), minute);
  }

  lemma EdgesWiden(rules: seq<ActiveRule>, k: nat, extra: ActiveRule)
    requires k <= |rules|
    ensures var more := rules[..k] + [extra] + rules[k..];
            LowEdge(more) <= LowEdge(rules) && HighEdge(rules) <= HighEdge(more)
  {
    var more := rules[..k] + [extra] + rules[k..];
    EdgeBounds(rules);
    EdgeBounds(more);
    hide LowEdge, HighEdge;
    forall x | IsEdge(rules, x) ensures IsEdge(more, x) {
      if x != 0 && x != MINUTES_PER_DAY {
        var i :| 0 <= i < |rules| && (x == rules[i].startMinute || x == rules[i].endMinute);
        assert rules[i] == if i < k then more[i] else more[i + 1];
      }
    }
  }

  lemma ExtendKeepsMeaning(rules: seq<ActiveRule>, k: nat, extra: ActiveRule, minute: int)
    requires k <= |rules| && extra.action.Extend? && MinuteAllowed(rules, minute)
    ensures MinuteAllowed(rules[..k] + [extra] + rules[k..], minute)
  {
    var more := rules[..k] + [extra] + rules[k..];
    if Extended(rules, minute) {
      var i :| 0 <= i < |rules| && rules[i].action.Extend? && Covers(rules[i], minute);
      assert rules[i] == if i < k then more[i] else more[i + 1];
    } else if Covers(extra, minute) {
      assert more[k] == extra;
    } else {
      var p := CoveringMinute(minute);
      FindConcat(p, rules[..k], rules[k..]);
      assert rules == rules[..k] + rules[k..];
      FindConcat(p, rules[..k] + [extra], rules[k..]);
      FindConcat(p, rules[..k], [extra]);
      FindCons(p, extra, []);
    }
  }

  // ----- which rules apply -----

  function PowerOfTwo(n: nat): (p: int)
    ensures p > 0
  {
    if n == 0 then 1 else 2 * PowerOfTwo(n - 1)
  }

  /** Bit `weekday - 1` of an ISO weekday mask (bit 0 = Monday). */
  predicate MaskCovers(mask: int, weekday: int)
    requires 1 <= weekday <= 7
  {
    mask / PowerOfTwo(weekday - 1) % 2 == 1
  }

  predicate IsAlwaysOn(rule: ScheduleRule) {
    rule.recurrenceDays.None? && rule.recurrenceStartMinute.None? && rule.recurrenceEndMinute.None?
  }

  predicate DateGateAt(rule: ScheduleRule, at: int) {
    && (rule.effectiveFrom.Some? ==> rule.effectiveFrom.value <= at)
    && (rule.effectiveTo.Some? ==> at < rule.effectiveTo.value)
  }

  /** Is the rule active at an instant? */
  predicate IsRuleActiveAt(rule: ScheduleRule, at: int, zone: Zone) {
    if !DateGateAt(rule, at) then false
    else if IsAlwaysOn(rule) then true
    else if
      && rule.recurrenceDays.Some?
      && !MaskCovers(rule.recurrenceDays.value, IsoWeekday(LocalCalendarDate(zone, at)))
    then false
    else if rule.recurrenceStartMinute.Some? && rule.recurrenceEndMinute.Some? then
      rule.recurrenceStartMinute.value <= LocalTimeOfDayMinutes(zone, at) < rule.recurrenceEndMinute.value
    else true
  }

  function RuleActiveAt(at: int, zone: Zone): RuleActivePredicate {
    (rule: ScheduleRule) => IsRuleActiveAt(rule, at, zone)
  }

  predicate DateGateOnDay(rule: ScheduleRule, dayStart: int, dayEnd: int) {
    && !(rule.effectiveFrom.Some? && rule.effectiveFrom.value >= dayEnd)
    && !(rule.effectiveTo.Some? && rule.effectiveTo.value <= dayStart)
  }

  predicate AppliesOnDay(rule: ScheduleRule, weekday: int, dayStart: int, dayEnd: int)
    requires 1 <= weekday <= 7
  {
    && DateGateOnDay(rule, dayStart, dayEnd)
    && !(rule.recurrenceDays.Some? && !MaskCovers(rule.recurrenceDays.value, weekday))
  }

  function AppliesOn(weekday: int, dayStart: int, dayEnd: int): ScheduleRule -> bool
    requires 1 <= weekday <= 7
  {
    (rule: ScheduleRule) => AppliesOnDay(rule, weekday, dayStart, dayEnd)
  }

  function Project(rule: ScheduleRule): ActiveRule {
    ActiveRule(
      rule.id, rule.targetKind, rule.targetId, rule.action,
      rule.recurrenceStartMinute.GetOr(0), rule.recurrenceEndMinute.GetOr(MINUTES_PER_DAY))
  }

  /** The schedule rules in play on a day, in precedence order. */
  function ActiveRulesOn(schedules: seq<ScheduleRule>, weekday: int, dayStart: int, dayEnd: int): seq<ActiveRule>
    requires 1 <= weekday <= 7
  {
    Map(Project, Filter(AppliesOn(weekday, dayStart, dayEnd), ByOrdinal(schedules)))
  }

  // ----- exceptions -----

  datatype ExceptionInput = ExceptionInput(
    id: int, targetKind: Scope, targetId: Option<int>, action: Action,
    effectiveFrom: Option<int>, expiresAt: int, createdAt: int)

  predicate ExceptionActiveAt(exc: ExceptionInput, at: int) {
    exc.effectiveFrom.GetOr(exc.createdAt) <= at < exc.expiresAt
  }

  /** `Math.round(ms / 60000)`: halves round up. */
  function RoundToMinutes(ms: int): int {
    (ms + MS_PER_MINUTE / 2) / MS_PER_MINUTE
  }

  /** The exception's minutes on the day, or nothing when its active window misses the day. */
  function ExceptionWindowOnDay(exc: ExceptionInput, dayStart: int, dayEnd: int): Option<AllowedWindow> {
    var start := Max(exc.effectiveFrom.GetOr(exc.createdAt), dayStart);
    var end := Min(exc.expiresAt, dayEnd);
    if start >= end then None
    else Some(AllowedWindow(RoundToMinutes(start - dayStart), RoundToMinutes(end - dayStart)))
  }

  /**
   * For every exception and every day length: a minute the day reaches into is covered
   * exactly when the exception is active just before the middle of that minute.
   */
  lemma ExceptionCoversMinute(exc: ExceptionInput, dayStart: int, dayEnd: int, minute: int)
    requires minute >= 0
    requires dayStart + minute * MS_PER_MINUTE + 29_999 < dayEnd
    ensures var w := ExceptionWindowOnDay(exc, dayStart, dayEnd);
            (w.Some? && Contains(w.value, minute))
            <==> ExceptionActiveAt(exc, dayStart + minute * MS_PER_MINUTE + 29_999)
  {
  }

  /** It has no window exactly when it is active at no instant of the day. */
  lemma ExceptionMissesDay(exc: ExceptionInput, dayStart: int, dayEnd: int)
    ensures ExceptionWindowOnDay(exc, dayStart, dayEnd).None?
            <==> forall t | dayStart <= t < dayEnd :: !ExceptionActiveAt(exc, t)
  {
    var start := Max(exc.effectiveFrom.GetOr(exc.createdAt), dayStart);
    if start < dayEnd && start < exc.expiresAt {
      assert ExceptionActiveAt(exc, start);
    }
  }

  /** On a 24-hour day every exception's window lies inside the day. */
  lemma ExceptionWithinDay(exc: ExceptionInput, dayStart: int, dayEnd: int)
    requires dayEnd == dayStart + MS_PER_DAY && ExceptionWindowOnDay(exc, dayStart, dayEnd).Some?
    ensures var w := ExceptionWindowOnDay(exc, dayStart, dayEnd).value;
            0 <= w.start <= w.end <= MINUTES_PER_DAY
  {
  }

  function ExceptionRulesOn(exceptions: seq<ExceptionInput>, dayStart: int, dayEnd: int): seq<ActiveRule> {
    if exceptions == [] then []
    else
      var exc := exceptions[0];
      var window := ExceptionWindowOnDay(exc, dayStart, dayEnd);
      (if window.None? then []
       else [ActiveRule(exc.id, exc.targetKind, exc.targetId, exc.action, window.value.start, window.value.end)])
      + ExceptionRulesOn(exceptions[1..], dayStart, dayEnd)
  }

  function IsOverall(rule: ActiveRule): bool {
    rule.targetKind.Overall?
  }

  /** The overall rules of a day, exceptions first. */
  function OverallRulesOn(
    schedules: seq<ScheduleRule>, exceptions: seq<ExceptionInput>,
    weekday: int, dayStart: int, dayEnd: int): seq<ActiveRule>
    requires 1 <= weekday <= 7
  {
    Filter(IsOverall, ExceptionRulesOn(exceptions, dayStart, dayEnd))
    + Filter(IsOverall, ActiveRulesOn(schedules, weekday, dayStart, dayEnd))
  }
}
