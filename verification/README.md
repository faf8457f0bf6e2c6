# Parental-control policy engine: a verified model

This project models the part of the repository that decides how much screen time a
supervised user has and makes that decision take effect: resolving ordered rules,
one-off exceptions, budgets, group inheritance and grants into the windows and quotas of
a day; placing budget windows on a time line with timezone changes; pulling usage from
clients so that every second is counted once; enforcing exhausted quotas with cool-downs
and grace timers; and delivering events to clients and agents. It also covers the
smaller stateful pieces those parts lean on: bounded concurrent mapping, the failed-login
limiter, the warning cadence, batched deletion and matcher translation.

Each module follows one source file, or one concern of it:

- `Windows`, `Resolve`, `EffectivePolicy`, `NextTransition`, `WeeklyWindows`: the day
  resolver and its fast forms, each proved equal to a minute-by-minute reading.
- `Weekdays`, `PlainReading`, `PlainBudgets`: what those answers come to in the stored
  rows' own terms: weekdays as sets of days, precedence as a comparison of ordinals and
  ids, allowances row by row.
- `SchedulePrecedence`, `GroupResolution`, `GatheredExceptions`, `Budgets`: precedence,
  inheritance and quotas.
- `Calendar`, `BudgetWindow`, `Usage`: Gregorian day numbers, wall time in a zone, budget
  windows and the usage summed over them.
- `Telemetry`: the pull protocol over failures, crashes, restarts and a clock that may go
  back.
- `EnforcementDecision`, `EnforcementSweep`, `ForceClose`: decisions, the sweep that
  carries their cool-down, and grace timers.
- `EventProtocol`, `EventHub`, `EventStream`, `Framing`: the handshake, the fan-out
  registry, liveness, and the newline-framed local socket.
- `Concurrency`, `Cadence`, `RateLimit`, `Retention`, `Purge`, `GlobPattern`,
  `ActivityMatcher`: the smaller algorithms.
- `Common`: optional values, stable sorting, filtering and first-match facts.

How the program's world is modelled:

- An instant is an integer number of milliseconds; a stored timestamp is whole seconds,
  rounded down. A timezone is a function from instants to an offset in seconds, so the
  model holds for every zone. Near one change of offset, which may skip or repeat a local
  midnight, the model proves which instants their own window holds
  (`WindowHoldsInstantExactly`); claims across windows are about instants in place in
  that sense (`InPlace`), which every instant is whose midnights occur exactly once.
- The clock, the database rows, the loader's and the evaluator's failures, a client's
  answer, a socket's readiness and a user-supplied regular expression are inputs, so
  each theorem holds whatever they are.
- Interleavings are sequences of steps. Classes carry the source's mutable fields, and
  each of their methods is proved to perform one such step; the theorems are about every
  sequence of steps.

Where the code and its comments differ, the model follows the code and states the
difference:

- `BudgetWindow.SkippedWallTime`: a comment (server/src/policy/budget-window.ts:179-185)
  says a skipped local time lands after the jump. It does when the wall time reads no
  earlier than the jump's own UTC second; otherwise, west of Greenwich, it lands before
  the jump. `MidnightReadsItsDay` says exactly when a computed midnight falls on the
  previous day, `WindowHoldsInstantExactly` and `WindowsAbutExactly` what that does to
  windows, and `SkippedMidnightInstance` is an instance: for the hour before the jump the
  daily window ends before the instant it was asked for.
- `Retention.PurgeableExactly`: a comment (server/src/policy/retention.ts:183-188) says a
  record is purgeable exactly when it is strictly before the cutoff. The stored
  comparison is in whole seconds, so in the second the cutoff falls inside an expired row
  is kept; a row that is not expired is never purged.
- `Usage.ListedExactly`: a comment (server/src/policy/usage.ts:153-158) says only activities
  with usage in the window appear. A row whose ends floor to the same second, which storage
  admits, lists its activity at zero when it lies inside the window.
- `EnforcementSweep.RefiresExactlyAfterThrow`: keeping a user's earlier cool-down when
  something throws (server/src/enforcement/sweep.ts:196-206) also covers a trigger that
  throws, which forgets a fire that was handed over; `ThrowForgetsFire` is an instance.
  `SpacedExactly` says over whole runs when the cool-down spacing survives this: exactly
  when no forgotten fire is followed by an evaluation of its target inside the cool-down.
- `EventStream.LeftOpenExactly`: a comment (server/src/events/protocol.ts:79-83) says the
  server closes the socket after a refusal. The flag of a client that is too old is
  written before the close (server/src/events/stream.ts:177-190); when that write throws,
  the refused socket stays open, unregistered and without a timer.
- `EffectivePolicy.DateGateExact`: the day-granular date gate is exact precisely for
  rules with no effective bound strictly inside the day.

## Model

| member | source | states |
|---|---|---|
| `Windows.CanonicalUnique` | server/src/policy/resolve.ts:287-305 | two ascending, strictly separated lists that allow the same minutes are the same list |
| `Windows.CanonicalIsRuns` | server/src/policy/resolve.ts:287-305 | a canonical list meaning a minute predicate is the list of that predicate's maximal runs |
| `Windows.RunsMeaning` | server/src/policy/next-transition.ts:50-52 | the runs of a predicate allow exactly the minutes it accepts |
| `Windows.MergeWindows` | server/src/policy/resolve.ts:292-305 | merging yields the canonical list with the same minutes as its input; empty and inverted windows vanish |
| `Resolve.SegmentWinner` | server/src/policy/resolve.ts:336-344 | between two neighbouring edges the rule that spans the segment first is the rule that covers each of its minutes first |
| `Resolve.SegmentPoints` | server/src/policy/resolve.ts:327-333 | the sweep points are exactly the day edges and rule edges, ascending |
| `Resolve.ResolveAllowedWindows` | server/src/policy/resolve.ts:326-351 | for any overall rules the sweep returns the maximal runs of minutes allowed one by one |
| `Resolve.AllowedRunsMeaning` | server/src/policy/resolve.ts:307-351 | inside the day a minute is open exactly when an extend covers it or the first covering rule is not a deny |
| `Resolve.ExtendNeverRemoves` | server/src/policy/resolve.ts:317-324 | adding an extend at any position never closes an open minute |
| `Resolve.ExceptionCoversMinute` | server/src/policy/resolve.ts:368-381 | a projected exception covers a minute exactly when it is active just before the minute's middle |
| `Resolve.ExceptionMissesDay` | server/src/policy/resolve.ts:368-376 | an exception has no window on a day exactly when it is active at no instant of it |
| `Resolve.ExceptionWithinDay` | server/src/policy/resolve.ts:368-381 | on a 24-hour day a projected exception stays inside the day |
| `GatheredExceptions.NewestMatchMeaning` | server/src/policy/group-resolution.ts:243-245 | within a level the first match in sorted order is a newest matching exception |
| `GatheredExceptions.GatheredFind` | server/src/policy/group-resolution.ts:261-267 | the first match over the gathered list is the user's own newest, else the first group's |
| `GatheredExceptions.DecidingMeaning` | server/src/policy/group-resolution.ts:243-267 | the deciding exception is the newest match of the user's own, or of the first group that has one when the user has none |
| `GatheredExceptions.OverrideDecides` | server/src/policy/resolve.ts:570-594 | what decides a minute is the newest own override, else the first group's newest, else the first recurring rule |
| `SchedulePrecedence.Reorder` | server/src/policy/schedule-precedence.ts:127-147 | succeeds exactly on permutations of the ids, keeps every other field, and gives dense ordinals in the requested order |
| `SchedulePrecedence.DenseIsOrdered` | server/src/policy/schedule-precedence.ts:70-72 | a list with dense ordinals is its own evaluation order |
| `SchedulePrecedence.EarliestWins` | server/src/policy/schedule-precedence.ts:74-88 | the rule in effect is the active one with the lowest ordinal, then the lowest id |
| `SchedulePrecedence.FindShadowedRules` | server/src/policy/schedule-precedence.ts:212-228 | reports each shadowed rule once, in evaluation order, against the first rule that shadows it |
| `SchedulePrecedence.ReportedExactly` | server/src/policy/schedule-precedence.ts:171-228 | a rule is reported exactly when one with a lower ordinal covers its target at the same times, and against the first such rule |
| `SchedulePrecedence.EffectiveRuleIds` | server/src/policy/schedule-precedence.ts:248-264 | returns, without repeats, exactly the ids that win for the target of some rule |
| `SchedulePrecedence.InEffectExactly` | server/src/policy/schedule-precedence.ts:248-264 | an id is in effect exactly when, for the target of some rule, its rule is active, covers the target, and precedes all others that do |
| `SchedulePrecedence.WinnerIsFirst` | server/src/policy/schedule-precedence.ts:259-261 | the winner for a target is the first rule of the whole list that covers it and is active |
| `SchedulePrecedence.ShadowedNeverWins` | server/src/policy/schedule-precedence.ts:197-211 | with distinct ids a shadowed rule never wins for any target |
| `SchedulePrecedence.ViewsDisjoint` | server/src/policy/schedule-precedence.ts:230-247 | the "never applies" and "in effect now" views share no rule |
| `GroupResolution.LayersInOrder` | server/src/policy/group-resolution.ts:92-112 | the first active rule over own rules and then each group's is the layered winner, with its source |
| `GroupResolution.LayeredPlainly` | server/src/policy/group-resolution.ts:8-24 | the layered winner is the earliest active rule of the user's own, or of the first group that has one when the user's are all silent |
| `GroupResolution.SamePositionWins` | server/src/policy/group-resolution.ts:114-116 | renumbering leaves the position of the first active rule unchanged |
| `GroupResolution.MergeKeepsPrecedence` | server/src/policy/group-resolution.ts:92-117 | the merge is its own evaluation order, and its rule in effect is the layered winner's entry with that winner's source |
| `Budgets.InheritGroup` | server/src/policy/group-resolution.ts:187-206 | a group adds exactly its rows for slots still open, and reports those slots |
| `Budgets.MergeBudgetsWithGroups` | server/src/policy/group-resolution.ts:166-209 | each slot's rows are the user's own, else those of the first group defining it, in order |
| `Budgets.SlotSource` | server/src/policy/group-resolution.ts:150-166 | a slot of the user's own comes whole from the user, an open one whole from the first group that has it, marked with that group's id |
| `Budgets.SelectBudgetsForWeekday` | server/src/policy/resolve.ts:430-456 | slot by slot, a weekday keeps its own rows when it has any and the uniform ones otherwise; `SelectionMeaning` says which rows those are |
| `PlainBudgets.SelectionMeaning` | server/src/policy/resolve.ts:430-456 | a row is kept exactly when it names the weekday, or names no days and no row for the same thing names this one; kept rows keep their number and order |
| `Budgets.OverallDailySecondsForWeekday` | server/src/policy/resolve.ts:467-475 | the weekday baseline is the sum of the overall slot's rows in play, absent when none is |
| `Budgets.ResolveOverallSeconds` | server/src/policy/resolve.ts:483-498 | the overall allowance is its rows plus the live overall grants of the day |
| `Budgets.SumBudgets` | server/src/policy/resolve.ts:515-526 | one entry per daily activity or group target, holding the sum of its rows |
| `Budgets.BuildActivityQuotas` | server/src/policy/resolve.ts:510-541 | exactly one quota per target with rows, in target order, worth its rows plus its live grants |
| `EffectivePolicy.ResolvePolicy` | server/src/policy/resolve.ts:549-614 | windows, overall allowance and quotas of a date, each equal to a reference whose meaning `WindowsArePlain`, `OverallPlainly` and `QuotaPlainly` read off the stored rows |
| `EffectivePolicy.ResolveAllowances` | server/src/policy/resolve.ts:601-604 | the allowances in terms of the unselected budgets of the weekday |
| `PlainBudgets.OverallPlainly` | server/src/policy/resolve.ts:483-498 | the overall allowance: none without a daily overall row in play, else the seconds of all such rows and of the overall grants that are not revoked and meet the day |
| `PlainBudgets.QuotaPlainly` | server/src/policy/resolve.ts:510-541 | a target's quota exists exactly when a daily row of it is in play, and is worth all such rows and the unrevoked grants of the same target that meet the day |
| `PlainBudgets.QuotaOrder` | server/src/policy/resolve.ts:537-541 | quotas come activities first, by ascending id within each kind |
| `EffectivePolicy.QuotasHaveOneSource` | server/src/policy/resolve.ts:425-429 | over merged budgets a quota exists exactly when its one source has a row in play, and takes its seconds from it |
| `EffectivePolicy.OneSourcePerSlot` | server/src/policy/group-resolution.ts:166-209 | all rows of a slot share one source, the user's whenever the user defines the slot |
| `EffectivePolicy.OverallWithoutGrants` | server/src/policy/resolve.ts:458-475 | with no grants the resolved overall figure is the pushed weekday baseline |
| `EffectivePolicy.DateGateExact` | server/src/policy/resolve.ts:265-272 | the day gate agrees with the instant gate all day exactly when no effective bound lies inside the day |
| `EffectivePolicy.RuleActiveOnDay` | server/src/policy/resolve.ts:219-241 | a rule is active at an instant exactly when it applies that day and covers the local minute; an undated rule at any instant at all |
| `EffectivePolicy.DayRefinesInstant` | server/src/policy/resolve.ts:243-254 | access at an instant's local minute is open in the day's windows exactly when the instant resolver says so, at every instant in every zone for undated rules |
| `EffectivePolicy.ResolverRespectsWindows` | server/src/policy/schedule-precedence.ts:236-241 | the real activity predicate agrees on rules with identical windows |
| `EffectivePolicy.ShadowedNeverWinsNow` | server/src/policy/schedule-precedence.ts:230-264 | no shadowed rule is in effect at any instant in any zone |
| `Weekdays.MaskRoundTrip` | server/src/policy/recurrence.ts:50-54 | every stored mask is the sum of the weights 1, 2, 4, … 64 of one set of days, Monday to Sunday |
| `Weekdays.MaskReading` | server/src/policy/resolve.ts:431-435 | a mask so built covers a date exactly when the set has the day's weekday, by day number |
| `Weekdays.OwnWeek` | server/src/policy/recurrence.ts:16-18 | a mask names its own set of days and no other |
| `PlainReading.RulesOnDay` | server/src/policy/resolve.ts:568-580 | the rules of a day are exactly the stored ones whose dates meet it and whose set of days has its weekday, each with its own minutes or the whole day |
| `PlainReading.ActiveNowReading` | server/src/policy/resolve.ts:219-241 | a rule is active at an instant exactly inside its dates, on a local weekday of its set, between its minutes by the local second of the day |
| `PlainReading.AccessNow` | server/src/policy/schedule-precedence.ts:74-96 | access right now is open exactly inside an active extension, or when the active rule that precedes all others is not a deny |
| `PlainReading.MinuteIsPlain` | server/src/policy/resolve.ts:307-351 | a minute of a day is allowed exactly when some extend holds it, or what decides it is no deny: the first override in force, else the rule that precedes all others |
| `PlainReading.WindowsArePlain` | server/src/policy/resolve.ts:549-599 | the windows of a date contain exactly those minutes, read off the stored rows |
| `NextTransition.SteadyBetween` | server/src/policy/next-transition.ts:54-58 | access cannot change at a minute that is no window's edge |
| `NextTransition.BoundariesIn` | server/src/policy/next-transition.ts:59-66 | the candidate minutes are exactly the window edges in range, ascending |
| `NextTransition.NextOverallTransition` | server/src/policy/next-transition.ts:86-120 | the boundary walk equals a scan of every remaining minute of today and every minute of tomorrow |
| `NextTransition.TransitionIsPolicyChange` | server/src/policy/next-transition.ts:68-79 | over resolved windows the result is the first minute at which the rules themselves change access, and null when they never do |
| `WeeklyWindows.RecurringDaysAlike` | server/src/policy/weekly-windows.ts:62-76 | without effective dates the rules of a day depend on its weekday only |
| `WeeklyWindows.WeekDates` | server/src/policy/weekly-windows.ts:58-61 | shifting a date back to Monday and on again lands on each weekday, across month and leap-year ends |
| `WeeklyWindows.ResolveWeeklyAllowedWindows` | server/src/policy/weekly-windows.ts:77-90 | for recurring rules the grid entry of a weekday is the day resolver's answer for every date with that weekday |
| `Calendar.DateUnique` | server/src/policy/budget-window.ts:222-231 | a valid date is the only one with its day number |
| `Calendar.DateRoundTrip` | server/src/policy/budget-window.ts:222-231 | date to day number and back is the identity exactly for years Date.UTC does not remap |
| `Calendar.AddDaysIsAddition` | server/src/policy/budget-window.ts:222-231 | shifting a date is addition on day numbers |
| `Calendar.WeekdayOfDay` | server/src/policy/budget-window.ts:328-331 | ISO weekdays advance by one a day and repeat every seven |
| `Calendar.MonthStarts` | server/src/policy/budget-window.ts:222-231 | the days before each month of a common and of a leap year |
| `Calendar.KnownDays` | server/src/policy/budget-window.ts:222-231 | the epoch is day 0; 29 February exists in 2000 and not in 1900 |
| `Calendar.KnownWeekdays` | server/src/policy/budget-window.ts:328-331 | the epoch is a Thursday and 1 January 2024 a Monday |
| `BudgetWindow.WallTimeToUtcCorrect` | server/src/policy/budget-window.ts:187-204 | in any zone with at most one jump in reach, the two-pass result reads the wall time back exactly when some instant does |
| `BudgetWindow.SkippedWallTime` | server/src/policy/budget-window.ts:172-204 | where a skipped wall time lands, on either side of the jump |
| `BudgetWindow.OccursOnceExactly` | server/src/policy/budget-window.ts:172-204 | near one jump a wall time occurs once unless the jump skips or repeats it |
| `BudgetWindow.MidnightSplits` | server/src/policy/budget-window.ts:207-209 | a midnight that occurs once separates the instants of earlier days from the rest |
| `BudgetWindow.MidnightSplitsExactly` | server/src/policy/budget-window.ts:187-209 | near one jump a computed midnight separates the earlier local days from an instant exactly when it does not misplace the instant |
| `BudgetWindow.MidnightReadsItsDay` | server/src/policy/budget-window.ts:172-209 | a computed midnight reads an earlier day exactly when a jump past its own UTC second skips it |
| `BudgetWindow.DatesAreDays` | server/src/policy/budget-window.ts:257-281 | the daily, weekly and monthly window edges are the first days of this period and the next |
| `BudgetWindow.PeriodsMeaning` | server/src/policy/budget-window.ts:257-281 | a week runs seven days from a Monday, a month from its first day to the first of the next month |
| `BudgetWindow.WindowMembers` | server/src/policy/budget-window.ts:244-288 | between midnights that occur once, a window holds its instant and exactly the instants whose local day is in its period |
| `BudgetWindow.WindowHoldsInstantExactly` | server/src/policy/budget-window.ts:244-288 | around midnights that a jump skips or repeats, a window holds its own instant exactly when neither midnight misplaces it |
| `BudgetWindow.WindowsDisjoint` | server/src/policy/budget-window.ts:244-288 | two windows of a kind are equal or disjoint, skipped and repeated midnights included |
| `BudgetWindow.WindowsAbut` | server/src/policy/budget-window.ts:244-288 | the window at a window's end starts there when that instant is in place |
| `BudgetWindow.WindowsAbutExactly` | server/src/policy/budget-window.ts:244-288 | near one jump the next window starts where this one ends except when a jump past that midnight's UTC second skips it |
| `BudgetWindow.SkippedMidnightInstance` | server/src/policy/budget-window.ts:178-204 | a midnight that resolves to 23:00 on the day before, and a daily window that ends before the instant it was asked for |
| `BudgetWindow.EffectiveWindowContains` | server/src/policy/budget-window.ts:379-401 | from a timezone change onward each effective window contains its instant |
| `BudgetWindow.EffectiveWindowsDisjoint` | server/src/policy/budget-window.ts:379-401 | any two effective windows, pinned one and stub included, are equal or disjoint |
| `BudgetWindow.EffectiveWindowsAbut` | server/src/policy/budget-window.ts:379-401 | there is no gap at the seam: each window starts where the one before ends |
| `BudgetWindow.SeamMeaning` | server/src/policy/budget-window.ts:379-401 | a timezone change leaves the window it falls in alone; later windows are the new zone's, of which only the first may start later, at the old one's end |
| `Usage.FilterLosesNothing` | server/src/policy/usage.ts:114-126 | the overlap condition of the query drops no second |
| `Usage.TotalCountsMillis` | server/src/policy/usage.ts:100-126 | usage is a thousandth of the milliseconds of each matching row inside the window |
| `Usage.RollupsAgree` | server/src/policy/usage.ts:133-200 | the activity and group sums are the totals over their activities |
| `Usage.UsageByActivityInWindow` | server/src/policy/usage.ts:159-167 | an activity is listed exactly when it has usage, with its total |
| `Usage.ListedExactly` | server/src/policy/usage.ts:153-167 | over stored rows an activity is listed with its milliseconds in use exactly when there are any, or a row of no length lies inside the window |
| `Usage.TotalSplitsActivities` | server/src/policy/usage.ts:174-200 | usage of disjoint activity sets adds up |
| `Usage.TotalSplits` | server/src/policy/usage.ts:100-107 | splitting a window splits its total |
| `Usage.UsageConserved` | server/src/policy/usage.ts:133-151 | overlaps summed over consecutive effective windows equal the overlap with their union, across a timezone change |
| `Telemetry.ClipToWindow` | server/src/enforcement/telemetry-consumer.ts:125-141 | each sample is cut to the pull window and the collapsed ones are dropped |
| `Telemetry.StepKeeps` | server/src/enforcement/telemetry-consumer.ts:191-241 | every pull, failure and restart keeps cursors in step and pulls tiled |
| `Telemetry.BeginOpens` | server/src/enforcement/telemetry-consumer.ts:165-197 | a pull opens exactly for a client with one user and time to pull, from its cursor or the lookback to the pass |
| `Telemetry.CommitMoves` | server/src/enforcement/telemetry-consumer.ts:222-241 | a commit moves its client's cursor to the pull's end, in the store to the second, and nothing else |
| `Telemetry.RestartReseeds` | server/src/policy/telemetry-cursor.ts:33-46 | a restart loses open pulls and the part of a second the store did not keep |
| `Telemetry.RunKeeps` | server/src/enforcement/telemetry-consumer.ts:191-241 | so does every run of them |
| `Telemetry.RowsInside` | server/src/enforcement/telemetry-consumer.ts:125-141 | every persisted row lies between the floored ends of its pull's window |
| `Telemetry.RowsAreParts` | server/src/enforcement/telemetry-consumer.ts:212-235 | a pull stores exactly the parts of the reported intervals inside its window, each under its own activity |
| `Telemetry.NoDoubleCount` | server/src/enforcement/telemetry-consumer.ts:118-141 | rows of different pulls of one client never overlap, after any run, with times and cursor floored to seconds |
| `Telemetry.CreditJoins` | server/src/enforcement/telemetry-consumer.ts:212-221 | neighbouring windows credit what one window over both would, despite the rounding at the seam |
| `Telemetry.CreditTelescopes` | server/src/enforcement/telemetry-consumer.ts:212-221 | consecutive pulls credit an interval as one pull over all their time would |
| `Telemetry.IntervalCreditedOnce` | server/src/enforcement/telemetry-consumer.ts:212-241 | after any run an interval inside the time of consecutive pulls is credited its whole floored length once |
| `Telemetry.RowsHoldCredit` | server/src/policy/usage.ts:84-97 | activity by activity, the stored rows of a pull hold exactly the credit of the intervals reported for that activity |
| `Telemetry.OthersCreditNothing` | server/src/enforcement/telemetry-consumer.ts:212-221 | answering a pull with only the intervals that meet its window loses no credit |
| `Telemetry.StoredIsCredit` | server/src/enforcement/telemetry-consumer.ts:212-235 | activity by activity, the seconds stored by some pulls are the credit of the reported intervals over them |
| `Telemetry.StoredOnce` | server/src/enforcement/telemetry-consumer.ts:212-241 | after any run the rows that consecutive pulls stored for an activity hold the floored length of each of its reported intervals exactly once |
| `Telemetry.SavedDurable` | server/src/policy/telemetry-cursor.ts:54-56 | saving a cursor changes that client's and no other |
| `Telemetry.PolicyDb.InsertUsageSamples` | server/src/policy/usage.ts:84-97 | appends one row per sample with the batch's user and client, the sample's own activity, and its times floored to seconds |
| `Telemetry.PolicyDb.SaveTelemetryCursor` | server/src/policy/telemetry-cursor.ts:54-56 | the durable cursors change at one client only |
| `Telemetry.PolicyDb.LoadTelemetryCursors` | server/src/policy/telemetry-cursor.ts:33-46 | the boot seed is exactly the persisted cursors |
| `Telemetry.TelemetryConsumer.Begin` | server/src/enforcement/telemetry-consumer.ts:165-196 | opens the window the protocol step opens, or none |
| `Telemetry.TelemetryConsumer.Commit` | server/src/enforcement/telemetry-consumer.ts:231-241 | samples, durable cursor and memory cursor move together, and the invariant stays |
| `Telemetry.TelemetryConsumer.Fail` | server/src/enforcement/telemetry-consumer.ts:237-240 | a failed pull moves no cursor |
| `Telemetry.TelemetryConsumer.Restart` | server/src/policy/telemetry-cursor.ts:27-46 | a restart drops open pulls and reseeds the cursor from the store |
| `EnforcementDecision.DecideEnforcement` | server/src/enforcement/decision.ts:116-151 | the loop's decisions and carried state are the evaluation's; `DecisionsMeaning` and `DecisionsCarry` say what those are |
| `EnforcementDecision.TargetsIndependent` | server/src/enforcement/decision.ts:122-147 | even in a list that repeats targets, a target's fires and stamp are those of its own quotas alone |
| `EnforcementDecision.EvaluateMeaning` | server/src/enforcement/decision.ts:83-93 | listed once, a target fires exactly when exhausted and not cooling; its stamp is set, forgotten or kept accordingly |
| `EnforcementDecision.DecisionsMeaning` | server/src/enforcement/decision.ts:71-93 | listed once each, there is exactly one decision per exhausted target that is not cooling, activities first and then by id |
| `EnforcementDecision.DecisionsCarry` | server/src/enforcement/decision.ts:139-146 | each decision carries its quota's allowance and consumption, their difference, and the given grace |
| `EnforcementSweep.Sweep.RunPass` | server/src/enforcement/sweep.ts:167-217 | the carried state after a pass, and what was handed to the trigger |
| `EnforcementSweep.UsersIsolated` | server/src/enforcement/sweep.ts:139-147 | a pass keeps exactly the loaded users, and each user's state depends on that user's reading only |
| `EnforcementSweep.PassStamp` | server/src/enforcement/sweep.ts:176-209 | while a target stays exhausted its stamp moves exactly when it fires and the trigger does not throw |
| `EnforcementSweep.FiresWhenNotCooling` | server/src/enforcement/sweep.ts:176-195 | it fires exactly when evaluated out of its cool-down |
| `EnforcementSweep.HandedExactly` | server/src/enforcement/sweep.ts:182-195 | the trigger gets a decision about a target exactly when the pass fires it, with that user's own grace |
| `EnforcementSweep.FirstFire` | server/src/enforcement/sweep.ts:158-209 | the first fire of a run waits for the cool-down it starts with, whatever throws |
| `EnforcementSweep.FiresApart` | server/src/enforcement/sweep.ts:158-209 | when no fire of the target has its trigger throw, fires are at least the cool-down apart, whatever else throws and even if the clock goes back |
| `EnforcementSweep.FiresAtNextEvaluation` | server/src/enforcement/sweep.ts:176-195 | a target out of its cool-down fires at its next evaluation |
| `EnforcementSweep.SpacedExactly` | server/src/enforcement/sweep.ts:158-209 | under a clock that does not go back the spacing holds exactly when no fire whose trigger threw is followed by an evaluation of its target inside the cool-down |
| `EnforcementSweep.FireCount` | server/src/enforcement/sweep.ts:158-209 | then there is at most one fire per started cool-down within a span |
| `EnforcementSweep.RefiresExactlyAfterThrow` | server/src/enforcement/sweep.ts:189-206 | the next pass inside the cool-down fires again exactly when the trigger threw |
| `EnforcementSweep.ThrowForgetsFire` | server/src/enforcement/sweep.ts:189-206 | two fires a second apart under a one-minute cool-down |
| `ForceClose.StepKeeps` | server/src/enforcement/force-close.ts:122-137 | enforcing and elapsing keep the pending set, the timers and their dates consistent |
| `ForceClose.PendingIsOutstanding` | server/src/enforcement/force-close.ts:110-137 | the pending set is the keys of outstanding timers, one per key, and every timer set is dispatched once or outstanding |
| `ForceClose.FiresOnceDue` | server/src/enforcement/force-close.ts:122-137 | after any run a timer can fire exactly from the moment its own grace has passed since it was set |
| `ForceClose.DispatchesApart` | server/src/enforcement/force-close.ts:117-137 | two dispatches of one target are at least a grace period apart |
| `ForceClose.EnforceSetsTimers` | server/src/enforcement/force-close.ts:122-137 | enforcing adds one timer for the first decision about each target without one, due a thousand milliseconds per second of its grace later, and keeps all others |
| `ForceClose.ForceCloseTrigger.Enforce` | server/src/enforcement/force-close.ts:122-137 | schedules each decision whose target is not pending |
| `ForceClose.ForceCloseTrigger.Elapse` | server/src/enforcement/force-close.ts:127-134 | frees the target and yields its decision |
| `ForceClose.Dispatch` | server/src/enforcement/force-close.ts:156-191 | every client gets every activity once, by event when an agent received it and by kill otherwise |
| `EventProtocol.NegotiateWindow` | server/src/events/protocol.ts:138-171 | a hello is accepted in its own dialect exactly inside the window, and a refusal names the side that is behind |
| `EventProtocol.ServerUpgradesFirst` | server/src/events/protocol.ts:148-163 | upgrading the server by one version keeps every client that spoke its dialect, whatever the configured window |
| `EventHub.RegisterMeaning` | server/src/events/hub.ts:68-76 | registering adds or refreshes one connection only |
| `EventHub.UnregisterMeaning` | server/src/events/hub.ts:83-88 | unregistering removes one connection, and the client with its last |
| `EventHub.BroadcastStep` | server/src/events/hub.ts:105-113 | writing to one more client reaches its capable sockets and none a second time |
| `EventHub.EventHub.Write` | server/src/events/hub.ts:137-150 | writes to exactly the open capable sockets and counts them |
| `EventHub.EventHub.PublishToClient` | server/src/events/hub.ts:94-98 | writes one frame to the client's open capable sockets; an offline client costs no sequence number |
| `EventHub.EventHub.Broadcast` | server/src/events/hub.ts:105-113 | reaches every client's sockets with one sequence number |
| `EventHub.EventHub.IsClientLive` | server/src/events/hub.ts:116-118 | a listed client has a connection |
| `EventStream.StepKeeps` | server/src/events/stream.ts:133-253 | every event keeps the handshake, registry, ordering and liveness invariant |
| `EventStream.RunKeeps` | server/src/events/stream.ts:133-253 | so does every interleaving |
| `EventStream.EnabledExactly` | server/src/events/stream.ts:145-251 | after any run a timeout can come exactly while a handshake waits, a tick exactly once accepted, anything else until the socket has closed |
| `EventStream.HandshakeFirst` | server/src/events/stream.ts:145-223 | at most one handshake frame, before everything else; events only after an accept, with increasing sequence numbers |
| `EventStream.HelloOutcome` | server/src/events/stream.ts:170-240 | what a first message does to a waiting open connection: accepted with what it advertised, or refused with the reason and shut |
| `EventStream.TimeoutOutcome` | server/src/events/stream.ts:154-164 | a connection that says nothing in time is refused and shut |
| `EventStream.InHubExactly` | server/src/events/stream.ts:223-251 | a socket is in the hub exactly while accepted and not closed, under its own client |
| `EventStream.PublishReachesExactly` | server/src/events/hub.ts:90-98 | a published event reaches exactly the client's accepted, open, capable connections |
| `EventStream.PublishPlainly` | server/src/events/capabilities.ts:106-113 | after any run a force-close is written exactly to the client's open connections that advertised "per_app_close", a lock or a cleared lockout to those with "session_budget", other events to all |
| `EventStream.BroadcastReachesExactly` | server/src/events/hub.ts:100-113 | a broadcast reaches exactly the accepted, open, capable connections, each once |
| `EventStream.BroadcastPlainly` | server/src/events/capabilities.ts:106-113 | a broadcast is written by the same rule to every client's connections |
| `EventStream.TerminatedOnlyUnanswered` | server/src/events/heartbeat.ts:48-71 | a tick terminates only after an earlier ping with no pong since, and pings otherwise |
| `EventStream.TickOutcome` | server/src/events/heartbeat.ts:52-59 | after any run a tick pings a peer that has answered since the last one or was never asked, and cuts off one that has not |
| `EventStream.CloseOutcome` | server/src/events/stream.ts:246-251 | after any run a close stops the timers and leaves the socket in no client's hub entry |
| `EventStream.OthersUntouched` | server/src/events/stream.ts:145-251 | what happens on one connection leaves every other one, its hub entry and the sequence number alone |
| `EventStream.LeftOpenOnlyTooOld` | server/src/events/stream.ts:177-190 | the only open socket with a settled, unaccepted handshake is one refused as too old; it is unregistered and untimed |
| `EventStream.LeftOpenExactly` | server/src/events/stream.ts:177-190 | a hello leaves its socket so exactly when the client is too old and the write of its flag throws |
| `EventStream.Endpoint.OnConnect` | server/src/events/stream.ts:145-168 | opens an unsettled connection with its timer armed |
| `EventStream.Endpoint.OnHelloTimeout` | server/src/events/stream.ts:154-164 | refuses once, or does nothing after the handshake settled |
| `EventStream.Endpoint.OnMessage` | server/src/events/stream.ts:170-240 | settles the handshake by refusing, failing or accepting and registering, each database write possibly throwing |
| `EventStream.Endpoint.OnPong` | server/src/events/heartbeat.ts:64-66 | marks an accepted peer alive |
| `EventStream.Endpoint.OnTick` | server/src/events/heartbeat.ts:52-59 | pings a live peer and terminates a silent one |
| `EventStream.Endpoint.OnClose` | server/src/events/stream.ts:246-251 | stops the timers and leaves the hub |
| `EventStream.Endpoint.OnPublish` | server/src/events/hub.ts:94-98 | returns the number of receivers and keeps the invariant |
| `EventStream.Endpoint.OnBroadcast` | server/src/events/hub.ts:105-113 | returns the number of receivers of every client and keeps the invariant |
| `Framing.LinesAppend` | client/agent/src/agent/socket-client.ts:120-129 | a text's lines are its own complete ones and those its tail forms with what follows |
| `Framing.BlankExactly` | client/agent/src/agent/socket-client.ts:126-126 | a line is skipped exactly when every character of it is one of the white space and line terminators of ECMA-262 |
| `Framing.AgentSocketClient.OnData` | client/agent/src/agent/socket-client.ts:120-142 | however the stream is cut, handled lines are its complete nonblank ones in order and the buffer its unfinished tail; a throwing handler loses and repeats none |
| `Framing.AgentSocketClient.Connect` | client/agent/src/agent/socket-client.ts:99-103 | a new connection starts a new stream |
| `Framing.BadLineIsLocal` | client/agent/src/agent/socket-client.ts:131-142 | an undecodable line changes nothing for the lines around it |
| `Framing.WrittenDecodes` | client/agent/src/bridge/dispatch.ts:157-157 | the written text decodes to the frames written, each once and in order |
| `Framing.Dispatcher.OnConnection` | client/agent/src/bridge/dispatch.ts:96-98 | an attached agent is added to its user and has been sent nothing |
| `Framing.Dispatcher.OnDrop` | client/agent/src/bridge/dispatch.ts:99-106 | a dropped agent leaves its user's connections |
| `Framing.Dispatcher.Dispatch` | client/agent/src/bridge/dispatch.ts:148-165 | a frame goes to its user's attached agents and to nobody else |
| `Framing.Deliver` | client/agent/src/agent/socket-client.ts:120-142 | end to end, in any chunks the handler gets the frames sent |
| `Concurrency.PresentAscending` | server/src/util/concurrency.ts:22-25 | the indices to be claimed are exactly those of defined items, each once |
| `Concurrency.ClaimKeeps` | server/src/util/concurrency.ts:38-42 | a claim takes an index nobody holds and keeps the shared state consistent |
| `Concurrency.SettleKeeps` | server/src/util/concurrency.ts:42-42 | a settled call writes its own slot and strictly reduces the work left |
| `Concurrency.InFlightBounded` | server/src/util/concurrency.ts:33-33 | never more than max(1, floor(limit)) calls are in flight |
| `Concurrency.RunnersExactly` | server/src/util/concurrency.ts:33-36 | one runner at the least, as many as the floored limit, and no more than there are items |
| `Concurrency.FullyUsed` | server/src/util/concurrency.ts:37-48 | while items are left to claim and none was rejected, every runner is awaiting a call |
| `Concurrency.AllEnded` | server/src/util/concurrency.ts:47-48 | when all runners have ended, every slot holds its own result or some call rejected |
| `Concurrency.Pool.RunOn` | server/src/util/concurrency.ts:37-44 | a runner runs to its next call or its end |
| `Concurrency.Pool.Complete` | server/src/util/concurrency.ts:42-42 | settling one call leaves strictly less to do |
| `Concurrency.MapWithConcurrency` | server/src/util/concurrency.ts:26-49 | under every completion order the mapping ends, resolves exactly when no call rejects, and aligns each result to its item |
| `Cadence.WarningThresholdsSeconds` | client/agent/src/agent/cadence.ts:60-78 | the boundaries are exactly the quarter hours and 10, 5, 4, 3, 2, 1 minutes strictly below the total, descending |
| `Cadence.ThresholdsPlainly` | client/agent/src/agent/cadence.ts:60-78 | the boundaries in seconds: 60 to 300 by minutes, 600, and the multiples of 900, below the total |
| `Cadence.DeepestMeaning` | client/agent/src/agent/cadence.ts:117-123 | the deepest boundary is the smallest not below the reading |
| `Cadence.CadenceTracker.Observe` | client/agent/src/agent/cadence.ts:107-128 | announces the deepest boundary reached if it is new, and zero once |
| `Cadence.AnnouncesExactly` | client/agent/src/agent/cadence.ts:107-128 | a reading is announced exactly when it moves the tracker, at the boundary it moved to, with the reading itself |
| `Cadence.StateIsLowest` | client/agent/src/agent/cadence.ts:93-128 | the last announced boundary is the smallest not below the lowest reading, until zero |
| `Cadence.WarningsDecrease` | client/agent/src/agent/cadence.ts:80-92 | for any readings the announced boundaries strictly decrease and time's up comes once and last |
| `Cadence.FullDrain` | client/agent/src/agent/cadence.ts:54-92 | draining second by second announces exactly the boundaries, then zero |
| `RateLimit.FixedWindowRateLimiter.IsBlocked` | server/src/auth/rate-limit.ts:66-80 | the answer is the one the key's own log gives |
| `RateLimit.FixedWindowRateLimiter.RecordFailure` | server/src/auth/rate-limit.ts:83-90 | the state stays a replay of every key's log |
| `RateLimit.FixedWindowRateLimiter.RecordSuccess` | server/src/auth/rate-limit.ts:93-95 | clears one key and no other |
| `RateLimit.RefinesNext` | server/src/auth/rate-limit.ts:57-95 | an operation on one key advances that key's replay and leaves every other key's |
| `RateLimit.WindowIsFailures` | server/src/auth/rate-limit.ts:66-90 | a key's window starts at one of its failures and counts that failure and those since |
| `RateLimit.BlockedExactly` | server/src/auth/rate-limit.ts:66-80 | a key is blocked exactly while it has a window not yet as old as its length with at least the allowed attempts |
| `RateLimit.SuccessForgets` | server/src/auth/rate-limit.ts:93-95 | a success forgets every failure |
| `RateLimit.FailuresBounded` | server/src/auth/rate-limit.ts:66-90 | every half-open span of the window's length holds at most twice the allowed attempts less one |
| `RateLimit.BoundIsTight` | server/src/auth/rate-limit.ts:66-90 | every limit of at least one attempt over at least two milliseconds reaches that bound |
| `Retention.FromOverrides` | server/src/policy/retention.ts:157-163 | the last coherent row of each category counts, and any incoherent row fails the policy |
| `Retention.OverridesMeaning` | server/src/policy/retention.ts:157-163 | a category is overridden exactly when a row names it, and by the last such row: forever, or a positive day count |
| `Retention.IncoherentExactly` | server/src/policy/retention.ts:65-81 | a row is refused exactly when it is finite without a positive day count |
| `Retention.ExpiredIsBeforeCutoff` | server/src/policy/retention.ts:105-129 | in milliseconds, expired is strictly before the cutoff |
| `Retention.PurgeOnlyExpired` | server/src/policy/retention.ts:183-191 | flooring never makes a record purgeable that is not expired |
| `Retention.PurgeableExactly` | server/src/policy/retention.ts:113-123 | a stored row is purgeable exactly when expired, except in the second the cutoff falls inside |
| `Retention.ExpiredButKept` | server/src/policy/retention.ts:113-123 | a record half a second too old that is kept |
| `Purge.RerunCompletes` | server/src/policy/purge.ts:95-100 | after any batches a rerun ends in the one-deletion table, and deleted plus remaining is the preview |
| `Purge.PolicyDb.PurgeInBatches` | server/src/policy/purge.ts:101-118 | ends with every matching row gone whatever rows each pass picked; a batch size below one is refused untouched |
| `Purge.CategoriesIndependent` | server/src/policy/purge.ts:322-328 | each table is purged by its own category's cutoff only |
| `Purge.PurgeMeaning` | server/src/policy/purge.ts:126-328 | in each of the seven tables a purge deletes exactly the rows dated more than the category's own days ago, in whole seconds; four of them share the override rule |
| `Purge.PolicyDb.PurgeCategory` | server/src/policy/purge.ts:165-251 | deletes the category's tables to the cutoff and counts what the preview counts |
| `Purge.PolicyDb.PurgeExpiredRecords` | server/src/policy/purge.ts:329-341 | the results of a purge are the preview of the state before it |
| `Purge.PreviewIsDeleted` | server/src/policy/purge.ts:344-454 | each preview counts the rows that a purge of the same state deletes from that category's tables |
| `Purge.PreviewAfterPurge` | server/src/policy/purge.ts:455-466 | a purge leaves nothing the same preview would count |
| `GlobPattern.GlobToEre` | server/src/enforcement/force-close-pkill.ts:62-70 | the loop emits the translation |
| `GlobPattern.ParsesAsGlob` | server/src/policy/activity-matcher.ts:33-39 | the emitted expression reads back as one piece per glob character |
| `GlobPattern.CompiledGlobIsGlob` | server/src/policy/activity-matcher.ts:28-39 | the anchored expression accepts exactly what the glob means |
| `GlobPattern.WildcardsMatch` | server/src/enforcement/force-close-pkill.ts:55-61 | `*` matches every string, `?` every single character, any other character itself |
| `GlobPattern.KillsExactly` | server/src/enforcement/force-close-pkill.ts:77-97 | which of the named owner's processes each kind of kill request selects: the exact name, a command line with the text, or one some part of which the glob matches |
| `GlobPattern.PatternNonempty` | server/src/enforcement/force-close-pkill.ts:82-84 | only the empty matcher yields no pattern |
| `GlobPattern.KillIsBroader` | server/src/enforcement/force-close-pkill.ts:30-37 | the glob's kill can select what the glob does not match |
| `ActivityMatcher.CompileMatchers` | server/src/policy/activity-matcher.ts:109-117 | the usable matchers, by id |
| `ActivityMatcher.ResolveActivityId` | server/src/policy/activity-matcher.ts:126-137 | the winner outranks every accepting matcher: exact first, then the lowest id |
| `ActivityMatcher.OneWinner` | server/src/policy/activity-matcher.ts:120-125 | with distinct ids at most one activity outranks every accepting one |
| `ActivityMatcher.AcceptsDescribed` | server/src/policy/activity-matcher.ts:41-101 | an activity accepts a name exactly when its text equals or lies in it, case folded, or its anchored expression or its compiled one matches |
| `ActivityMatcher.WinnerPlainly` | server/src/policy/activity-matcher.ts:120-137 | a pattern wins only where no exact matcher describes the name, and no lower id of the winner's kind does |
| `ActivityMatcher.CompilingKeepsWinner` | server/src/policy/activity-matcher.ts:103-117 | compiling and sorting never change the winner |
| `ActivityMatcher.ResolveName` | server/src/policy/activity-matcher.ts:109-137 | the resolved activity outranks every accepting stored one, in whatever order they are stored, and is the only one to do so |

## Left out

- Timezone data and formatting: `Intl`, `Date` and the IANA rules are an abstract offset function; the "h23" field formatting and `YYYY-MM-DD` strings are tuples and opaque strings; invalid timezone names are not modelled.
- Years before 100, which `Date.UTC` remaps, wherever a lemma names `FIRST_MODERN_DAY`; `Calendar.DateRoundTrip` states exactly what the remapping breaks.
- More than one offset change within a day of a local midnight: claims about wall times and midnights assume at most one jump in reach.
- BudgetWindow.WindowMembers: for both directions over all instants it assumes midnights that occur once; around others `WindowHoldsInstantExactly` decides each window's own instant.
- BudgetWindow.WindowsDisjoint: around skipped or repeated midnights it assumes a zone whose offsets never differ by more than a day, that is, one that never moved across the date line.
- BudgetWindow.EffectiveWindowContains: assumes instants in place, because a misplaced instant is held by no window of its own (`WindowHoldsInstantExactly`).
- BudgetWindow.EffectiveWindowsDisjoint: assumes instants in place, for the same reason.
- BudgetWindow.EffectiveWindowsAbut: assumes instants in place, for the same reason; `WindowsAbutExactly` says when a plain window has no successor at its end.
- Usage.UsageConserved: assumes that each window's end is in place, for the same reason.
- `effectiveWindow` before a recorded change, where the code already uses the new zone (server/src/policy/budget-window.ts:385-387): partition claims start at the change.
- Exceptions on 23-hour and 25-hour days project elapsed minutes, so "inside the day" is stated for 24-hour days only.
- EffectivePolicy.DayRefinesInstant: states the agreement for the recurring layer, since the instant resolver of the source knows no exceptions; for dated rules it assumes an instant in place, since the day gate is compared with the computed midnights.
- PlainReading.RulesOnDay: assumes the storage rule that a weekday mask is at most 127 (server/src/policy/schema.ts:523-526) and that rule ids differ, as do the other members of PlainReading; exceptions are read on 24-hour days.
- PlainBudgets.SelectionMeaning: assumes the storage rule that a weekday mask is at most 127 (server/src/policy/schema.ts:453-456), as do the other members of PlainBudgets; the order of rows for different things is left open.
- SchedulePrecedence.EarliestWins: assumes that rule ids differ, as primary keys do, and so do the members that compare rules by ordinal and id.
- EventStream.HelloOutcome: for a connection whose socket is open and has been sent nothing, as every waiting one is until it closes.
- RateLimit.WindowIsFailures: says nothing of a key without a window; `BlockedExactly` does.
- EnforcementDecision.EvaluateMeaning: assumes each target is listed once, as the quota table gives them; `DecideEnforcement` and `TargetsIndependent` are stated without that.
- EnforcementDecision.DecisionsMeaning: assumes each target is listed once, as the quota table gives them.
- EnforcementSweep.FiresApart: assumes each user is loaded once and each target listed once per evaluation, as the distinct query and the quota table give them; so do `PassStamp`, `SpacedExactly` and `FireCount`.
- EventHub.EventHub.Broadcast: assumes a socket is registered under one client, as the endpoint registers it.
- Telemetry.TelemetryConsumer.Commit: assumes the client row still exists; a client deleted during its pull is not modelled.
- Telemetry.TelemetryConsumer.Begin: one pull per client at a time, as the pass scheduler guarantees; overlapping pulls of one client are not modelled.
- The ActivityWatch normaliser: a client's answer is an arbitrary list of intervals.
- SQL, transactions and foreign keys beyond what a committed step changes; query rows come in any order where the code sorts them and in list order where it does not.
- The JSON text of event frames and their `at` timestamps, log lines, and what a connection's last-seen, version, capability and update-required writes store; only whether such a write throws before the handshake's last step is modelled.
- Budgets.OverallDailySecondsForWeekday: assumes the storage rule that an overall row carries no target (server/src/policy/schema.ts:451); so do `ResolveAllowances` and `ResolvePolicy`.
- EffectivePolicy.RuleActiveOnDay: assumes the storage rule on recurrence minutes (server/src/policy/schema.ts:529-530).
- RateLimit.FailuresBounded: a failure counts at its first clock reading, and is recorded while the key is not blocked at that reading; attempts checked earlier and recorded later are not bounded by it.
- Sweep counters (`evaluated`, `enforced`, `failed`), which only feed the log.
- UTF-8 sequences split across chunks: the framing model works on characters.
- The reconnect back-off of the agent's socket, and its start and stop.
- A limit that is not a number in `mapWithConcurrency`, and a worker that throws before returning its promise.
- `coalesceWarnings` and the message texts, which regroup already decided warnings.
- The agent's own kill countdown and its escalation, whose checks and registrations are separated by waits.
- Rebasing database migrations, configuration, HTTP routes, password hashing, SSH transport and the user interface.
- Regular expressions beyond the fragment the translators emit; a user's own expression is an abstract predicate.
