// A user's date-specific overrides in precedence order, and which of them decides a minute.

module GatheredExceptions {
  import opened Common
  import opened SchedulePrecedence
  import opened Resolve

  /** A group's stored exceptions; groups come in ascending id order. */
  datatype ExceptionGroup = ExceptionGroup(id: int, exceptions: seq<ExceptionInput>)

  /** Newest first: descending creation time, then descending id. */
  function NewestFirst(exc: ExceptionInput): Rank {
    (-exc.createdAt, -exc.id)
  }

  function InheritedExceptions(groups: seq<ExceptionGroup>): seq<ExceptionInput> {
    if groups == [] then []
    else SortBy(NewestFirst, groups[0].exceptions) + InheritedExceptions(groups[1..])
  }

  /** Own exceptions first, then each group's, newest first within each. */
  function GatherUserExceptions(own: seq<ExceptionInput>, groups: seq<ExceptionGroup>): seq<ExceptionInput> {
    SortBy(NewestFirst, own) + InheritedExceptions(groups)
  }

  /** An override of overall access whose window on the day holds the minute. */
  function Overrides(dayStart: int, dayEnd: int, minute: int): ExceptionInput -> bool {
    (exc: ExceptionInput) =>
      var window := ExceptionWindowOnDay(exc, dayStart, dayEnd);
      exc.targetKind.Overall? && window.Some? && window.value.start <= minute < window.value.end
  }

  /** The newest matching exception of one level. */
  function NewestMatch(p: ExceptionInput -> bool, level: seq<ExceptionInput>): Option<ExceptionInput> {
    Find(p, SortBy(NewestFirst, level))
  }

  /** It matches, and nothing matching in its level was created after it. */
  lemma NewestMatchMeaning(p: ExceptionInput -> bool, level: seq<ExceptionInput>)
    ensures match NewestMatch(p, level)
            case None => forall exc | exc in level :: !p(exc)
            case Some(best) => best in level && p(best)
                               && forall exc | exc in level && p(exc) ::
                                    exc.createdAt < best.createdAt
                                    || (exc.createdAt == best.createdAt && exc.id <= best.id)
  {
    var sorted := SortBy(NewestFirst, level);
    SortByContents(NewestFirst, level);
    SortBySorted(NewestFirst, level);
    FindMeaning(p, sorted);
    if Find(p, sorted).Some? {
      var k := FindPosition(p, sorted);
      forall exc | exc in level && p(exc)
        ensures exc.createdAt < sorted[k].createdAt
                || (exc.createdAt == sorted[k].createdAt && exc.id <= sorted[k].id) {
        var j :| 0 <= j < |sorted| && sorted[j] == exc;
        assert j >= k;
        assert j > k ==> RankLeq(NewestFirst(sorted[k]), NewestFirst(sorted[j]));
      }
    }
  }

  /** The user's own newest match, else that of the first group that has one. */
  function Deciding(
    p: ExceptionInput -> bool, own: seq<ExceptionInput>, groups: seq<ExceptionGroup>): Option<ExceptionInput>
    decreases |groups|
  {
    if NewestMatch(p, own).Some? then NewestMatch(p, own)
    else if groups == [] then None
    else Deciding(p, groups[0].exceptions, groups[1..])
  }

  /** It matches, and whatever else of its level does was created earlier, or together with it under a lower id. */
  ghost predicate NewestIn(p: ExceptionInput -> bool, level: seq<ExceptionInput>, best: ExceptionInput) {
    && best in level && p(best)
    && forall exc | exc in level && p(exc) ::
         exc.createdAt < best.createdAt || (exc.createdAt == best.createdAt && exc.id <= best.id)
  }

  ghost predicate NoneIn(p: ExceptionInput -> bool, level: seq<ExceptionInput>) {
    forall exc | exc in level :: !p(exc)
  }

  /** The deciding one is the user's own newest match; without one, that of the first group that has one. */
  lemma {:induction false} DecidingMeaning(
    p: ExceptionInput -> bool, own: seq<ExceptionInput>, groups: seq<ExceptionGroup>)
    ensures match Deciding(p, own, groups)
            case None => NoneIn(p, own) && forall g | 0 <= g < |groups| :: NoneIn(p, groups[g].exceptions)
            case Some(best) =>
              || NewestIn(p, own, best)
              || (NoneIn(p, own) && exists g | 0 <= g < |groups| ::
                    NewestIn(p, groups[g].exceptions, best) && forall k | 0 <= k < g :: NoneIn(p, groups[k].exceptions))
    decreases |groups|
  {
    NewestMatchMeaning(p, own);
    assert NewestMatch(p, own).None? ==> NoneIn(p, own);
    assert NewestMatch(p, own).Some? ==> NewestIn(p, own, NewestMatch(p, own).value);
    hide NewestMatch, NewestIn, NoneIn;
    if NewestMatch(p, own).None? && groups != [] {
      var rest := groups[1..];
      DecidingMeaning(p, groups[0].exceptions, rest);
      assert forall k | 0 <= k < |rest| :: rest[k] == groups[k + 1];
      match Deciding(p, own, groups)
      case None =>
        forall g | 0 <= g < |groups| ensures NoneIn(p, groups[g].exceptions) {
          assert g > 0 ==> groups[g] == rest[g - 1];
        }
      case Some(best) =>
        FirstWithOne(p, groups, best);
    }
  }

  lemma FirstWithOne(p: ExceptionInput -> bool, groups: seq<ExceptionGroup>, best: ExceptionInput)
    requires groups != []
    requires || NewestIn(p, groups[0].exceptions, best)
             || (NoneIn(p, groups[0].exceptions) && exists g | 1 <= g < |groups| ::
                   NewestIn(p, groups[g].exceptions, best)
                   && forall k | 1 <= k < g :: NoneIn(p, groups[k].exceptions))
    ensures exists g | 0 <= g < |groups| ::
              NewestIn(p, groups[g].exceptions, best) && forall k | 0 <= k < g :: NoneIn(p, groups[k].exceptions)
  {
    hide NewestIn, NoneIn;
  }

  lemma {:induction false} GatheredFind(
    p: ExceptionInput -> bool, own: seq<ExceptionInput>, groups: seq<ExceptionGroup>)
    ensures Find(p, GatherUserExceptions(own, groups)) == Deciding(p, own, groups)
    decreases |groups|
  {
    FindConcat(p, SortBy(NewestFirst, own), InheritedExceptions(groups));
    if groups != [] {
      GatheredFind(p, groups[0].exceptions, groups[1..]);
    } else {
      assert Find(p, InheritedExceptions(groups)).None?;
    }
  }

  function RuleOf(exc: ExceptionInput, dayStart: int, dayEnd: int): ActiveRule
    requires ExceptionWindowOnDay(exc, dayStart, dayEnd).Some?
  {
    var window := ExceptionWindowOnDay(exc, dayStart, dayEnd).value;
    ActiveRule(exc.id, exc.targetKind, exc.targetId, exc.action, window.start, window.end)
  }

  lemma {:induction false} FirstOverride(exceptions: seq<ExceptionInput>, dayStart: int, dayEnd: int, minute: int)
    ensures var first := Find(Overrides(dayStart, dayEnd, minute), exceptions);
            && (first.Some? ==> Overrides(dayStart, dayEnd, minute)(first.value))
            && Find(CoveringMinute(minute), Filter(IsOverall, ExceptionRulesOn(exceptions, dayStart, dayEnd)))
               == if first.Some? then Some(RuleOf(first.value, dayStart, dayEnd)) else None
  {
    if exceptions != [] {
      var exc, rest := exceptions[0], ExceptionRulesOn(exceptions[1..], dayStart, dayEnd);
      FirstOverride(exceptions[1..], dayStart, dayEnd, minute);
      if ExceptionWindowOnDay(exc, dayStart, dayEnd).Some? {
        FilterCons(IsOverall, RuleOf(exc, dayStart, dayEnd), rest);
        FindCons(CoveringMinute(minute), RuleOf(exc, dayStart, dayEnd), Filter(IsOverall, rest));
        assert [] + Filter(IsOverall, rest) == Filter(IsOverall, rest);
      } else {
        assert [] + rest == rest;
      }
    }
  }

  /**
   * What decides a minute of the day: the user's newest own override covering it, else
   * the newest of the first group that has one, else the first recurring rule.
   */
  lemma OverrideDecides(
    schedules: seq<ScheduleRule>, own: seq<ExceptionInput>, groups: seq<ExceptionGroup>,
    weekday: int, dayStart: int, dayEnd: int, minute: int)
    requires 1 <= weekday <= 7
    ensures var rules := OverallRulesOn(schedules, GatherUserExceptions(own, groups), weekday, dayStart, dayEnd);
            var recurring := Filter(IsOverall, ActiveRulesOn(schedules, weekday, dayStart, dayEnd));
            var override := Deciding(Overrides(dayStart, dayEnd, minute), own, groups);
            && (override.Some? ==> ExceptionWindowOnDay(override.value, dayStart, dayEnd).Some?)
            && Find(CoveringMinute(minute), rules)
               == if override.Some? then Some(RuleOf(override.value, dayStart, dayEnd))
                  else Find(CoveringMinute(minute), recurring)
  {
    var gathered := GatherUserExceptions(own, groups);
    GatheredFind(Overrides(dayStart, dayEnd, minute), own, groups);
    FirstOverride(gathered, dayStart, dayEnd, minute);
    FindConcat(CoveringMinute(minute), Filter(IsOverall, ExceptionRulesOn(gathered, dayStart, dayEnd)),
               Filter(IsOverall, ActiveRulesOn(schedules, weekday, dayStart, dayEnd)));
  }
}
