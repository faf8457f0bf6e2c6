// "When does overall access next change?": a walk over window boundaries that must
// agree with looking at every minute of today and tomorrow.

module NextTransition {
  import opened Common
  import opened Windows
  import opened Resolve

  datatype TransitionKind = AccessEnds | AccessResumes

  /** The next change as a local wall-clock time. */
  datatype Transition = Transition(kind: TransitionKind, localDate: string, atMinuteOfDay: int)

  // ----- the plain scan -----

  /** The first minute of `[minute, hi)` whose access differs from `state`. */
  function FirstFlip(windows: seq<AllowedWindow>, state: bool, minute: int, hi: int): (r: Option<int>)
    ensures r.Some? ==> minute <= r.value < hi && Allows(windows, r.value) != state
                        && forall m | minute <= m < r.value :: Allows(windows, m) == state
    ensures r.None? ==> forall m | minute <= m < hi :: Allows(windows, m) == state
    decreases hi - minute
  {
    if minute >= hi then None
    else if Allows(windows, minute) != state then Some(minute)
    else FirstFlip(windows, state, minute + 1, hi)
  }

  function Flip(state: bool, localDate: string, minute: int): Transition {
    Transition(if state then AccessEnds else AccessResumes, localDate, minute)
  }

  /** Every remaining minute of today, then every minute of tomorrow. */
  function PlainScan(
    today: seq<AllowedWindow>, nowMinute: int, todayDate: string,
    tomorrow: seq<AllowedWindow>, tomorrowDate: string): Option<Transition>
  {
    var state := Allows(today, nowMinute);
    match FirstFlip(today, state, nowMinute + 1, MINUTES_PER_DAY)
    case Some(minute) => Some(Flip(state, todayDate, minute))
    case None =>
      match FirstFlip(tomorrow, state, 0, MINUTES_PER_DAY)
      case Some(minute) => Some(Flip(state, tomorrowDate, minute))
      case None => None
  }

  // ----- the boundary walk -----

  ghost predicate IsBoundary(windows: seq<AllowedWindow>, minute: int) {
    exists i | 0 <= i < |windows| :: windows[i].start == minute || windows[i].end == minute
  }

  /** Away from boundaries access does not change, even for overlapping or inverted windows. */
  lemma NoBoundaryNoChange(windows: seq<AllowedWindow>, minute: int)
    requires !IsBoundary(windows, minute)
    ensures Allows(windows, minute) <==> Allows(windows, minute - 1)
  {
    forall i | 0 <= i < |windows| ensures Contains(windows[i], minute) <==> Contains(windows[i], minute - 1) {
      assert windows[i].start != minute && windows[i].end != minute;
    }
  }

  /** Access holds its value as long as it does so at every boundary on the way. */
  lemma {:induction false} SteadyBetween(windows: seq<AllowedWindow>, state: bool, lo: int, hi: int)
    requires lo <= hi && Allows(windows, lo) == state
    requires forall m | lo < m <= hi && IsBoundary(windows, m) :: Allows(windows, m) == state
    ensures Allows(windows, hi) == state
    decreases hi - lo
  {
    if lo < hi {
      SteadyBetween(windows, state, lo, hi - 1);
      if !IsBoundary(windows, hi) {
        NoBoundaryNoChange(windows, hi);
      }
    }
  }

  /** The boundary minutes in `[lo, hi)`, ascending, each once. */
  method BoundariesIn(windows: seq<AllowedWindow>, lo: int, hi: int) returns (boundaries: seq<int>)
    ensures Ascending(boundaries)
    ensures forall m :: m in boundaries <==> lo <= m < hi && IsBoundary(windows, m)
  {
    var found: seq<int> := [];
    for k := 0 to |windows|
      invariant NoDuplicates(found)
      invariant forall m :: m in found <==> lo <= m < hi && IsBoundary(windows[..k], m)
    {
      var w := windows[k];
      assert windows[..k + 1] == windows[..k] + [w];
      forall m ensures IsBoundary(windows[..k + 1], m) <==> IsBoundary(windows[..k], m) || w.start == m || w.end == m {
        BoundaryAppend(windows[..k], w, m);
      }
      if lo <= w.start < hi {
        found := AddToSet(found, w.start);
      }
      if lo <= w.end < hi {
        found := AddToSet(found, w.end);
      }
    }
    assert windows[..|windows|] == windows;
    boundaries := SortNumbers(found);
    SortNumbersAscending(found);
  }

  lemma BoundaryAppend(windows: seq<AllowedWindow>, w: AllowedWindow, minute: int)
    ensures IsBoundary(windows + [w], minute) <==> IsBoundary(windows, minute) || w.start == minute || w.end == minute
  {
    var more := windows + [w];
    if IsBoundary(windows, minute) {
      var i :| 0 <= i < |windows| && (windows[i].start == minute || windows[i].end == minute);
      assert more[i] == windows[i];
    }
    assert more[|windows|] == w;
  }

  /** The first candidate whose access differs from `state`. */
  method FirstChange(windows: seq<AllowedWindow>, candidates: seq<int>, state: bool) returns (change: Option<int>)
    ensures change.None? ==> forall k | 0 <= k < |candidates| :: Allows(windows, candidates[k]) == state
    ensures change.Some? ==> exists k | 0 <= k < |candidates| ::
              change.value == candidates[k] && Allows(windows, candidates[k]) != state
              && forall j | 0 <= j < k :: Allows(windows, candidates[j]) == state
  {
    for k := 0 to |candidates|
      invariant forall j | 0 <= j < k :: Allows(windows, candidates[j]) == state
    {
      if Allows(windows, candidates[k]) != state {
        return Some(candidates[k]);
      }
    }
    return None;
  }

  /** Looking at the boundaries after a steady minute finds what looking at every minute finds. */
  lemma WalkIsScan(
    windows: seq<AllowedWindow>, state: bool, base: int, hi: int, candidates: seq<int>, change: Option<int>)
    requires Allows(windows, base) == state
    requires Ascending(candidates) && forall m :: m in candidates <==> base + 1 <= m < hi && IsBoundary(windows, m)
    requires change.None? ==> forall k | 0 <= k < |candidates| :: Allows(windows, candidates[k]) == state
    requires change.Some? ==> exists k | 0 <= k < |candidates| ::
               change.value == candidates[k] && Allows(windows, candidates[k]) != state
               && forall j | 0 <= j < k :: Allows(windows, candidates[j]) == state
    ensures change == FirstFlip(windows, state, base + 1, hi)
  {
    var limit := if change.Some? then change.value else hi;
    forall m | base < m < limit && m < hi ensures Allows(windows, m) == state {
      forall b | base < b <= m && IsBoundary(windows, b) ensures Allows(windows, b) == state {
        assert b in candidates;
        var j :| 0 <= j < |candidates| && candidates[j] == b;
        if change.Some? {
          var k :| 0 <= k < |candidates| && change.value == candidates[k]
                   && forall j | 0 <= j < k :: Allows(windows, candidates[j]) == state;
          assert j < k;
        }
      }
      SteadyBetween(windows, state, base, m);
    }
    if change.Some? {
      assert change.value in candidates;
    }
  }

  /**
   * The next overall-access change after `nowMinute`: for any window lists, overlapping
   * ones included, the boundary walk returns what the minute-by-minute scan returns.
   */
  method NextOverallTransition(
    today: seq<AllowedWindow>, nowMinute: int, todayDate: string,
    tomorrow: seq<AllowedWindow>, tomorrowDate: string)
    returns (next: Option<Transition>)
    ensures next == PlainScan(today, nowMinute, todayDate, tomorrow, tomorrowDate)
  {
    var state := Allows(today, nowMinute);
    var ahead := BoundariesIn(today, nowMinute + 1, MINUTES_PER_DAY);
    var minute := FirstChange(today, ahead, state);
    WalkIsScan(today, state, nowMinute, MINUTES_PER_DAY, ahead, minute);
    if minute.Some? {
      var kind := if Allows(today, minute.value) then AccessResumes else AccessEnds;
      return Some(Transition(kind, todayDate, minute.value));
    }
    // Midnight is always a candidate: access may change on the day crossing itself.
    var later := BoundariesIn(tomorrow, 1, MINUTES_PER_DAY);
    minute := FirstChange(tomorrow, [0] + later, state);
    if Allows(tomorrow, 0) == state {
      MidnightSteady(tomorrow, later, state, minute);
      WalkIsScan(tomorrow, state, 0, MINUTES_PER_DAY, later, minute);
    } else {
      assert ([0] + later)[0] == 0;
    }
    if minute.Some? {
      var kind := if Allows(tomorrow, minute.value) then AccessResumes else AccessEnds;
      return Some(Transition(kind, tomorrowDate, minute.value));
    }
    return None;
  }

  lemma MidnightSteady(windows: seq<AllowedWindow>, later: seq<int>, state: bool, change: Option<int>)
    requires Allows(windows, 0) == state
    requires var all := [0] + later;
             && (change.None? ==> forall k | 0 <= k < |all| :: Allows(windows, all[k]) == state)
             && (change.Some? ==> exists k | 0 <= k < |all| ::
                   change.value == all[k] && Allows(windows, all[k]) != state
                   && forall j | 0 <= j < k :: Allows(windows, all[j]) == state)
    ensures change.None? ==> forall k | 0 <= k < |later| :: Allows(windows, later[k]) == state
    ensures change.Some? ==> exists k | 0 <= k < |later| ::
              change.value == later[k] && Allows(windows, later[k]) != state
              && forall j | 0 <= j < k :: Allows(windows, later[j]) == state
  {
    var all := [0] + later;
    assert forall k | 0 <= k < |later| :: all[k + 1] == later[k];
    if change.Some? {
      var k :| 0 <= k < |all| && change.value == all[k] && Allows(windows, all[k]) != state
               && forall j | 0 <= j < k :: Allows(windows, all[j]) == state;
      assert k > 0 && later[k - 1] == all[k];
      forall j | 0 <= j < k - 1 ensures Allows(windows, later[j]) == state {
        assert all[j + 1] == later[j];
      }
    }
  }

  // ----- end to end: the change the rules themselves make -----

  /**
   * Over resolved windows the announced change is one in the rules' own meaning: access
   * keeps its present value at every minute before it and has the other value there.
   */
  lemma TransitionIsPolicyChange(
    rulesToday: seq<ActiveRule>, rulesTomorrow: seq<ActiveRule>, nowMinute: int,
    todayDate: string, tomorrowDate: string)
    requires WithinDay(rulesToday) && WithinDay(rulesTomorrow) && 0 <= nowMinute < MINUTES_PER_DAY
    requires todayDate != tomorrowDate
    ensures var today, tomorrow := AllowedRuns(rulesToday), AllowedRuns(rulesTomorrow);
            var next := PlainScan(today, nowMinute, todayDate, tomorrow, tomorrowDate);
            var state := MinuteAllowed(rulesToday, nowMinute);
            && (next.None? <==>
                  (forall m | nowMinute < m < MINUTES_PER_DAY :: MinuteAllowed(rulesToday, m) == state)
                  && (forall m | 0 <= m < MINUTES_PER_DAY :: MinuteAllowed(rulesTomorrow, m) == state))
            && (next.Some? ==> next.value.kind == if state then AccessEnds else AccessResumes)
            && (next.Some? && next.value.localDate == todayDate ==>
                  && nowMinute < next.value.atMinuteOfDay < MINUTES_PER_DAY
                  && MinuteAllowed(rulesToday, next.value.atMinuteOfDay) != state
                  && forall m | nowMinute < m < next.value.atMinuteOfDay :: MinuteAllowed(rulesToday, m) == state)
            && (next.Some? && next.value.localDate != todayDate ==>
                  && next.value.localDate == tomorrowDate
                  && 0 <= next.value.atMinuteOfDay < MINUTES_PER_DAY
                  && MinuteAllowed(rulesTomorrow, next.value.atMinuteOfDay) != state
                  && (forall m | nowMinute < m < MINUTES_PER_DAY :: MinuteAllowed(rulesToday, m) == state)
                  && forall m | 0 <= m < next.value.atMinuteOfDay :: MinuteAllowed(rulesTomorrow, m) == state)
  {
    hide AllowedRuns, MinuteAllowed;
    forall m | 0 <= m < MINUTES_PER_DAY
      ensures Allows(AllowedRuns(rulesToday), m) <==> MinuteAllowed(rulesToday, m)
      ensures Allows(AllowedRuns(rulesTomorrow), m) <==> MinuteAllowed(rulesTomorrow, m)
    {
      AllowedRunsMeaning(rulesToday, m);
      AllowedRunsMeaning(rulesTomorrow, m);
    }
  }
}
