// The warning cadence of a draining budget: which boundaries exist, and which
// warning each reading of the remaining time announces.

module Cadence {
  import opened Common

  const SECONDS_PER_MINUTE := 60
  const COARSE_INTERVAL_MINUTES := 15
  const FIXED_MINUTES: seq<int> := [10, 5, 4, 3, 2, 1]

  /** Whole seconds, never negative. */
  function WholeSeconds(seconds: real): (s: nat)
    ensures if seconds < 1.0 then s == 0 else s as real <= seconds < s as real + 1.0
  {
    Max(0, seconds.Floor)
  }

  // ----- the boundaries -----

  /** A minute worth warning at: a multiple of fifteen, or ten, or one of the last five. */
  predicate WarningMinute(m: int) {
    (m >= COARSE_INTERVAL_MINUTES && m % COARSE_INTERVAL_MINUTES == 0) || m in FIXED_MINUTES
  }

  predicate IsThreshold(seconds: int, total: int) {
    seconds < total && seconds % SECONDS_PER_MINUTE == 0 && WarningMinute(seconds / SECONDS_PER_MINUTE)
  }

  /** Below the total: one to five minutes, ten, and every quarter of an hour. */
  lemma ThresholdsPlainly(seconds: int, total: int)
    ensures IsThreshold(seconds, total)
            <==> seconds < total
                 && (seconds in {60, 120, 180, 240, 300, 600} || (seconds >= 900 && seconds % 900 == 0))
  {
    var m := seconds / 60;
    if seconds % 60 == 0 {
      assert seconds == 60 * m;
      assert m % 15 == 0 <==> seconds % 900 == 0;
    } else if seconds % 900 == 0 {
      assert seconds == 60 * (15 * (seconds / 900));
    }
  }

  ghost predicate Descending(s: seq<int>) {
    forall i, j | 0 <= i < j < |s| :: s[i] > s[j]
  }

  function Reversed(s: seq<int>): (r: seq<int>)
    ensures |r| == |s|
  {
    seq(|s|, i requires 0 <= i < |s| => s[|s| - 1 - i])
  }

  /** Minutes gathered so far: the coarse ones below `bound`, and some of the fixed ones. */
  ghost predicate Gathered(minutes: seq<int>, bound: int, fixed: int, total: int) {
    && 0 <= fixed <= |FIXED_MINUTES|
    && NoDuplicates(minutes)
    && forall m :: m in minutes <==>
                   && m * SECONDS_PER_MINUTE < total
                   && ((COARSE_INTERVAL_MINUTES <= m < bound && m % COARSE_INTERVAL_MINUTES == 0)
                       || m in FIXED_MINUTES[..fixed])
  }

  method WarningThresholdsSeconds(totalSeconds: real) returns (thresholds: seq<int>)
    ensures Descending(thresholds)
    ensures forall t :: t in thresholds <==> IsThreshold(t, WholeSeconds(totalSeconds))
  {
    var total := WholeSeconds(totalSeconds);
    var minutes: seq<int> := [];
    var m := COARSE_INTERVAL_MINUTES;
    while m * SECONDS_PER_MINUTE < total
      invariant m >= COARSE_INTERVAL_MINUTES && m % COARSE_INTERVAL_MINUTES == 0
      invariant Gathered(minutes, m, 0, total)
      decreases total - m * SECONDS_PER_MINUTE
    {
      CoarseStep(minutes, m, total);
      minutes := AddToSet(minutes, m);
      m := m + COARSE_INTERVAL_MINUTES;
    }
    for i := 0 to |FIXED_MINUTES|
      invariant Gathered(minutes, m, i, total)
    {
      FixedStep(minutes, m, i, total);
      if FIXED_MINUTES[i] * SECONDS_PER_MINUTE < total {
        minutes := AddToSet(minutes, FIXED_MINUTES[i]);
      }
    }
    assert FIXED_MINUTES[..|FIXED_MINUTES|] == FIXED_MINUTES;
    thresholds := SortedDescending(minutes, m, total);
  }

  lemma CoarseStep(minutes: seq<int>, m: int, total: int)
    requires m >= COARSE_INTERVAL_MINUTES && m % COARSE_INTERVAL_MINUTES == 0 && m * SECONDS_PER_MINUTE < total
    requires Gathered(minutes, m, 0, total)
    ensures Gathered(AddToSet(minutes, m), m + COARSE_INTERVAL_MINUTES, 0, total)
  {
    forall k | m < k < m + COARSE_INTERVAL_MINUTES ensures k % COARSE_INTERVAL_MINUTES != 0 {
      assert k == m + (k - m);
    }
  }

  lemma FixedStep(minutes: seq<int>, bound: int, i: nat, total: int)
    requires i < |FIXED_MINUTES| && Gathered(minutes, bound, i, total)
    ensures var m := FIXED_MINUTES[i];
            Gathered(if m * SECONDS_PER_MINUTE < total then AddToSet(minutes, m) else minutes, bound, i + 1, total)
  {
    assert FIXED_MINUTES[..i + 1] == FIXED_MINUTES[..i] + [FIXED_MINUTES[i]];
  }

  function InSeconds(m: int): int {
    m * SECONDS_PER_MINUTE
  }

  /** `[...minutes].map((m) => m * 60).sort((a, b) => b - a)`. */
  method SortedDescending(minutes: seq<int>, bound: int, total: int) returns (thresholds: seq<int>)
    requires Gathered(minutes, bound, |FIXED_MINUTES|, total) && bound * SECONDS_PER_MINUTE >= total
    ensures Descending(thresholds)
    ensures forall t :: t in thresholds <==> IsThreshold(t, total)
  {
    var seconds := Map(InSeconds, minutes);
    var ascending := SortNumbers(seconds);
    SortNumbersAscending(seconds);
    thresholds := Reversed(ascending);
    forall t ensures t in thresholds <==> IsThreshold(t, total) {
      ReversedMembers(ascending, t);
      GatheredSeconds(minutes, bound, total, t);
    }
  }

  lemma ReversedMembers(s: seq<int>, x: int)
    ensures x in Reversed(s) <==> x in s
  {
    if i :| 0 <= i < |s| && s[i] == x {
      assert Reversed(s)[|s| - 1 - i] == x;
    }
  }

  /** Converted to seconds, the gathered minutes are the boundaries. */
  lemma GatheredSeconds(minutes: seq<int>, bound: int, total: int, t: int)
    requires Gathered(minutes, bound, |FIXED_MINUTES|, total) && bound * SECONDS_PER_MINUTE >= total
    ensures t in Map(InSeconds, minutes) <==> IsThreshold(t, total)
  {
    var seconds := Map(InSeconds, minutes);
    if t in seconds {
      var k :| 0 <= k < |seconds| && seconds[k] == t;
      assert minutes[k] in minutes;
    }
    if IsThreshold(t, total) {
      var m := t / SECONDS_PER_MINUTE;
      assert InSeconds(m) == t && m in minutes;
      var k :| 0 <= k < |minutes| && minutes[k] == m;
      assert seconds[k] in seconds;
    }
  }

  // ----- the tracker -----

  datatype Kind = WarningKind | TimesUp

  datatype Warning = Warning(kind: Kind, remainingSeconds: int, thresholdSeconds: int)

  /** `lastAnnounced` is absent while it stands for infinity. */
  datatype Tracker = Tracker(lastAnnounced: Option<int>, finalAnnounced: bool)

  const FRESH := Tracker(None, false)

  /** The smallest boundary not below `remaining`. */
  function DeepestAtLeast(thresholds: seq<int>, remaining: int): Option<int> {
    if thresholds == [] then None
    else
      var n := |thresholds| - 1;
      if thresholds[n] >= remaining then Some(thresholds[n]) else DeepestAtLeast(thresholds[..n], remaining)
  }

  lemma {:induction false} DeepestMeaning(thresholds: seq<int>, remaining: int)
    requires Descending(thresholds)
    ensures match DeepestAtLeast(thresholds, remaining)
            case None => forall t | t in thresholds :: t < remaining
            case Some(d) => d in thresholds && d >= remaining && forall t | t in thresholds && t >= remaining :: d <= t
  {
    if thresholds != [] {
      var n := |thresholds| - 1;
      DeepestMeaning(thresholds[..n], remaining);
      assert thresholds == thresholds[..n] + [thresholds[n]];
      forall t | t in thresholds[..n] ensures t > thresholds[n] {
        var i :| 0 <= i < n && thresholds[i] == t;
      }
    }
  }

  predicate Below(t: int, last: Option<int>) {
    last.None? || t < last.value
  }

  /** The deepest boundary reached, if it is not announced yet. */
  function NewlyReached(thresholds: seq<int>, remaining: int, last: Option<int>): Option<int> {
    var deepest := DeepestAtLeast(thresholds, remaining);
    if deepest.Some? && Below(deepest.value, last) then deepest else None
  }

  function Observed(tracker: Tracker, thresholds: seq<int>, remaining: nat): Tracker {
    if remaining == 0 then if tracker.finalAnnounced then tracker else Tracker(Some(0), true)
    else
      var deepest := NewlyReached(thresholds, remaining, tracker.lastAnnounced);
      if deepest.None? then tracker else tracker.(lastAnnounced := deepest)
  }

  function Announced(tracker: Tracker, thresholds: seq<int>, remaining: nat): Option<Warning> {
    if remaining == 0 then if tracker.finalAnnounced then None else Some(Warning(TimesUp, 0, 0))
    else
      match NewlyReached(thresholds, remaining, tracker.lastAnnounced)
      case None => None
      case Some(deepest) => Some(Warning(WarningKind, remaining, deepest))
  }

  class CadenceTracker {
    const total: nat
    var thresholds: seq<int>
    var lastAnnounced: Option<int>
    var finalAnnounced: bool

    ghost predicate Valid()
      reads this
    {
      Descending(thresholds) && forall t :: t in thresholds <==> IsThreshold(t, total)
    }

    function Model(): Tracker
      reads this
    {
      Tracker(lastAnnounced, finalAnnounced)
    }

    constructor (totalSeconds: real)
      ensures Valid() && Model() == FRESH && total == WholeSeconds(totalSeconds)
    {
      total := WholeSeconds(totalSeconds);
      var boundaries := WarningThresholdsSeconds(totalSeconds);
      thresholds := boundaries;
      lastAnnounced, finalAnnounced := None, false;
    }

    /** Feed the current remaining seconds; get the warning to render, if any. */
    method Observe(remainingSeconds: real) returns (warning: Option<Warning>)
      requires Valid()
      modifies this`lastAnnounced, this`finalAnnounced
      ensures Valid()
      ensures Model() == Observed(old(Model()), thresholds, WholeSeconds(remainingSeconds))
      ensures warning == Announced(old(Model()), thresholds, WholeSeconds(remainingSeconds))
    {
      var remaining := WholeSeconds(remainingSeconds);
      if remaining <= 0 {
        if finalAnnounced {
          return None;
        }
        finalAnnounced := true;
        lastAnnounced := Some(0);
        return Some(Warning(TimesUp, 0, 0));
      }
      var deepest: Option<int> := None;
      for i := 0 to |thresholds|
        invariant Model() == old(Model())
        invariant deepest == NewlyReached(thresholds[..i], remaining, lastAnnounced)
      {
        var threshold := thresholds[i];
        NewlyReachedStep(thresholds, i, remaining, lastAnnounced);
        if Below(threshold, lastAnnounced) && remaining <= threshold {
          deepest := Some(threshold);
        }
      }
      assert thresholds[..|thresholds|] == thresholds;
      assert deepest == NewlyReached(thresholds, remaining, lastAnnounced);
      if deepest.None? {
        return None;
      }
      lastAnnounced := deepest;
      return Some(Warning(WarningKind, remaining, deepest.value));
    }
  }

  lemma NewlyReachedStep(thresholds: seq<int>, i: nat, remaining: int, last: Option<int>)
    requires Descending(thresholds) && i < |thresholds|
    ensures NewlyReached(thresholds[..i + 1], remaining, last)
            == if Below(thresholds[i], last) && remaining <= thresholds[i] then Some(thresholds[i])
               else NewlyReached(thresholds[..i], remaining, last)
  {
    assert thresholds[..i + 1][..i] == thresholds[..i];
    DeepestMeaning(thresholds[..i], remaining);
  }

  // ----- any run of readings -----

  function StateAfter(thresholds: seq<int>, readings: seq<nat>): Tracker {
    if readings == [] then FRESH
    else Observed(StateAfter(thresholds, readings[..|readings| - 1]), thresholds, readings[|readings| - 1])
  }

  /** The warnings of a run, oldest first. */
  function WarningsOf(thresholds: seq<int>, readings: seq<nat>): seq<Warning> {
    if readings == [] then []
    else
      var init := readings[..|readings| - 1];
      var warning := Announced(StateAfter(thresholds, init), thresholds, readings[|readings| - 1]);
      WarningsOf(thresholds, init) + if warning.Some? then [warning.value] else []
  }

  function Lowest(readings: seq<nat>): nat
    requires readings != []
  {
    var last := readings[|readings| - 1];
    if |readings| == 1 then last else Min(Lowest(readings[..|readings| - 1]), last)
  }

  ghost predicate Boundaries(thresholds: seq<int>) {
    Descending(thresholds) && forall t | t in thresholds :: t > 0
  }

  lemma {:induction false} DeepestOfMin(thresholds: seq<int>, a: int, b: int)
    requires Descending(thresholds)
    ensures NewlyReached(thresholds, b, DeepestAtLeast(thresholds, a)).Some?
            ==> NewlyReached(thresholds, b, DeepestAtLeast(thresholds, a)) == DeepestAtLeast(thresholds, Min(a, b))
    ensures NewlyReached(thresholds, b, DeepestAtLeast(thresholds, a)).None?
            ==> DeepestAtLeast(thresholds, Min(a, b)) == DeepestAtLeast(thresholds, a)
  {
    DeepestMeaning(thresholds, a);
    DeepestMeaning(thresholds, b);
  }

  /**
   * Until zero the last announced boundary is the smallest one not below the lowest reading; from
   * zero on it is zero.
   */
  lemma {:induction false} StateIsLowest(thresholds: seq<int>, readings: seq<nat>)
    requires Boundaries(thresholds)
    ensures StateAfter(thresholds, readings)
            == if readings == [] then FRESH
               else if Lowest(readings) == 0 then Tracker(Some(0), true)
               else Tracker(DeepestAtLeast(thresholds, Lowest(readings)), false)
  {
    if readings != [] {
      var n := |readings| - 1;
      var init, last := readings[..n], readings[n];
      StateIsLowest(thresholds, init);
      DeepestMeaning(thresholds, last);
      if init != [] {
        DeepestOfMin(thresholds, Lowest(init), last);
      }
    }
  }

  ghost predicate WarnsDown(warnings: seq<Warning>) {
    && (forall i, j | 0 <= i < j < |warnings| :: warnings[i].thresholdSeconds > warnings[j].thresholdSeconds)
    && (forall i | 0 <= i < |warnings| :: warnings[i].kind.TimesUp? <==> warnings[i].thresholdSeconds == 0)
    && (forall i | 0 <= i < |warnings| :: 0 <= warnings[i].remainingSeconds <= warnings[i].thresholdSeconds)
  }

  /** What the warnings so far say of the tracker: the last one carries its last announced boundary. */
  ghost predicate LastWarning(warnings: seq<Warning>, tracker: Tracker) {
    if warnings == [] then tracker == FRESH
    else
      var last := warnings[|warnings| - 1];
      tracker == Tracker(Some(last.thresholdSeconds), last.kind.TimesUp?)
  }

  /**
   * Whatever the readings, the announced boundaries strictly decrease, so none repeats,
   * and time's up comes at most once and last.
   */
  lemma {:induction false} WarningsDecrease(thresholds: seq<int>, readings: seq<nat>)
    requires Boundaries(thresholds)
    ensures WarnsDown(WarningsOf(thresholds, readings))
    ensures LastWarning(WarningsOf(thresholds, readings), StateAfter(thresholds, readings))
  {
    if readings != [] {
      var n := |readings| - 1;
      WarningsDecrease(thresholds, readings[..n]);
      var init := readings[..n];
      OneMoreWarning(WarningsOf(thresholds, init), StateAfter(thresholds, init), thresholds, readings[n]);
    }
  }

  lemma OneMoreWarning(warnings: seq<Warning>, tracker: Tracker, thresholds: seq<int>, remaining: nat)
    requires Boundaries(thresholds) && WarnsDown(warnings) && LastWarning(warnings, tracker)
    ensures var warning := Announced(tracker, thresholds, remaining);
            var more := warnings + if warning.Some? then [warning.value] else [];
            WarnsDown(more) && LastWarning(more, Observed(tracker, thresholds, remaining))
  {
    DeepestMeaning(thresholds, remaining);
    var warning := Announced(tracker, thresholds, remaining);
    hide DeepestAtLeast;
    if warning.Some? {
      assert warnings != [] ==> warning.value.thresholdSeconds < warnings[|warnings| - 1].thresholdSeconds;
    } else {
      assert warnings + [] == warnings;
    }
  }

  /**
   * A reading is announced exactly when it moves the tracker, at the boundary it moved to,
   * and the announcement carries the reading itself.
   */
  lemma AnnouncesExactly(thresholds: seq<int>, readings: seq<nat>, remaining: nat)
    requires Boundaries(thresholds)
    ensures var before, after := StateAfter(thresholds, readings), StateAfter(thresholds, readings + [remaining]);
            var warning := Announced(before, thresholds, remaining);
            && (warning.Some? <==> after != before)
            && (warning.Some? ==>
                  && warning.value.remainingSeconds == remaining
                  && after.lastAnnounced == Some(warning.value.thresholdSeconds)
                  && (warning.value.kind.TimesUp? <==> remaining == 0))
  {
    assert (readings + [remaining])[..|readings|] == readings;
    StateIsLowest(thresholds, readings);
    DeepestMeaning(thresholds, remaining);
  }

  // ----- draining second by second -----

  /** The readings `total, total - 1, …, low`. */
  function Drain(total: nat, low: nat): seq<nat>
    requires low <= total
    decreases total - low
  {
    (if low == total then [] else Drain(total, low + 1)) + [low]
  }

  lemma {:induction false} DrainLowest(total: nat, low: nat)
    requires low <= total
    ensures Drain(total, low) != [] && Lowest(Drain(total, low)) == low
    decreases total - low
  {
    if low < total {
      DrainLowest(total, low + 1);
      assert Drain(total, low)[..|Drain(total, low)| - 1] == Drain(total, low + 1);
    }
  }

  /** The boundaries not below `low`, in order. */
  function From(thresholds: seq<int>, low: int): seq<int> {
    Filter((t: int) => t >= low, thresholds)
  }

  lemma {:induction false} FromOneLower(thresholds: seq<int>, low: int)
    requires Descending(thresholds)
    ensures From(thresholds, low) == From(thresholds, low + 1) + if low in thresholds then [low] else []
  {
    if thresholds != [] {
      assert thresholds == [thresholds[0]] + thresholds[1..];
      FromOneLower(thresholds[1..], low);
      if thresholds[0] <= low {
        NothingAbove(thresholds[1..], low);
      }
    }
  }

  lemma {:induction false} NothingAbove(thresholds: seq<int>, low: int)
    requires forall i | 0 <= i < |thresholds| :: thresholds[i] < low
    ensures From(thresholds, low) == [] && From(thresholds, low + 1) == []
  {
    if thresholds != [] {
      NothingAbove(thresholds[1..], low);
    }
  }

  function ThresholdOf(warning: Warning): int {
    warning.thresholdSeconds
  }

  /** Where a drain stands just before it reaches `low`. */
  lemma DrainedTo(thresholds: seq<int>, total: nat, low: nat)
    requires Boundaries(thresholds) && (forall t | t in thresholds :: t < total) && low < total
    ensures StateAfter(thresholds, Drain(total, low + 1)) == Tracker(DeepestAtLeast(thresholds, low + 1), false)
  {
    StateIsLowest(thresholds, Drain(total, low + 1));
    DrainLowest(total, low + 1);
  }

  /** One second lower announces exactly the boundary that lies there. */
  lemma OneSecondLower(thresholds: seq<int>, low: nat)
    requires Boundaries(thresholds)
    ensures Announced(Tracker(DeepestAtLeast(thresholds, low + 1), false), thresholds, low)
            == if low == 0 then Some(Warning(TimesUp, 0, 0))
               else if low in thresholds then Some(Warning(WarningKind, low, low))
               else None
  {
    DeepestMeaning(thresholds, low);
    DeepestMeaning(thresholds, low + 1);
  }

  /** The first reading of a fresh budget announces nothing. */
  lemma SilentAtTotal(thresholds: seq<int>, total: nat)
    requires Boundaries(thresholds) && (forall t | t in thresholds :: t < total) && total > 0
    ensures WarningsOf(thresholds, Drain(total, total)) == [] && From(thresholds, total) == []
  {
    var readings := Drain(total, total);
    assert readings == [total] && readings[..0] == [];
    assert forall i | 0 <= i < |thresholds| :: thresholds[i] in thresholds;
    NothingAbove(thresholds, total);
    DeepestMeaning(thresholds, total);
    assert Announced(FRESH, thresholds, total).None?;
  }

  lemma DrainStep(thresholds: seq<int>, total: nat, low: nat)
    requires Boundaries(thresholds) && (forall t | t in thresholds :: t < total) && low < total
    ensures Map(ThresholdOf, WarningsOf(thresholds, Drain(total, low)))
            == Map(ThresholdOf, WarningsOf(thresholds, Drain(total, low + 1)))
               + if low == 0 || low in thresholds then [low] else []
  {
    var readings, init := Drain(total, low), Drain(total, low + 1);
    assert readings[..|readings| - 1] == init && readings[|readings| - 1] == low;
    DrainedTo(thresholds, total, low);
    OneSecondLower(thresholds, low);
    var warnings := WarningsOf(thresholds, init);
    var warning := Announced(StateAfter(thresholds, init), thresholds, low);
    var more := if warning.Some? then [warning.value] else [];
    assert WarningsOf(thresholds, readings) == warnings + more;
    hide WarningsOf, StateAfter, Drain, Announced;
    assert Map(ThresholdOf, warnings + more) == Map(ThresholdOf, warnings) + Map(ThresholdOf, more);
  }

  /** Draining from the total announces every boundary once, in order, as it is reached, and then time's up. */
  lemma {:induction false} DrainAnnouncesAll(thresholds: seq<int>, total: nat, low: nat)
    requires Boundaries(thresholds) && (forall t | t in thresholds :: t < total) && low <= total && total > 0
    ensures Map(ThresholdOf, WarningsOf(thresholds, Drain(total, low)))
            == From(thresholds, low) + if low == 0 then [0] else []
    decreases total - low
  {
    hide WarningsOf, From, Drain;
    if low == total {
      SilentAtTotal(thresholds, total);
    } else {
      FromOneLower(thresholds, low);
      DrainAnnouncesAll(thresholds, total, low + 1);
      DrainStep(thresholds, total, low);
    }
  }

  /** For the real boundaries of a budget: a whole drain announces exactly them, largest first, then zero. */
  lemma FullDrain(thresholds: seq<int>, total: nat)
    requires Descending(thresholds) && (forall t :: t in thresholds <==> IsThreshold(t, total)) && total > 0
    ensures Map(ThresholdOf, WarningsOf(thresholds, Drain(total, 0))) == thresholds + [0]
  {
    forall t | t in thresholds ensures 0 < t < total {
      assert t == SECONDS_PER_MINUTE * (t / SECONDS_PER_MINUTE);
    }
    DrainAnnouncesAll(thresholds, total, 0);
    assert forall i | 0 <= i < |thresholds| :: thresholds[i] in thresholds;
    AllFrom(thresholds);
  }

  lemma {:induction false} AllFrom(thresholds: seq<int>)
    requires forall i | 0 <= i < |thresholds| :: thresholds[i] >= 0
    ensures From(thresholds, 0) == thresholds
  {
    if thresholds != [] {
      assert thresholds == [thresholds[0]] + thresholds[1..];
      AllFrom(thresholds[1..]);
    }
  }
}
