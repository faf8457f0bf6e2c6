// Usage rollups: clamped overlaps of stored samples with a budget window, and the
// conservation of usage over consecutive windows.

module Usage {
  import opened Common
  import opened BudgetWindow

  /** A stored usage interval `[startedAt, endedAt)`, in milliseconds. */
  datatype Sample = Sample(userId: int, clientId: int, activityId: int, startedAt: int, endedAt: int)

  /** Half-open `[from, to)` overlap of one sample, in seconds, never negative. */
  function OverlapSeconds(row: Sample, from: int, to: int): real {
    Max(0, Min(row.endedAt, to) - Max(row.startedAt, from)) as real / 1000.0
  }

  /** The rollup queries' row filter: starts before the window ends and ends after it starts. */
  predicate Overlaps(row: Sample, from: int, to: int) {
    row.startedAt < to && row.endedAt > from
  }

  /** The rows a query picks, reduced to the sum of their overlaps. */
  function SumOverlaps(rows: seq<Sample>, from: int, to: int): real {
    if rows == [] then 0.0 else OverlapSeconds(rows[0], from, to) + SumOverlaps(rows[1..], from, to)
  }

  function UsedBy(userId: int, activityIds: set<int>): Sample -> bool {
    (row: Sample) => row.userId == userId && row.activityId in activityIds
  }

  function Picked(userId: int, activityIds: set<int>, from: int, to: int): Sample -> bool {
    (row: Sample) => row.userId == userId && row.activityId in activityIds && Overlaps(row, from, to)
  }

  function ActivitySecondsInWindow(db: seq<Sample>, userId: int, activityId: int, w: Bounds): real {
    SumOverlaps(Filter(Picked(userId, {activityId}, w.start, w.end), db), w.start, w.end)
  }

  function GroupSecondsInWindow(
    db: seq<Sample>, members: map<int, set<int>>, userId: int, groupId: int, w: Bounds): real
  {
    var activityIds := if groupId in members then members[groupId] else {};
    if activityIds == {} then 0.0
    else SumOverlaps(Filter(Picked(userId, activityIds, w.start, w.end), db), w.start, w.end)
  }

  // ----- the reference: overlap of every sample, with no row filter -----

  function Total(db: seq<Sample>, userId: int, activityIds: set<int>, from: int, to: int): real {
    if db == [] then 0.0
    else
      (if UsedBy(userId, activityIds)(db[0]) then OverlapSeconds(db[0], from, to) else 0.0)
      + Total(db[1..], userId, activityIds, from, to)
  }

  /** The milliseconds of `[from, to)` in which a row's activity was in use, counted one by one. */
  ghost function RowMillis(row: Sample, from: int, to: int): int
    decreases (to - from)
  {
    if to <= from then 0 else RowMillis(row, from, to - 1) + if row.startedAt <= to - 1 < row.endedAt then 1 else 0
  }

  ghost function UsedMillis(db: seq<Sample>, userId: int, activityIds: set<int>, from: int, to: int): int {
    if db == [] then 0
    else
      (if db[0].userId == userId && db[0].activityId in activityIds then RowMillis(db[0], from, to) else 0)
      + UsedMillis(db[1..], userId, activityIds, from, to)
  }

  lemma {:induction false} RowMillisOverlap(row: Sample, from: int, to: int)
    ensures RowMillis(row, from, to) == Max(0, Min(row.endedAt, to) - Max(row.startedAt, from))
    decreases (to - from)
  {
    if from < to {
      RowMillisOverlap(row, from, to - 1);
    }
  }

  /** Usage in seconds is a thousandth of the milliseconds in use, row by row. */
  lemma {:induction false} TotalCountsMillis(db: seq<Sample>, userId: int, activityIds: set<int>, from: int, to: int)
    ensures Total(db, userId, activityIds, from, to) == UsedMillis(db, userId, activityIds, from, to) as real / 1000.0
  {
    if db != [] {
      TotalCountsMillis(db[1..], userId, activityIds, from, to);
      RowMillisOverlap(db[0], from, to);
    }
  }

  /** Filtering rows by the window loses no usage. */
  lemma {:induction false} FilterLosesNothing(db: seq<Sample>, userId: int, activityIds: set<int>, from: int, to: int)
    ensures SumOverlaps(Filter(Picked(userId, activityIds, from, to), db), from, to)
            == Total(db, userId, activityIds, from, to)
  {
    if db != [] {
      var picked := Picked(userId, activityIds, from, to);
      var rest := Filter(picked, db[1..]);
      if picked(db[0]) {
        assert Filter(picked, db) == [db[0]] + rest;
        assert ([db[0]] + rest)[1..] == rest;
      } else {
        assert Filter(picked, db) == rest;
      }
      FilterLosesNothing(db[1..], userId, activityIds, from, to);
    }
  }

  lemma {:induction false} TotalNothing(db: seq<Sample>, userId: int, from: int, to: int)
    ensures Total(db, userId, {}, from, to) == 0.0
  {
    if db != [] {
      TotalNothing(db[1..], userId, from, to);
    }
  }

  lemma {:induction false} TotalSplitsActivities(
    db: seq<Sample>, userId: int, a: set<int>, b: set<int>, from: int, to: int)
    requires a !! b
    ensures Total(db, userId, a + b, from, to) == Total(db, userId, a, from, to) + Total(db, userId, b, from, to)
  {
    if db != [] {
      TotalSplitsActivities(db[1..], userId, a, b, from, to);
    }
  }

  /** Per-activity and per-group rollups of one window agree with the unfiltered reference. */
  lemma RollupsAgree(
    db: seq<Sample>, members: map<int, set<int>>, userId: int, groupId: int, activityId: int, w: Bounds)
    ensures ActivitySecondsInWindow(db, userId, activityId, w) == Total(db, userId, {activityId}, w.start, w.end)
    ensures GroupSecondsInWindow(db, members, userId, groupId, w)
            == Total(db, userId, if groupId in members then members[groupId] else {}, w.start, w.end)
  {
    FilterLosesNothing(db, userId, {activityId}, w.start, w.end);
    FilterLosesNothing(db, userId, if groupId in members then members[groupId] else {}, w.start, w.end);
    TotalNothing(db, userId, w.start, w.end);
  }

  ghost predicate HasUsage(db: seq<Sample>, userId: int, a: int, from: int, to: int) {
    exists i | 0 <= i < |db| :: db[i].userId == userId && db[i].activityId == a && Overlaps(db[i], from, to)
  }

  /** The table's entry for an activity, absent exactly when the activity has no usage. */
  ghost predicate Tallied(table: map<int, real>, db: seq<Sample>, userId: int, a: int, from: int, to: int) {
    && (a in table <==> HasUsage(db, userId, a, from, to))
    && (if a in table then table[a] else 0.0) == Total(db, userId, {a}, from, to)
  }

  function Tally(table: map<int, real>, row: Sample, userId: int, from: int, to: int): map<int, real> {
    if row.userId == userId && Overlaps(row, from, to) then
      var soFar := if row.activityId in table then table[row.activityId] else 0.0;
      table[row.activityId := soFar + OverlapSeconds(row, from, to)]
    else table
  }

  lemma TallyStep(table: map<int, real>, db: seq<Sample>, row: Sample, userId: int, a: int, from: int, to: int)
    requires Tallied(table, db, userId, a, from, to)
    ensures Tallied(Tally(table, row, userId, from, to), db + [row], userId, a, from, to)
  {
    TotalAppend(db, row, userId, {a}, from, to);
    var more := db + [row];
    assert more[|db|] == row && more[..|db|] == db;
    if HasUsage(db, userId, a, from, to) {
      var i :| 0 <= i < |db| && db[i].userId == userId && db[i].activityId == a && Overlaps(db[i], from, to);
      assert more[i] == db[i];
    }
  }

  /**
   * Per-activity consumption in one window, accumulated in a map. An activity is
   * present exactly when one of its rows overlaps the window, and a group's usage is
   * what its members' entries add up to.
   */
  method UsageByActivityInWindow(db: seq<Sample>, userId: int, w: Bounds) returns (byActivity: map<int, real>)
    ensures forall a :: Tallied(byActivity, db, userId, a, w.start, w.end)
  {
    var from, to := w.start, w.end;
    byActivity := map[];
    assert forall a :: Tallied(byActivity, [], userId, a, from, to);
    hide Tallied, OverlapSeconds;
    for k := 0 to |db|
      invariant forall a :: Tallied(byActivity, db[..k], userId, a, from, to)
    {
      var row := db[k];
      ghost var before := byActivity;
      if row.userId == userId && Overlaps(row, from, to) {
        var soFar := if row.activityId in byActivity then byActivity[row.activityId] else 0.0;
        byActivity := byActivity[row.activityId := soFar + OverlapSeconds(row, from, to)];
      }
      ghost var next := db[..k + 1];
      assert next == db[..k] + [row];
      forall a ensures Tallied(byActivity, next, userId, a, from, to) {
        TallyStep(before, db[..k], row, userId, a, from, to);
      }
    }
    assert db[..|db|] == db;
  }

  /** A row of an activity that floors to no length at all, strictly inside the window. */
  ghost predicate EmptyRowInside(db: seq<Sample>, userId: int, a: int, from: int, to: int) {
    exists row :: row in db && row.userId == userId && row.activityId == a && from < row.startedAt == row.endedAt < to
  }

  lemma {:induction false} SomeUse(db: seq<Sample>, userId: int, a: int, from: int, to: int)
    ensures UsedMillis(db, userId, {a}, from, to) >= 0
    ensures UsedMillis(db, userId, {a}, from, to) > 0
            <==> exists row :: row in db && row.userId == userId && row.activityId == a && RowMillis(row, from, to) > 0
  {
    if db != [] {
      SomeUse(db[1..], userId, a, from, to);
      RowMillisOverlap(db[0], from, to);
      assert db == [db[0]] + db[1..];
      hide RowMillis;
    }
  }

  /**
   * Over stored rows an activity is listed, with its milliseconds in use, exactly when there
   * are any, except that a row of no length inside the window lists its activity at zero.
   */
  lemma ListedExactly(table: map<int, real>, db: seq<Sample>, userId: int, a: int, from: int, to: int)
    requires Tallied(table, db, userId, a, from, to)
    requires from < to && forall row | row in db :: row.startedAt <= row.endedAt
    ensures a in table <==> UsedMillis(db, userId, {a}, from, to) > 0 || EmptyRowInside(db, userId, a, from, to)
    ensures a in table ==> table[a] == UsedMillis(db, userId, {a}, from, to) as real / 1000.0
  {
    TotalCountsMillis(db, userId, {a}, from, to);
    SomeUse(db, userId, a, from, to);
    forall row: Sample ensures RowMillis(row, from, to) == Max(0, Min(row.endedAt, to) - Max(row.startedAt, from)) {
      RowMillisOverlap(row, from, to);
    }
    hide RowMillis, UsedMillis, Total;
    if i :| 0 <= i < |db| && db[i].userId == userId && db[i].activityId == a && Overlaps(db[i], from, to) {
      assert db[i] in db;
    }
    if row :| row in db && row.userId == userId && row.activityId == a && Overlaps(row, from, to) {
      var i :| 0 <= i < |db| && db[i] == row;
      assert HasUsage(db, userId, a, from, to);
    }
  }

  lemma {:induction false} TotalAppend(
    db: seq<Sample>, row: Sample, userId: int, activityIds: set<int>, from: int, to: int)
    ensures Total(db + [row], userId, activityIds, from, to)
            == Total(db, userId, activityIds, from, to)
               + if UsedBy(userId, activityIds)(row) then OverlapSeconds(row, from, to) else 0.0
  {
    if db != [] {
      assert (db + [row])[1..] == db[1..] + [row];
      TotalAppend(db[1..], row, userId, activityIds, from, to);
    } else {
      assert [row][1..] == [];
    }
  }

  // ----- conservation over consecutive windows -----

  /** Splitting a window at any instant inside it splits every total. */
  lemma {:induction false} TotalSplits(
    db: seq<Sample>, userId: int, activityIds: set<int>, from: int, mid: int, to: int)
    requires from <= mid <= to
    ensures Total(db, userId, activityIds, from, to)
            == Total(db, userId, activityIds, from, mid) + Total(db, userId, activityIds, mid, to)
  {
    if db != [] {
      TotalSplits(db[1..], userId, activityIds, from, mid, to);
    }
  }

  /** The instants at which `count` consecutive windows are asked for, starting from `now`. */
  ghost predicate AllSettled(kind: WindowKind, now: int, zone: Zone, change: Option<TimezoneChange>, count: nat)
    decreases count
  {
    var end := EffectiveWindow(kind, now, zone, change).end;
    && Settled(kind, now, zone, change)
    && (count > 0 ==> BothInStep(kind, now, end, zone, change) && AllSettled(kind, end, zone, change, count - 1))
  }

  function LastEnd(kind: WindowKind, now: int, zone: Zone, change: Option<TimezoneChange>, count: nat): int
    decreases count
  {
    var end := EffectiveWindow(kind, now, zone, change).end;
    if count == 0 then end else LastEnd(kind, end, zone, change, count - 1)
  }

  function SumOverWindows(
    db: seq<Sample>, userId: int, activityIds: set<int>,
    kind: WindowKind, now: int, zone: Zone, change: Option<TimezoneChange>, count: nat): real
    decreases count
  {
    var w := EffectiveWindow(kind, now, zone, change);
    Total(db, userId, activityIds, w.start, w.end)
    + if count == 0 then 0.0 else SumOverWindows(db, userId, activityIds, kind, w.end, zone, change, count - 1)
  }

  /**
   * Usage summed over consecutive effective windows, pinned window and stub included,
   * is the usage in the one interval they cover: nothing is lost or counted twice.
   */
  lemma {:induction false} UsageConserved(
    db: seq<Sample>, userId: int, activityIds: set<int>,
    kind: WindowKind, now: int, zone: Zone, change: Option<TimezoneChange>, count: nat)
    requires AllSettled(kind, now, zone, change, count)
    ensures var first := EffectiveWindow(kind, now, zone, change);
            var end := LastEnd(kind, now, zone, change, count);
            && first.end <= end
            && SumOverWindows(db, userId, activityIds, kind, now, zone, change, count)
               == Total(db, userId, activityIds, first.start, end)
    decreases count
  {
    hide EffectiveWindow, Settled, BothInStep;
    EffectiveWindowContains(kind, now, zone, change);
    if count > 0 {
      var w := EffectiveWindow(kind, now, zone, change);
      UsageConserved(db, userId, activityIds, kind, w.end, zone, change, count - 1);
      assert Settled(kind, w.end, zone, change);
      EffectiveWindowContains(kind, w.end, zone, change);
      EffectiveWindowsAbut(kind, now, zone, change);
      TotalSplits(db, userId, activityIds, w.start, w.end, LastEnd(kind, now, zone, change, count));
    }
  }
}
