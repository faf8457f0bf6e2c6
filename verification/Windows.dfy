// Lists of half-open minute windows: what they mean minute by minute, the one
// canonical list for each meaning, and the merge that produces it.

module Windows {
  import opened Common

  const MINUTES_PER_DAY := 1440

  /** A half-open interval `[start, end)` in local minutes from midnight. */
  datatype AllowedWindow = AllowedWindow(start: int, end: int)

  predicate Contains(w: AllowedWindow, minute: int) {
    w.start <= minute < w.end
  }

  predicate Allows(windows: seq<AllowedWindow>, minute: int) {
    exists i | 0 <= i < |windows| :: Contains(windows[i], minute)
  }

  /** Ascending, nonempty windows with a gap between neighbours (so they cannot be merged further). */
  ghost predicate Canonical(windows: seq<AllowedWindow>) {
    && (forall i | 0 <= i < |windows| :: windows[i].start < windows[i].end)
    && (forall i, j | 0 <= i < j < |windows| :: windows[i].end < windows[j].start)
  }

  ghost predicate SameMinutes(a: seq<AllowedWindow>, b: seq<AllowedWindow>) {
    forall m :: Allows(a, m) <==> Allows(b, m)
  }

  lemma AllowsConcat(a: seq<AllowedWindow>, b: seq<AllowedWindow>, minute: int)
    ensures Allows(a + b, minute) <==> Allows(a, minute) || Allows(b, minute)
  {
    var c := a + b;
    if Allows(a, minute) {
      var i :| 0 <= i < |a| && Contains(a[i], minute);
      assert Contains(c[i], minute);
    }
    if Allows(b, minute) {
      var i :| 0 <= i < |b| && Contains(b[i], minute);
      assert Contains(c[|a| + i], minute);
    }
  }

  lemma AllowsAt(windows: seq<AllowedWindow>, i: nat, minute: int)
    requires i < |windows| && Contains(windows[i], minute)
    ensures Allows(windows, minute)
  {
  }

  lemma AllowsSingle(window: AllowedWindow, minute: int)
    ensures Allows([window], minute) <==> Contains(window, minute)
  {
    assert Contains([window][0], minute) == Contains(window, minute);
  }

  lemma FirstMinute(windows: seq<AllowedWindow>, minute: int)
    requires Canonical(windows) && Allows(windows, minute)
    ensures windows[0].start <= minute && Allows(windows, windows[0].start)
  {
    assert Contains(windows[0], windows[0].start);
    var i :| 0 <= i < |windows| && Contains(windows[i], minute);
    assert i > 0 ==> windows[0].end < windows[i].start;
  }

  lemma EndIsOutside(windows: seq<AllowedWindow>, i: nat)
    requires Canonical(windows) && i < |windows|
    ensures !Allows(windows, windows[i].end)
  {
    forall j | 0 <= j < |windows| ensures !Contains(windows[j], windows[i].end) {
      if j < i {
        assert windows[j].end < windows[i].start;
      } else if i < j {
        assert windows[i].end < windows[j].start;
      }
    }
  }

  lemma HeadEndsNoLater(a: seq<AllowedWindow>, b: seq<AllowedWindow>)
    requires Canonical(a) && Canonical(b) && SameMinutes(a, b)
    requires a != [] && b != [] && a[0].start == b[0].start
    ensures a[0].end <= b[0].end
  {
    if b[0].end < a[0].end {
      AllowsAt(a, 0, b[0].end);
      EndIsOutside(b, 0);
    }
  }

  lemma TailMinutes(a: seq<AllowedWindow>, minute: int)
    requires Canonical(a) && a != []
    ensures Allows(a[1..], minute) <==> Allows(a, minute) && !Contains(a[0], minute)
  {
    assert a == [a[0]] + a[1..];
    AllowsConcat([a[0]], a[1..], minute);
    if Allows(a[1..], minute) {
      var i :| 0 <= i < |a[1..]| && Contains(a[1..][i], minute);
      assert a[0].end < a[i + 1].start;
    }
    assert Allows([a[0]], minute) ==> Contains(a[0], minute);
    assert Contains(a[0], minute) ==> Contains([a[0]][0], minute);
  }

  /** Equal meanings give equal lists: a set of minutes has at most one canonical list. */
  lemma {:induction false} CanonicalUnique(a: seq<AllowedWindow>, b: seq<AllowedWindow>)
    requires Canonical(a) && Canonical(b) && SameMinutes(a, b)
    ensures a == b
  {
    if a == [] || b == [] {
      if a != [] {
        AllowsAt(a, 0, a[0].start);
      } else if b != [] {
        AllowsAt(b, 0, b[0].start);
      }
    } else {
      SameHead(a, b);
      hide Allows;
      forall m ensures Allows(a[1..], m) <==> Allows(b[1..], m) {
        TailMinutes(a, m);
        TailMinutes(b, m);
      }
      CanonicalUnique(a[1..], b[1..]);
      assert a == [a[0]] + a[1..] && b == [b[0]] + b[1..];
    }
  }

  lemma SameHead(a: seq<AllowedWindow>, b: seq<AllowedWindow>)
    requires Canonical(a) && Canonical(b) && SameMinutes(a, b) && a != [] && b != []
    ensures a[0] == b[0]
  {
    AllowsAt(a, 0, a[0].start);
    AllowsAt(b, 0, b[0].start);
    FirstMinute(a, b[0].start);
    FirstMinute(b, a[0].start);
    HeadEndsNoLater(a, b);
    HeadEndsNoLater(b, a);
    hide Allows;
  }

  lemma ExtendLast(before: seq<AllowedWindow>, window: AllowedWindow, minute: int)
    requires before != [] && Nonempty(window)
    requires Nonempty(before[|before| - 1])
    requires before[|before| - 1].start <= window.start <= before[|before| - 1].end
    ensures var last := before[|before| - 1];
            var after := before[|before| - 1 := AllowedWindow(last.start, Max(last.end, window.end))];
            Allows(after, minute) <==> Allows(before, minute) || Contains(window, minute)
  {
    var n := |before| - 1;
    var after := before[n := AllowedWindow(before[n].start, Max(before[n].end, window.end))];
    if Allows(before, minute) {
      var i :| 0 <= i < |before| && Contains(before[i], minute);
      assert Contains(after[i], minute);
    }
    if Contains(window, minute) {
      assert Contains(after[n], minute);
    }
    if Allows(after, minute) {
      var i :| 0 <= i < |after| && Contains(after[i], minute);
      assert i < n ==> Contains(before[i], minute);
      assert i == n && !Contains(window, minute) ==> Contains(before[n], minute);
    }
  }

  // ----- the minute-by-minute reference -----

  /** Extend the last window to cover `minute` when it ends there, else start a new one. */
  function AddMinute(windows: seq<AllowedWindow>, minute: int): seq<AllowedWindow> {
    var n := |windows| - 1;
    if windows != [] && windows[n].end == minute then
      windows[n := AllowedWindow(windows[n].start, minute + 1)]
    else windows + [AllowedWindow(minute, minute + 1)]
  }

  lemma AddMinuteMeaning(windows: seq<AllowedWindow>, added: int, minute: int)
    requires Canonical(windows)
    ensures Allows(AddMinute(windows, added), minute) <==> Allows(windows, minute) || minute == added
  {
    var one := AllowedWindow(added, added + 1);
    if windows != [] && windows[|windows| - 1].end == added {
      ExtendLast(windows, one, minute);
    } else {
      AllowsSingle(one, minute);
      AllowsConcat(windows, [one], minute);
    }
  }

  ghost predicate Within(windows: seq<AllowedWindow>, lo: int, hi: int) {
    forall i | 0 <= i < |windows| :: lo <= windows[i].start && windows[i].end <= hi
  }

  lemma AddMinuteKeeps(windows: seq<AllowedWindow>, lo: int, minute: int)
    requires Canonical(windows) && lo <= minute && Within(windows, lo, minute)
    ensures Canonical(AddMinute(windows, minute))
    ensures Within(windows, lo, minute + 1) && Within(AddMinute(windows, minute), lo, minute + 1)
  {
  }

  /** The maximal runs of minutes satisfying `p` in `[lo, hi)`, found by looking at every minute. */
  function Runs(p: int -> bool, lo: int, hi: int): (r: seq<AllowedWindow>)
    ensures Canonical(r) && (lo <= hi ==> Within(r, lo, hi))
    decreases hi - lo
  {
    if hi <= lo then []
    else
      var earlier := Runs(p, lo, hi - 1);
      AddMinuteKeeps(earlier, lo, hi - 1);
      if p(hi - 1) then AddMinute(earlier, hi - 1) else earlier
  }

  lemma {:induction false} RunsMeaning(p: int -> bool, lo: int, hi: int, minute: int)
    ensures Allows(Runs(p, lo, hi), minute) <==> lo <= minute < hi && p(minute)
    decreases hi - lo
  {
    if lo < hi {
      RunsMeaning(p, lo, hi - 1, minute);
      AddMinuteMeaning(Runs(p, lo, hi - 1), hi - 1, minute);
    }
  }

  /** A canonical list that means `p` inside `[lo, hi)` and nothing outside is the list of runs. */
  lemma CanonicalIsRuns(windows: seq<AllowedWindow>, p: int -> bool, lo: int, hi: int)
    requires Canonical(windows)
    requires forall m :: Allows(windows, m) <==> lo <= m < hi && p(m)
    ensures windows == Runs(p, lo, hi)
  {
    forall m ensures Allows(windows, m) <==> Allows(Runs(p, lo, hi), m) {
      RunsMeaning(p, lo, hi, m);
    }
    CanonicalUnique(windows, Runs(p, lo, hi));
  }

  // ----- merging -----

  function ByStart(w: AllowedWindow): Rank {
    (w.start, 0)
  }

  function Nonempty(w: AllowedWindow): bool {
    w.start < w.end
  }

  function InMergeOrder(windows: seq<AllowedWindow>): seq<AllowedWindow> {
    SortBy(ByStart, Filter(Nonempty, windows))
  }

  lemma MergeOrderFacts(windows: seq<AllowedWindow>)
    ensures SortedBy(ByStart, InMergeOrder(windows))
    ensures forall k | 0 <= k < |InMergeOrder(windows)| :: Nonempty(InMergeOrder(windows)[k])
  {
    var kept := Filter(Nonempty, windows);
    SortBySorted(ByStart, kept);
    SortByContents(ByStart, kept);
    forall k | 0 <= k < |InMergeOrder(windows)| ensures Nonempty(InMergeOrder(windows)[k]) {
      var w := InMergeOrder(windows)[k];
      assert w in kept;
      FilterMember(Nonempty, windows, w);
    }
  }

  lemma MergeOrderKeepsMinutes(windows: seq<AllowedWindow>, minute: int)
    ensures Allows(InMergeOrder(windows), minute) <==> Allows(windows, minute)
  {
    var kept := Filter(Nonempty, windows);
    var sorted := InMergeOrder(windows);
    SortByContents(ByStart, kept);
    if Allows(windows, minute) {
      var i :| 0 <= i < |windows| && Contains(windows[i], minute);
      FilterMember(Nonempty, windows, windows[i]);
      assert windows[i] in sorted;
    }
    if Allows(sorted, minute) {
      var i :| 0 <= i < |sorted| && Contains(sorted[i], minute);
      FilterMember(Nonempty, windows, sorted[i]);
      assert sorted[i] in windows;
    }
  }

  ghost function Merged(merged: seq<AllowedWindow>, window: AllowedWindow): seq<AllowedWindow> {
    var n := |merged| - 1;
    if merged != [] && window.start <= merged[n].end then
      merged[n := AllowedWindow(merged[n].start, Max(merged[n].end, window.end))]
    else merged + [AllowedWindow(window.start, window.end)]
  }

  lemma MergeStep(merged: seq<AllowedWindow>, window: AllowedWindow, done: seq<AllowedWindow>)
    requires Canonical(merged) && Nonempty(window) && SameMinutes(merged, done)
    requires StartsFirst(merged, [window], 0)
    ensures Canonical(Merged(merged, window))
    ensures SameMinutes(Merged(merged, window), done + [window])
  {
    assert [window][0] == window;
    forall m ensures Allows(Merged(merged, window), m) <==> Allows(done + [window], m) {
      AllowsConcat(done, [window], m);
      AllowsSingle(window, m);
      if merged != [] && window.start <= merged[|merged| - 1].end {
        ExtendLast(merged, window, m);
      } else {
        AllowsConcat(merged, [window], m);
      }
    }
  }

  /** The windows still to merge start no earlier than the last run. */
  ghost predicate StartsFirst(merged: seq<AllowedWindow>, sorted: seq<AllowedWindow>, k: int) {
    merged != [] ==> forall j | 0 <= k <= j < |sorted| :: merged[|merged| - 1].start <= sorted[j].start
  }

  lemma MergeKeepsStarts(merged: seq<AllowedWindow>, sorted: seq<AllowedWindow>, k: nat)
    requires SortedBy(ByStart, sorted) && k < |sorted| && StartsFirst(merged, sorted, k)
    ensures StartsFirst(Merged(merged, sorted[k]), sorted, k + 1)
  {
    assert forall j | k < j < |sorted| :: RankLeq(ByStart(sorted[k]), ByStart(sorted[j]));
  }

  lemma StartsFirstNow(merged: seq<AllowedWindow>, sorted: seq<AllowedWindow>, k: nat)
    requires k < |sorted| && StartsFirst(merged, sorted, k)
    ensures StartsFirst(merged, [sorted[k]], 0)
  {
  }

  lemma NothingMerged(sorted: seq<AllowedWindow>)
    ensures Canonical([]) && SameMinutes([], sorted[..0]) && StartsFirst([], sorted, 0)
  {
  }

  lemma MergeOrderSameMinutes(merged: seq<AllowedWindow>, windows: seq<AllowedWindow>)
    requires SameMinutes(merged, InMergeOrder(windows))
    ensures SameMinutes(merged, windows)
  {
    forall m ensures Allows(merged, m) <==> Allows(windows, m) {
      MergeOrderKeepsMinutes(windows, m);
    }
  }

  /**
   * Sort by start and merge every overlapping or abutting pair. Empty and inverted
   * windows are dropped. The result is the canonical list with the same minutes.
   */
  method MergeWindows(windows: seq<AllowedWindow>) returns (merged: seq<AllowedWindow>)
    ensures Canonical(merged)
    ensures SameMinutes(merged, windows)
  {
    var sorted := InMergeOrder(windows);
    MergeOrderFacts(windows);
    merged := [];
    hide Canonical, SameMinutes, StartsFirst, Filter, SortBy, InMergeOrder, SortedBy;
    assert Canonical(merged) && SameMinutes(merged, sorted[..0]) && StartsFirst(merged, sorted, 0) by {
      NothingMerged(sorted);
    }
    for k := 0 to |sorted|
      invariant Canonical(merged)
      invariant StartsFirst(merged, sorted, k)
      invariant SameMinutes(merged, sorted[..k])
    {
      var window := sorted[k];
      assert StartsFirst(merged, [window], 0) by {
        StartsFirstNow(merged, sorted, k);
      }
      MergeStep(merged, window, sorted[..k]);
      MergeKeepsStarts(merged, sorted, k);
      assert sorted[..k + 1] == sorted[..k] + [window];
      if merged != [] && window.start <= merged[|merged| - 1].end {
        // Overlaps or abuts the current run: extend it, never shrink.
        var last := merged[|merged| - 1];
        merged := merged[|merged| - 1 := AllowedWindow(last.start, Max(last.end, window.end))];
      } else {
        merged := merged + [AllowedWindow(window.start, window.end)];
      }
    }
    assert sorted[..|sorted|] == sorted;
    MergeOrderSameMinutes(merged, windows);
  }
}
