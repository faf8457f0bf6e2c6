// The telemetry pull: clipping to the pull window, persisting samples together with
// the durable cursor, and what every run of pulls, failures and restarts keeps.

module Telemetry {
  import opened Common

  /** A normalised usage interval `[startedAt, endedAt)` of one client, in milliseconds. */
  datatype Candidate = Candidate(activityId: int, startedAt: int, endedAt: int)

  /** A stored sample; its times are epoch seconds. */
  datatype Row = Row(userId: int, clientId: int, activityId: int, startedAt: int, endedAt: int)

  /** An open pull of one client: the window asked for and the user it is attributed to. */
  datatype Window = Window(userId: int, start: int, end: int)

  // ----- clipping -----

  function ClipOne(sample: Candidate, lo: int, hi: int): Candidate {
    sample.(startedAt := Max(sample.startedAt, lo), endedAt := Min(sample.endedAt, hi))
  }

  function NonEmpty(sample: Candidate): bool {
    sample.endedAt > sample.startedAt
  }

  function Clip(samples: seq<Candidate>, lo: int, hi: int): seq<Candidate> {
    Filter(NonEmpty, Map((sample: Candidate) => ClipOne(sample, lo, hi), samples))
  }

  /** Clip each sample to `[lo, hi)`, dropping those that collapse. */
  method ClipToWindow(samples: seq<Candidate>, lo: int, hi: int) returns (clipped: seq<Candidate>)
    ensures clipped == Clip(samples, lo, hi)
  {
    clipped := [];
    ghost var all := Map((sample: Candidate) => ClipOne(sample, lo, hi), samples);
    for i := 0 to |samples|
      invariant clipped == Filter(NonEmpty, all[..i])
    {
      var startedAt := Max(samples[i].startedAt, lo);
      var endedAt := Min(samples[i].endedAt, hi);
      assert all[..i + 1] == all[..i] + [all[i]];
      FilterConcat(NonEmpty, all[..i], [all[i]]);
      assert [all[i]][1..] == [];
      if endedAt > startedAt {
        clipped := clipped + [samples[i].(startedAt := startedAt, endedAt := endedAt)];
      }
    }
    assert all[..|all|] == all;
  }

  function ToRow(clientId: int, userId: int): Candidate -> Row {
    (c: Candidate) => Row(userId, clientId, c.activityId, FloorSeconds(c.startedAt), FloorSeconds(c.endedAt))
  }

  /** The rows one pull appends. */
  function PulledRows(clientId: int, window: Window, candidates: seq<Candidate>): seq<Row> {
    Map(ToRow(clientId, window.userId), Clip(candidates, window.start, window.end))
  }

  // ----- the protocol -----

  /** A committed pull: its client, its window and what the client reported. */
  datatype Pull = Pull(clientId: int, userId: int, start: int, end: int, reported: seq<Candidate>)

  function PullOf(clientId: int, w: Window, reported: seq<Candidate>): Pull {
    Pull(clientId, w.userId, w.start, w.end, reported)
  }

  /** The rows a committed pull persisted. */
  function RowsOfPull(p: Pull): seq<Row> {
    PulledRows(p.clientId, Window(p.userId, p.start, p.end), p.reported)
  }

  datatype State = State(
    durable: map<int, int>,      // clients.last_telemetry_pull_at, in seconds
    cursor: map<int, int>,       // the in-memory cursor, in milliseconds
    inFlight: map<int, Window>,  // pulls waiting for their client's answer
    pulls: seq<Pull>)            // committed pulls, oldest first

  datatype Event =
    | Begin(clientId: int, userIds: seq<int>, passEnd: int)
    | Commit(clientId: int, candidates: seq<Candidate>)
    | Fail(clientId: int)
    | Restart

  const EMPTY := State(map[], map[], map[], [])

  /** The pull window, or nothing to do: not exactly one supervised user, or no new time since the cursor. */
  function OpenWindow(s: State, clientId: int, userIds: seq<int>, passEnd: int, lookback: int): Option<Window> {
    var start := if clientId in s.cursor then s.cursor[clientId] else passEnd - lookback;
    if |userIds| != 1 || start >= passEnd then None else Some(Window(userIds[0], start, passEnd))
  }

  /** Passes never overlap and a pass opens one pull per client, so a client has at most one pull in flight. */
  predicate Enabled(s: State, e: Event) {
    match e
    case Begin(c, _, _) => c !in s.inFlight
    case Commit(c, _) => c in s.inFlight
    case Fail(c) => c in s.inFlight
    case Restart => true
  }

  function Apply(s: State, e: Event, lookback: int): State
    requires Enabled(s, e)
  {
    match e
    case Begin(c, userIds, passEnd) =>
      var window := OpenWindow(s, c, userIds, passEnd, lookback);
      if window.None? then s else s.(inFlight := s.inFlight[c := window.value])
    case Commit(c, candidates) =>
      // Samples and durable cursor commit in one transaction; the in-memory cursor follows.
      var w := s.inFlight[c];
      State(s.durable[c := FloorSeconds(w.end)], s.cursor[c := w.end], s.inFlight - {c},
            s.pulls + [PullOf(c, w, candidates)])
    case Fail(c) => s.(inFlight := s.inFlight - {c})
    case Restart => s.(cursor := map c | c in s.durable :: s.durable[c] * 1000, inFlight := map[])
  }

  /**
   * A pull opens exactly for a client with one supervised user and time to pull. It is
   * that user's, ends at the pass, and starts at the client's cursor, or at the lookback
   * before its first one.
   */
  lemma BeginOpens(s: State, clientId: int, userIds: seq<int>, passEnd: int, lookback: int)
    requires clientId !in s.inFlight
    ensures var s' := Apply(s, Begin(clientId, userIds, passEnd), lookback);
            && s' == s.(inFlight := s'.inFlight) && s'.inFlight - {clientId} == s.inFlight
            && (clientId in s'.inFlight <==>
                  |userIds| == 1 && if clientId in s.cursor then s.cursor[clientId] < passEnd else lookback > 0)
            && (clientId in s'.inFlight ==>
                  var w := s'.inFlight[clientId];
                  && w.userId == userIds[0] && w.end == passEnd
                  && w.start == if clientId in s.cursor then s.cursor[clientId] else passEnd - lookback)
  {
  }

  /**
   * A commit moves its client's cursor to the pull's own end, to the millisecond in memory
   * and to the second in the store, and records the pull; nothing else changes.
   */
  lemma CommitMoves(s: State, clientId: int, candidates: seq<Candidate>, lookback: int)
    requires clientId in s.inFlight
    ensures var w, s' := s.inFlight[clientId], Apply(s, Commit(clientId, candidates), lookback);
            && s'.cursor == s.cursor[clientId := w.end] && s'.durable == s.durable[clientId := w.end / 1000]
            && s'.inFlight == s.inFlight - {clientId}
            && s'.pulls == s.pulls + [Pull(clientId, w.userId, w.start, w.end, candidates)]
  {
  }

  /** A restart forgets open pulls and the part of a second that the store did not keep. */
  lemma RestartReseeds(s: State, lookback: int)
    ensures var s' := Apply(s, Restart, lookback);
            && s'.durable == s.durable && s'.pulls == s.pulls && s'.inFlight == map[]
            && s'.cursor.Keys == s.durable.Keys && forall c | c in s.durable :: s'.cursor[c] == s.durable[c] * 1000
  {
  }

  /** All events are enabled when their turn comes. */
  predicate Runs(s: State, events: seq<Event>, lookback: int)
    decreases |events|
  {
    events == [] || (Enabled(s, events[0]) && Runs(Apply(s, events[0], lookback), events[1..], lookback))
  }

  function Run(s: State, events: seq<Event>, lookback: int): State
    requires Runs(s, events, lookback)
    decreases |events|
  {
    if events == [] then s else Run(Apply(s, events[0], lookback), events[1..], lookback)
  }

  // ----- what every step keeps -----

  function ByClient(clientId: int): Pull -> bool {
    (p: Pull) => p.clientId == clientId
  }

  function PullsOf(clientId: int, pulls: seq<Pull>): seq<Pull> {
    Filter(ByClient(clientId), pulls)
  }

  /** The next pull of a client starts in the second the previous one ended in, and not after it. */
  predicate Follows(previous: Pull, next: Pull) {
    FloorSeconds(next.start) == FloorSeconds(previous.end) && next.start <= previous.end
  }

  ghost predicate Tiled(pulls: seq<Pull>) {
    && (forall i | 0 <= i < |pulls| :: pulls[i].start < pulls[i].end)
    && (forall i | 0 < i < |pulls| :: Follows(pulls[i - 1], pulls[i]))
  }

  /** A client's cursors agree with each other and with its last pull. */
  ghost predicate CursorsAgree(s: State, c: int) {
    var own := PullsOf(c, s.pulls);
    && Tiled(own)
    && (c in s.durable <==> c in s.cursor)
    && (c in s.durable <==> own != [])
    && (c in s.durable ==>
          && FloorSeconds(s.cursor[c]) == s.durable[c] == FloorSeconds(own[|own| - 1].end)
          && s.cursor[c] <= own[|own| - 1].end)
  }

  ghost predicate WindowFresh(s: State, c: int) {
    c in s.inFlight ==>
      && s.inFlight[c].start < s.inFlight[c].end
      && (c in s.cursor ==> s.inFlight[c].start == s.cursor[c])
  }

  ghost predicate Inv(s: State) {
    && (forall c :: CursorsAgree(s, c))
    && (forall c :: WindowFresh(s, c))
  }

  lemma PullsOfAppend(c: int, pulls: seq<Pull>, p: Pull)
    ensures PullsOf(c, pulls + [p]) == if p.clientId == c then PullsOf(c, pulls) + [p] else PullsOf(c, pulls)
  {
    FilterConcat(ByClient(c), pulls, [p]);
    assert [p][1..] == [];
    assert PullsOf(c, pulls) + [] == PullsOf(c, pulls);
  }

  lemma CommitKeeps(s: State, e: Event, lookback: int)
    requires Inv(s) && e.Commit? && Enabled(s, e)
    ensures Inv(Apply(s, e, lookback))
  {
    var s' := Apply(s, e, lookback);
    forall c ensures CursorsAgree(s', c) {
      CommitAgrees(s, e, lookback, c);
    }
    forall c ensures WindowFresh(s', c) {
      assert WindowFresh(s, c);
    }
  }

  lemma CommitAgrees(s: State, e: Event, lookback: int, c: int)
    requires e.Commit? && Enabled(s, e) && CursorsAgree(s, c) && WindowFresh(s, e.clientId)
    ensures CursorsAgree(Apply(s, e, lookback), c)
  {
    hide PullsOf;
    PullsOfAppend(c, s.pulls, PullOf(e.clientId, s.inFlight[e.clientId], e.candidates));
  }

  lemma StepKeeps(s: State, e: Event, lookback: int)
    requires Inv(s) && Enabled(s, e)
    ensures Inv(Apply(s, e, lookback))
  {
    if e.Commit? {
      CommitKeeps(s, e, lookback);
    } else {
      hide CursorsAgree, WindowFresh, Apply;
      forall c ensures CursorsAgree(Apply(s, e, lookback), c) && WindowFresh(Apply(s, e, lookback), c) {
        UncommittedKeeps(s, e, lookback, c);
      }
    }
  }

  lemma UncommittedKeeps(s: State, e: Event, lookback: int, c: int)
    requires CursorsAgree(s, c) && WindowFresh(s, c) && !e.Commit? && Enabled(s, e)
    ensures CursorsAgree(Apply(s, e, lookback), c) && WindowFresh(Apply(s, e, lookback), c)
  {
    hide PullsOf, Tiled;
  }

  lemma EmptyInv()
    ensures Inv(EMPTY)
  {
  }

  lemma {:induction false} RunKeeps(s: State, events: seq<Event>, lookback: int)
    requires Inv(s) && Runs(s, events, lookback)
    ensures Inv(Run(s, events, lookback))
    decreases |events|
  {
    if events != [] {
      StepKeeps(s, events[0], lookback);
      RunKeeps(Apply(s, events[0], lookback), events[1..], lookback);
    }
  }

  // ----- no sample is persisted twice -----

  lemma {:induction false} LaterPullsStartLater(pulls: seq<Pull>, i: nat, j: nat)
    requires Tiled(pulls) && i < j < |pulls|
    ensures FloorSeconds(pulls[i].end) <= FloorSeconds(pulls[j].start)
  {
    assert Follows(pulls[j - 1], pulls[j]);
    if i < j - 1 {
      LaterPullsStartLater(pulls, i, j - 1);
      assert pulls[j - 1].start < pulls[j - 1].end;
    }
  }

  /** The part of an interval inside a pull's window, attributed to the pull's user, in whole seconds. */
  predicate StoresPart(row: Row, p: Pull, interval: Candidate) {
    && row.userId == p.userId && row.clientId == p.clientId && row.activityId == interval.activityId
    && row.startedAt == (if interval.startedAt < p.start then p.start else interval.startedAt) / 1000
    && row.endedAt == (if p.end < interval.endedAt then p.end else interval.endedAt) / 1000
  }

  predicate HasPart(p: Pull, interval: Candidate) {
    && interval.startedAt < interval.endedAt && p.start < p.end
    && interval.startedAt < p.end && p.start < interval.endedAt
  }

  /** A pull persists the parts of the reported intervals that lie in its window, and nothing else. */
  lemma RowsAreParts(p: Pull)
    requires p.start < p.end
    ensures forall row | row in RowsOfPull(p) ::
              exists interval :: interval in p.reported && HasPart(p, interval) && StoresPart(row, p, interval)
    ensures forall interval | interval in p.reported && HasPart(p, interval) ::
              exists row :: row in RowsOfPull(p) && StoresPart(row, p, interval)
  {
    var clip := (sample: Candidate) => ClipOne(sample, p.start, p.end);
    var clipped := Map(clip, p.reported);
    var kept := Clip(p.reported, p.start, p.end);
    var rows := RowsOfPull(p);
    forall row | row in rows
      ensures exists interval :: interval in p.reported && HasPart(p, interval) && StoresPart(row, p, interval) {
      var r :| 0 <= r < |rows| && rows[r] == row;
      FilterMember(NonEmpty, clipped, kept[r]);
      var k :| 0 <= k < |clipped| && clipped[k] == kept[r];
      assert StoresPart(row, p, p.reported[k]);
    }
    forall interval | interval in p.reported && HasPart(p, interval)
      ensures exists row :: row in rows && StoresPart(row, p, interval) {
      var k :| 0 <= k < |p.reported| && p.reported[k] == interval;
      FilterMember(NonEmpty, clipped, clipped[k]);
      var r :| 0 <= r < |kept| && kept[r] == clipped[k];
      assert StoresPart(rows[r], p, interval);
    }
  }

  lemma RowsInside(p: Pull)
    requires p.start < p.end
    ensures forall r | 0 <= r < |RowsOfPull(p)| ::
              FloorSeconds(p.start) <= RowsOfPull(p)[r].startedAt <= RowsOfPull(p)[r].endedAt <= FloorSeconds(p.end)
  {
    RowsAreParts(p);
    forall r | 0 <= r < |RowsOfPull(p)|
      ensures FloorSeconds(p.start) <= RowsOfPull(p)[r].startedAt <= RowsOfPull(p)[r].endedAt <= FloorSeconds(p.end) {
      assert RowsOfPull(p)[r] in RowsOfPull(p);
    }
  }

  /**
   * After any run from an empty store, rows persisted by different pulls of one client
   * never overlap, although times and cursor are rounded down to seconds.
   */
  lemma NoDoubleCount(events: seq<Event>, lookback: int, c: int, i: nat, j: nat)
    requires Runs(EMPTY, events, lookback)
    requires i < j < |PullsOf(c, Run(EMPTY, events, lookback).pulls)|
    ensures var own := PullsOf(c, Run(EMPTY, events, lookback).pulls);
            var earlier, later := RowsOfPull(own[i]), RowsOfPull(own[j]);
            forall a, b | 0 <= a < |earlier| && 0 <= b < |later| :: earlier[a].endedAt <= later[b].startedAt
  {
    EmptyInv();
    RunKeeps(EMPTY, events, lookback);
    var s := Run(EMPTY, events, lookback);
    var own := PullsOf(c, s.pulls);
    assert CursorsAgree(s, c);
    LaterPullsStartLater(own, i, j);
    RowsInside(own[i]);
    RowsInside(own[j]);
  }

  // ----- crediting an interval over consecutive pulls -----

  function Clamp(x: int, lo: int, hi: int): int {
    Max(lo, Min(x, hi))
  }

  /** Seconds of `[start, x)` credited by a window: floors of the clamped instants. */
  function CreditedUpTo(x: int, start: int, end: int): int {
    FloorSeconds(Clamp(x, start, end)) - FloorSeconds(start)
  }

  /** Seconds persisted for one reported interval by one pull. */
  function Credit(interval: Candidate, p: Pull): int {
    var clipped := ClipOne(interval, p.start, p.end);
    if NonEmpty(clipped) then FloorSeconds(clipped.endedAt) - FloorSeconds(clipped.startedAt) else 0
  }

  function TotalCredit(interval: Candidate, pulls: seq<Pull>): int {
    if pulls == [] then 0
    else TotalCredit(interval, pulls[..|pulls| - 1]) + Credit(interval, pulls[|pulls| - 1])
  }

  /** The latest instant any of the pulls reached. */
  function MaxEnd(pulls: seq<Pull>): int
    requires pulls != []
  {
    var last := pulls[|pulls| - 1].end;
    if |pulls| == 1 then last else Max(MaxEnd(pulls[..|pulls| - 1]), last)
  }

  lemma CreditIsDifference(interval: Candidate, p: Pull)
    requires NonEmpty(interval) && p.start < p.end
    ensures Credit(interval, p)
            == CreditedUpTo(interval.endedAt, p.start, p.end) - CreditedUpTo(interval.startedAt, p.start, p.end)
  {
  }

  /** A further window credits what extending the one before it would, despite the rounding at the seam. */
  lemma CreditJoins(x: int, start: int, reached: int, start': int, end': int)
    requires start < reached && start' < end'
    requires FloorSeconds(start') == FloorSeconds(reached) && start' <= reached
    ensures CreditedUpTo(x, start, reached) + CreditedUpTo(x, start', end')
            == CreditedUpTo(x, start, Max(reached, end'))
  {
    if start' < x <= reached {
      assert FloorSeconds(start') <= FloorSeconds(x) <= FloorSeconds(reached);
    }
  }

  /** A backward clock can end a pull before the latest end, but only within the same second. */
  lemma {:induction false} MaxEndFloor(pulls: seq<Pull>)
    requires Tiled(pulls) && pulls != []
    ensures pulls[0].start < MaxEnd(pulls)
    ensures pulls[|pulls| - 1].end <= MaxEnd(pulls)
    ensures FloorSeconds(MaxEnd(pulls)) == FloorSeconds(pulls[|pulls| - 1].end)
  {
    if |pulls| > 1 {
      var init := pulls[..|pulls| - 1];
      assert Follows(pulls[|pulls| - 2], pulls[|pulls| - 1]);
      MaxEndFloor(init);
    }
  }

  /** Consecutive pulls credit an interval exactly as one pull over all their time would. */
  lemma {:induction false} CreditTelescopes(interval: Candidate, pulls: seq<Pull>)
    requires Tiled(pulls) && pulls != [] && NonEmpty(interval)
    ensures TotalCredit(interval, pulls)
            == CreditedUpTo(interval.endedAt, pulls[0].start, MaxEnd(pulls))
               - CreditedUpTo(interval.startedAt, pulls[0].start, MaxEnd(pulls))
  {
    var last := pulls[|pulls| - 1];
    CreditIsDifference(interval, last);
    var init := pulls[..|pulls| - 1];
    if |pulls| == 1 {
      assert TotalCredit(interval, init) == 0;
    } else {
      assert Follows(pulls[|pulls| - 2], last);
      MaxEndFloor(init);
      CreditTelescopes(interval, init);
      CreditJoins(interval.startedAt, pulls[0].start, MaxEnd(init), last.start, last.end);
      CreditJoins(interval.endedAt, pulls[0].start, MaxEnd(init), last.start, last.end);
    }
  }

  /**
   * Whatever failed, crashed or restarted in between: an interval inside the time any
   * consecutive successful pulls cover is credited its whole length between floored ends,
   * with no second lost or counted twice at the seams.
   */
  lemma IntervalCreditedOnce(events: seq<Event>, lookback: int, c: int, i: nat, j: nat, interval: Candidate)
    requires Runs(EMPTY, events, lookback) && NonEmpty(interval)
    requires i < j <= |PullsOf(c, Run(EMPTY, events, lookback).pulls)|
    requires var pulls := PullsOf(c, Run(EMPTY, events, lookback).pulls)[i..j];
             pulls[0].start <= interval.startedAt && interval.endedAt <= MaxEnd(pulls)
    ensures var pulls := PullsOf(c, Run(EMPTY, events, lookback).pulls)[i..j];
            TotalCredit(interval, pulls) == FloorSeconds(interval.endedAt) - FloorSeconds(interval.startedAt)
  {
    RunIsTiled(events, lookback, c, i, j);
    CreditTelescopes(interval, PullsOf(c, Run(EMPTY, events, lookback).pulls)[i..j]);
  }

  /** Consecutive pulls of a client tile time after any run. */
  lemma RunIsTiled(events: seq<Event>, lookback: int, c: int, i: nat, j: nat)
    requires Runs(EMPTY, events, lookback)
    requires i < j <= |PullsOf(c, Run(EMPTY, events, lookback).pulls)|
    ensures Tiled(PullsOf(c, Run(EMPTY, events, lookback).pulls)[i..j])
  {
    EmptyInv();
    RunKeeps(EMPTY, events, lookback);
    var s := Run(EMPTY, events, lookback);
    assert CursorsAgree(s, c);
    var own := PullsOf(c, s.pulls);
    forall k | 0 < k < j - i ensures Follows(own[i..j][k - 1], own[i..j][k]) {
      assert Follows(own[i + k - 1], own[i + k]);
    }
  }

  /** The seconds stored for one activity. */
  function RowSeconds(rows: seq<Row>, activityId: int): int {
    if rows == [] then 0
    else
      (if rows[0].activityId == activityId then rows[0].endedAt - rows[0].startedAt else 0)
      + RowSeconds(rows[1..], activityId)
  }

  /** The credit one pull gives the intervals of one activity. */
  function CreditOfAll(candidates: seq<Candidate>, p: Pull, activityId: int): int {
    if candidates == [] then 0
    else
      (if candidates[0].activityId == activityId then Credit(candidates[0], p) else 0)
      + CreditOfAll(candidates[1..], p, activityId)
  }

  /** The rows a pull stores for an activity hold exactly the credit of that activity's reported intervals. */
  lemma {:induction false} RowsHoldCredit(p: Pull, activityId: int)
    ensures RowSeconds(RowsOfPull(p), activityId) == CreditOfAll(p.reported, p, activityId)
    decreases |p.reported|
  {
    if p.reported != [] {
      var rest := p.(reported := p.reported[1..]);
      RowsHoldCredit(rest, activityId);
      SameWindowSameCredit(p.reported[1..], p, rest, activityId);
      var clip := (sample: Candidate) => ClipOne(sample, p.start, p.end);
      assert Map(clip, p.reported)[1..] == Map(clip, p.reported[1..]);
      var head := clip(p.reported[0]);
      assert Map(clip, p.reported)[0] == head;
      if NonEmpty(head) {
        assert Clip(p.reported, p.start, p.end) == [head] + Clip(rest.reported, p.start, p.end);
        assert RowsOfPull(p)[0] == ToRow(p.clientId, p.userId)(head);
        assert RowsOfPull(p)[1..] == RowsOfPull(rest);
      } else {
        assert Clip(p.reported, p.start, p.end) == Clip(rest.reported, p.start, p.end);
      }
    }
  }

  lemma {:induction false} SameWindowSameCredit(
    candidates: seq<Candidate>, p: Pull, q: Pull, activityId: int)
    requires p.start == q.start && p.end == q.end
    ensures CreditOfAll(candidates, p, activityId) == CreditOfAll(candidates, q, activityId)
  {
    if candidates != [] {
      SameWindowSameCredit(candidates[1..], p, q, activityId);
    }
  }

  /** What a client's activity log answers for a window: the intervals that meet it, unclipped. */
  function Meets(start: int, end: int): Candidate -> bool {
    (interval: Candidate) => interval.startedAt < end && interval.endedAt > start
  }

  lemma {:induction false} OthersCreditNothing(intervals: seq<Candidate>, p: Pull, activityId: int)
    ensures CreditOfAll(Filter(Meets(p.start, p.end), intervals), p, activityId)
            == CreditOfAll(intervals, p, activityId)
  {
    if intervals != [] {
      OthersCreditNothing(intervals[1..], p, activityId);
      var rest := Filter(Meets(p.start, p.end), intervals[1..]);
      if Meets(p.start, p.end)(intervals[0]) {
        assert ([intervals[0]] + rest)[1..] == rest;
      } else {
        assert [] + rest == rest;
        assert Credit(intervals[0], p) == 0;
      }
    }
  }

  /** All seconds some pulls stored for an activity. */
  function StoredSeconds(pulls: seq<Pull>, activityId: int): int {
    if pulls == [] then 0
    else StoredSeconds(pulls[..|pulls| - 1], activityId) + RowSeconds(RowsOfPull(pulls[|pulls| - 1]), activityId)
  }

  function TotalCreditOfAll(intervals: seq<Candidate>, pulls: seq<Pull>, activityId: int): int {
    if intervals == [] then 0
    else
      (if intervals[0].activityId == activityId then TotalCredit(intervals[0], pulls) else 0)
      + TotalCreditOfAll(intervals[1..], pulls, activityId)
  }

  /** The lengths of an activity's intervals, in seconds between floored ends. */
  function TotalLength(intervals: seq<Candidate>, activityId: int): int {
    if intervals == [] then 0
    else
      (if intervals[0].activityId == activityId then intervals[0].endedAt / 1000 - intervals[0].startedAt / 1000 else 0)
      + TotalLength(intervals[1..], activityId)
  }

  /** Each pull's client reported exactly the intervals that meet the pull's window. */
  ghost predicate ReportsMeeting(pulls: seq<Pull>, intervals: seq<Candidate>) {
    forall k | 0 <= k < |pulls| :: pulls[k].reported == Filter(Meets(pulls[k].start, pulls[k].end), intervals)
  }

  lemma {:induction false} TotalCreditAppend(intervals: seq<Candidate>, pulls: seq<Pull>, activityId: int)
    requires pulls != []
    ensures var n := |pulls| - 1;
            TotalCreditOfAll(intervals, pulls, activityId)
            == TotalCreditOfAll(intervals, pulls[..n], activityId) + CreditOfAll(intervals, pulls[n], activityId)
  {
    if intervals != [] {
      TotalCreditAppend(intervals[1..], pulls, activityId);
    }
  }

  lemma {:induction false} NoPullsNoCredit(intervals: seq<Candidate>, activityId: int)
    ensures TotalCreditOfAll(intervals, [], activityId) == 0
  {
    if intervals != [] {
      NoPullsNoCredit(intervals[1..], activityId);
    }
  }

  lemma {:induction false} StoredIsCredit(pulls: seq<Pull>, intervals: seq<Candidate>, activityId: int)
    requires ReportsMeeting(pulls, intervals)
    ensures StoredSeconds(pulls, activityId) == TotalCreditOfAll(intervals, pulls, activityId)
  {
    if pulls == [] {
      NoPullsNoCredit(intervals, activityId);
    } else {
      var n := |pulls| - 1;
      StoredIsCredit(pulls[..n], intervals, activityId);
      RowsHoldCredit(pulls[n], activityId);
      OthersCreditNothing(intervals, pulls[n], activityId);
      TotalCreditAppend(intervals, pulls, activityId);
    }
  }

  /** Every interval is inside the time the pulls cover. */
  ghost predicate AllCovered(intervals: seq<Candidate>, pulls: seq<Pull>)
    requires pulls != []
  {
    forall k | 0 <= k < |intervals| ::
      && NonEmpty(intervals[k])
      && pulls[0].start <= intervals[k].startedAt && intervals[k].endedAt <= MaxEnd(pulls)
  }

  lemma {:induction false} CoveredIsCredited(intervals: seq<Candidate>, pulls: seq<Pull>, activityId: int)
    requires Tiled(pulls) && pulls != [] && AllCovered(intervals, pulls)
    ensures TotalCreditOfAll(intervals, pulls, activityId) == TotalLength(intervals, activityId)
  {
    if intervals != [] {
      CreditTelescopes(intervals[0], pulls);
      CoveredIsCredited(intervals[1..], pulls, activityId);
    }
  }

  /**
   * Whatever failed, crashed or restarted in between: when each of some consecutive pulls
   * of a client was answered with the intervals that meet its window, and the pulls cover
   * them all, the rows stored for an activity hold the floored length of each of its
   * intervals exactly once.
   */
  lemma StoredOnce(
    events: seq<Event>, lookback: int, c: int, i: nat, j: nat, intervals: seq<Candidate>, activityId: int)
    requires Runs(EMPTY, events, lookback)
    requires i < j <= |PullsOf(c, Run(EMPTY, events, lookback).pulls)|
    requires var pulls := PullsOf(c, Run(EMPTY, events, lookback).pulls)[i..j];
             ReportsMeeting(pulls, intervals) && AllCovered(intervals, pulls)
    ensures StoredSeconds(PullsOf(c, Run(EMPTY, events, lookback).pulls)[i..j], activityId)
            == TotalLength(intervals, activityId)
  {
    var pulls := PullsOf(c, Run(EMPTY, events, lookback).pulls)[i..j];
    RunIsTiled(events, lookback, c, i, j);
    StoredIsCredit(pulls, intervals, activityId);
    CoveredIsCredited(intervals, pulls, activityId);
  }

  // ----- the durable store and the consumer, step by step -----

  /** A row of `clients`: its last successful pull, absent until there is one. */
  datatype ClientRow = ClientRow(id: int, lastTelemetryPullAt: Option<int>)

  /** The client rows' persisted cursors. */
  function DurableOf(rows: seq<ClientRow>): map<int, int> {
    if rows == [] then map[]
    else
      var earlier := DurableOf(rows[..|rows| - 1]);
      var row := rows[|rows| - 1];
      if row.lastTelemetryPullAt.Some? then earlier[row.id := row.lastTelemetryPullAt.value] else earlier
  }

  function Saved(rows: seq<ClientRow>, clientId: int, end: int): seq<ClientRow> {
    var moved := Some(FloorSeconds(end));
    Map((row: ClientRow) => if row.id == clientId then row.(lastTelemetryPullAt := moved) else row, rows)
  }

  predicate HasClient(rows: seq<ClientRow>, clientId: int) {
    exists i :: 0 <= i < |rows| && rows[i].id == clientId
  }

  /** The update touches this client's cursor and no other. */
  lemma {:induction false} SavedDurable(rows: seq<ClientRow>, clientId: int, end: int)
    ensures DurableOf(Saved(rows, clientId, end))
            == if HasClient(rows, clientId) then DurableOf(rows)[clientId := FloorSeconds(end)] else DurableOf(rows)
    ensures forall c :: HasClient(Saved(rows, clientId, end), c) <==> HasClient(rows, c)
  {
    SavedClients(rows, clientId, end);
    hide HasClient;
    if rows == [] {
      NoClient(clientId);
    } else {
      var init := rows[..|rows| - 1];
      SavedDurable(init, clientId, end);
      assert Saved(rows, clientId, end)[..|rows| - 1] == Saved(init, clientId, end);
      LastClient(rows, clientId);
    }
  }

  lemma SavedClients(rows: seq<ClientRow>, clientId: int, end: int)
    ensures forall c :: HasClient(Saved(rows, clientId, end), c) <==> HasClient(rows, c)
  {
    var saved := Saved(rows, clientId, end);
    assert forall i | 0 <= i < |rows| :: saved[i].id == rows[i].id;
    hide Saved;
    forall c ensures HasClient(saved, c) <==> HasClient(rows, c) {
      if i :| 0 <= i < |rows| && rows[i].id == c {
        assert saved[i].id == c;
      }
      if i :| 0 <= i < |saved| && saved[i].id == c {
        assert rows[i].id == c;
      }
    }
  }

  lemma NoClient(clientId: int)
    ensures !HasClient([], clientId)
  {
  }

  lemma LastClient(rows: seq<ClientRow>, clientId: int)
    requires rows != []
    ensures HasClient(rows, clientId)
            <==> HasClient(rows[..|rows| - 1], clientId) || rows[|rows| - 1].id == clientId
  {
    var init := rows[..|rows| - 1];
    if i :| 0 <= i < |init| && init[i].id == clientId {
      assert rows[i].id == clientId;
    }
    if i :| 0 <= i < |rows| - 1 && rows[i].id == clientId {
      assert init[i].id == clientId;
    }
  }

  class PolicyDb {
    var clients: seq<ClientRow>
    var usageSamples: seq<Row>

    constructor (clients: seq<ClientRow>)
      ensures this.clients == clients && usageSamples == []
    {
      this.clients := clients;
      usageSamples := [];
    }

    /** Append a batch of samples, their times floored to seconds. */
    method InsertUsageSamples(clientId: int, userId: int, samples: seq<Candidate>) returns (changes: nat)
      modifies this`usageSamples
      ensures usageSamples == old(usageSamples) + Map(ToRow(clientId, userId), samples)
      ensures changes == |samples| == |usageSamples| - |old(usageSamples)|
      ensures forall k | 0 <= k < |samples| ::
                var row := usageSamples[|old(usageSamples)| + k];
                && row.userId == userId && row.clientId == clientId && row.activityId == samples[k].activityId
                && row.startedAt == samples[k].startedAt / 1000 && row.endedAt == samples[k].endedAt / 1000
    {
      if |samples| == 0 {
        return 0;
      }
      usageSamples := usageSamples + Map(ToRow(clientId, userId), samples);
      changes := |samples|;
    }

    method SaveTelemetryCursor(clientId: int, end: int)
      modifies this`clients
      ensures DurableOf(clients) == if HasClient(old(clients), clientId)
                                    then DurableOf(old(clients))[clientId := FloorSeconds(end)]
                                    else DurableOf(old(clients))
      ensures forall c :: HasClient(clients, c) <==> HasClient(old(clients), c)
    {
      SavedDurable(clients, clientId, end);
      clients := Saved(clients, clientId, end);
    }

    /** The cursors to seed the in-memory map with, in milliseconds. */
    method LoadTelemetryCursors() returns (cursors: map<int, int>)
      ensures cursors == map c | c in DurableOf(clients) :: DurableOf(clients)[c] * 1000
    {
      cursors := map[];
      for i := 0 to |clients|
        invariant cursors == map c | c in DurableOf(clients[..i]) :: DurableOf(clients[..i])[c] * 1000
      {
        assert clients[..i + 1][..i] == clients[..i];
        if clients[i].lastTelemetryPullAt.Some? {
          cursors := cursors[clients[i].id := clients[i].lastTelemetryPullAt.value * 1000];
        }
      }
      assert clients[..|clients|] == clients;
    }
  }

  function RowsOf(pulls: seq<Pull>): seq<Row> {
    if pulls == [] then [] else RowsOf(pulls[..|pulls| - 1]) + RowsOfPull(pulls[|pulls| - 1])
  }

  /** The telemetry pull over one store: the boot seed, and the consume steps around the client's answer. */
  class TelemetryConsumer {
    const db: PolicyDb
    const initialLookbackMs: int
    var cursor: map<int, int>
    var inFlight: map<int, Window>
    ghost var pulls: seq<Pull>

    ghost function Model(): State
      reads this, db
    {
      State(DurableOf(db.clients), cursor, inFlight, pulls)
    }

    ghost predicate Valid()
      reads this, db
    {
      Inv(Model()) && db.usageSamples == RowsOf(pulls)
    }

    constructor (db: PolicyDb, initialLookbackMs: int)
      requires DurableOf(db.clients) == map[] && db.usageSamples == []
      ensures Valid() && Model() == EMPTY
      ensures this.db == db && this.initialLookbackMs == initialLookbackMs
    {
      this.db := db;
      this.initialLookbackMs := initialLookbackMs;
      cursor, inFlight, pulls := map[], map[], [];
      new;
      EmptyInv();
    }

    method Begin(clientId: int, userIds: seq<int>, passEnd: int)
      requires Valid() && clientId !in inFlight
      modifies this`inFlight
      ensures Valid() && Model() == Apply(old(Model()), Event.Begin(clientId, userIds, passEnd), initialLookbackMs)
    {
      hide Inv, DurableOf, RowsOf;
      StepKeeps(Model(), Event.Begin(clientId, userIds, passEnd), initialLookbackMs);
      if |userIds| == 0 || |userIds| > 1 {
        return;
      }
      var start := passEnd - initialLookbackMs;
      if clientId in cursor {
        start := cursor[clientId];
      }
      if start >= passEnd {
        return;
      }
      inFlight := inFlight[clientId := Window(userIds[0], start, passEnd)];
    }

    /** The client answered: one transaction for samples and durable cursor, then the in-memory cursor. */
    method Commit(clientId: int, candidates: seq<Candidate>)
      requires Valid() && clientId in inFlight && HasClient(db.clients, clientId)
      modifies this, db
      ensures Valid() && Model() == Apply(old(Model()), Event.Commit(clientId, candidates), initialLookbackMs)
      ensures forall c :: HasClient(db.clients, c) <==> HasClient(old(db.clients), c)
    {
      StepKeeps(Model(), Event.Commit(clientId, candidates), initialLookbackMs);
      var window := inFlight[clientId];
      var clipped := ClipToWindow(candidates, window.start, window.end);
      var inserted := db.InsertUsageSamples(clientId, window.userId, clipped);
      db.SaveTelemetryCursor(clientId, window.end);
      cursor := cursor[clientId := window.end];
      inFlight := inFlight - {clientId};
      pulls := pulls + [PullOf(clientId, window, candidates)];
      assert pulls[..|pulls| - 1] == old(pulls);
    }

    /** The pull threw: the transaction never ran or rolled back. */
    method Fail(clientId: int)
      requires Valid() && clientId in inFlight
      modifies this`inFlight
      ensures Valid() && Model() == Apply(old(Model()), Event.Fail(clientId), initialLookbackMs)
    {
      StepKeeps(Model(), Event.Fail(clientId), initialLookbackMs);
      inFlight := inFlight - {clientId};
    }

    /** A crash drops the open pulls; the boot seeds the cursor from the store. */
    method Restart()
      requires Valid()
      modifies this`cursor, this`inFlight
      ensures Valid() && Model() == Apply(old(Model()), Event.Restart, initialLookbackMs)
    {
      StepKeeps(Model(), Event.Restart, initialLookbackMs);
      cursor := db.LoadTelemetryCursors();
      inFlight := map[];
    }
  }
}
