// The fixed-window limiter of failed attempts: its state is a replay of each key's own
// log, and what bound on failures that state enforces.

module RateLimit {
  import opened Common

  datatype Window = Window(count: nat, startedAt: int)

  datatype Limits = Limits(maxAttempts: int, windowMs: int)

  /** An operation on one key, with the clock readings it takes; opening a window reads the clock again. */
  datatype Op = Query(at: int) | Failure(at: int, again: int) | Success

  /** The live window, or none once it has elapsed. */
  function Current(w: Option<Window>, at: int, limits: Limits): Option<Window> {
    if w.Some? && at - w.value.startedAt >= limits.windowMs then None else w
  }

  predicate Blocked(w: Option<Window>, at: int, limits: Limits) {
    var current := Current(w, at, limits);
    current.Some? && current.value.count >= limits.maxAttempts
  }

  function Step(w: Option<Window>, op: Op, limits: Limits): Option<Window> {
    match op
    case Query(at) => Current(w, at, limits)
    case Failure(at, again) =>
      var current := Current(w, at, limits);
      if current.None? then Some(Window(1, again)) else Some(current.value.(count := current.value.count + 1))
    case Success => None
  }

  /** The window a key's own log leaves behind. */
  function Replay(ops: seq<Op>, limits: Limits): Option<Window> {
    if ops == [] then None else Step(Replay(ops[..|ops| - 1], limits), ops[|ops| - 1], limits)
  }

  // ----- the limiter refines every key's log -----

  datatype Entry = Entry(key: string, op: Op)

  function OpsOf(key: string, log: seq<Entry>): seq<Op> {
    if log == [] then []
    else OpsOf(key, log[..|log| - 1]) + if log[|log| - 1].key == key then [log[|log| - 1].op] else []
  }

  lemma OpsAppend(key: string, log: seq<Entry>, entry: Entry)
    ensures OpsOf(key, log + [entry]) == OpsOf(key, log) + if entry.key == key then [entry.op] else []
  {
    assert (log + [entry])[..|log|] == log;
  }

  function WindowOf(windows: map<string, Window>, key: string): Option<Window> {
    if key in windows then Some(windows[key]) else None
  }

  /** An operation on one key is that key's step, and leaves every other key alone. */
  ghost predicate StepsOneKey(before: map<string, Window>, after: map<string, Window>, entry: Entry, limits: Limits) {
    forall key :: WindowOf(after, key) == if key == entry.key then Step(WindowOf(before, key), entry.op, limits)
                                          else WindowOf(before, key)
  }

  ghost predicate Refines(windows: map<string, Window>, log: seq<Entry>, limits: Limits) {
    forall key :: WindowOf(windows, key) == Replay(OpsOf(key, log), limits)
  }

  lemma RefinesNext(
    before: map<string, Window>, after: map<string, Window>, log: seq<Entry>, entry: Entry, limits: Limits)
    requires Refines(before, log, limits) && StepsOneKey(before, after, entry, limits)
    ensures Refines(after, log + [entry], limits)
  {
    forall key ensures WindowOf(after, key) == Replay(OpsOf(key, log + [entry]), limits) {
      OpsAppend(key, log, entry);
      var ops := OpsOf(key, log);
      assert (ops + [entry.op])[..|ops|] == ops;
      assert ops + [] == ops;
      assert WindowOf(before, key) == Replay(ops, limits);
    }
  }

  class FixedWindowRateLimiter {
    const limits: Limits
    var windows: map<string, Window>
    ghost var log: seq<Entry>

    ghost predicate Valid()
      reads this
    {
      Refines(windows, log, limits)
    }

    constructor (limits: Limits)
      ensures Valid() && log == [] && this.limits == limits
    {
      this.limits := limits;
      windows, log := map[], [];
    }

    /** The live window for a key, dropping it first if it has elapsed. */
    method DropElapsed(key: string, at: int) returns (window: Option<Window>)
      modifies this`windows
      ensures StepsOneKey(old(windows), windows, Entry(key, Query(at)), limits)
      ensures window == WindowOf(windows, key)
    {
      if key !in windows {
        return None;
      }
      if at - windows[key].startedAt >= limits.windowMs {
        windows := windows - {key};
        return None;
      }
      return Some(windows[key]);
    }

    method IsBlocked(key: string, at: int) returns (blocked: bool)
      requires Valid()
      modifies this
      ensures Valid() && log == old(log) + [Entry(key, Query(at))]
      ensures blocked <==> Blocked(Replay(OpsOf(key, old(log)), limits), at, limits)
    {
      var window := DropElapsed(key, at);
      RefinesNext(old(windows), windows, log, Entry(key, Query(at)), limits);
      assert WindowOf(old(windows), key) == Replay(OpsOf(key, log), limits);
      log := log + [Entry(key, Query(at))];
      blocked := window.Some? && window.value.count >= limits.maxAttempts;
    }

    method RecordFailure(key: string, at: int, again: int)
      requires Valid()
      modifies this
      ensures Valid() && log == old(log) + [Entry(key, Failure(at, again))]
    {
      var window := DropElapsed(key, at);
      if window.None? {
        windows := windows[key := Window(1, again)];
      } else {
        windows := windows[key := window.value.(count := window.value.count + 1)];
      }
      RefinesNext(old(windows), windows, log, Entry(key, Failure(at, again)), limits);
      log := log + [Entry(key, Failure(at, again))];
    }

    method RecordSuccess(key: string)
      requires Valid()
      modifies this
      ensures Valid() && log == old(log) + [Entry(key, Success)]
    {
      windows := windows - {key};
      RefinesNext(old(windows), windows, log, Entry(key, Success), limits);
      log := log + [Entry(key, Success)];
    }
  }

  // ----- what the window is -----

  lemma ReplayAppend(ops: seq<Op>, op: Op, limits: Limits)
    ensures Replay(ops + [op], limits) == Step(Replay(ops, limits), op, limits)
  {
    assert (ops + [op])[..|ops|] == ops;
  }

  /** A success forgets everything. */
  lemma SuccessForgets(ops: seq<Op>, at: int, limits: Limits)
    ensures Replay(ops + [Success], limits).None? && !Blocked(Replay(ops + [Success], limits), at, limits)
  {
    ReplayAppend(ops, Success, limits);
  }

  function FailureCount(ops: seq<Op>): nat {
    if ops == [] then 0 else FailureCount(ops[..|ops| - 1]) + if ops[|ops| - 1].Failure? then 1 else 0
  }

  /** The failure at position `k` opened a window that no success or reading has closed since. */
  ghost predicate OpenedAt(ops: seq<Op>, k: int, limits: Limits) {
    && 0 <= k < |ops| && ops[k].Failure?
    && forall j | k < j < |ops| :: !ops[j].Success? && ops[j].at < ops[k].again + limits.windowMs
  }

  /** The window is a failure still open and the failures since; without one the key's next failure opens one. */
  lemma {:induction false} WindowIsFailures(ops: seq<Op>, limits: Limits) returns (k: int)
    ensures match Replay(ops, limits)
            case None => true
            case Some(w) => OpenedAt(ops, k, limits) && w == Window(FailureCount(ops[k..]), ops[k].again)
  {
    k := 0;
    if ops != [] {
      var n := |ops| - 1;
      var init, op := ops[..n], ops[n];
      k := WindowIsFailures(init, limits);
      if Replay(ops, limits).Some? {
        if op.Failure? && Current(Replay(init, limits), op.at, limits).None? {
          k := n;
          assert ops[n..][..0] == [];
        } else {
          assert ops[k..][..n - k] == init[k..];
        }
      }
    }
  }

  /**
   * A key is blocked exactly when it has a window, the window has not lasted its length
   * at the reading, and it holds at least the allowed attempts.
   */
  lemma BlockedExactly(ops: seq<Op>, at: int, limits: Limits)
    ensures Blocked(Replay(ops, limits), at, limits)
            <==> var w := Replay(ops, limits);
                 w.Some? && at < w.value.startedAt + limits.windowMs && !(w.value.count < limits.maxAttempts)
  {
  }

  // ----- the bound on failures -----

  /** A key's log under a clock that does not go back, with no success. */
  ghost predicate Timely(ops: seq<Op>) {
    && (forall i | 0 <= i < |ops| :: !ops[i].Success? && (ops[i].Failure? ==> ops[i].at <= ops[i].again))
    && (forall i, j | 0 <= i < j < |ops| :: !ops[i].Success? && !ops[j].Success? ==> EndOf(ops[i]) <= ops[j].at)
  }

  function EndOf(op: Op): int
    requires !op.Success?
  {
    if op.Failure? then op.again else op.at
  }

  /** Every failure is recorded while the key is not blocked. */
  ghost predicate OnlyUnblocked(ops: seq<Op>, limits: Limits) {
    forall i | 0 <= i < |ops| && ops[i].Failure? :: !Blocked(Replay(ops[..i], limits), ops[i].at, limits)
  }

  /** Failures recorded in the half-open span `[from, from + windowMs)`. */
  function FailuresIn(ops: seq<Op>, from: int, limits: Limits): nat {
    if ops == [] then 0
    else
      var op := ops[|ops| - 1];
      FailuresIn(ops[..|ops| - 1], from, limits)
      + if op.Failure? && from <= op.at < from + limits.windowMs then 1 else 0
  }

  function Most(limits: Limits): int {
    Max(1, limits.maxAttempts)
  }

  /** A log's last window: its first failure, its start, its size, and the span's failures before it and in it. */
  datatype Account = Account(first: int, startedAt: int, count: nat, earlier: nat, own: nat)

  ghost predicate Accounts(a: Account, ops: seq<Op>, from: int, limits: Limits) {
    var to := from + limits.windowMs;
    && ops != [] && !ops[|ops| - 1].Success?
    && FailuresIn(ops, from, limits) == a.earlier + a.own
    && a.first <= a.startedAt <= EndOf(ops[|ops| - 1])
    && a.own <= a.count <= Most(limits)
    && (a.first < from ==> a.own < a.count)
    && (a.first >= to ==> a.own == 0)
    && a.earlier + a.own <= 2 * Most(limits) - 1
    && (a.earlier + a.own > 0 ==> from <= EndOf(ops[|ops| - 1]))
    && (a.earlier > 0 && a.first < to ==> a.earlier < Most(limits) && a.first >= from)
    && match Replay(ops, limits)
       case Some(w) => w == Window(a.count, a.startedAt)
       case None => a.startedAt + limits.windowMs <= EndOf(ops[|ops| - 1])
  }

  /** No window was ever opened. */
  ghost predicate Quiet(ops: seq<Op>, from: int, limits: Limits) {
    FailuresIn(ops, from, limits) == 0 && Replay(ops, limits).None?
  }

  lemma AccountStep(a: Account, ops: seq<Op>, op: Op, from: int, limits: Limits) returns (b: Account)
    requires Accounts(a, ops, from, limits)
    requires !op.Success? && EndOf(ops[|ops| - 1]) <= op.at <= EndOf(op)
    requires op.Failure? ==> !Blocked(Replay(ops, limits), op.at, limits)
    ensures Accounts(b, ops + [op], from, limits)
  {
    var more := ops + [op];
    assert more[..|ops|] == ops;
    b := a;
    if op.Failure? {
      var inSpan := if from <= op.at < from + limits.windowMs then 1 else 0;
      if Current(Replay(ops, limits), op.at, limits).None? {
        b := Account(op.at, op.again, 1, a.earlier + a.own, inSpan);
      } else {
        b := a.(count := a.count + 1, own := a.own + inSpan);
      }
    }
  }

  /** The first failure opens an account. */
  lemma FirstAccount(ops: seq<Op>, op: Op, from: int, limits: Limits) returns (a: Account)
    requires Quiet(ops, from, limits) && !op.Success? && op.at <= EndOf(op)
    ensures Quiet(ops + [op], from, limits) || Accounts(a, ops + [op], from, limits)
  {
    var more := ops + [op];
    assert more[..|ops|] == ops;
    a := Account(op.at, EndOf(op), 1, 0, if from <= op.at < from + limits.windowMs then 1 else 0);
  }

  lemma PrefixUnblocked(ops: seq<Op>, limits: Limits)
    requires ops != [] && OnlyUnblocked(ops, limits)
    ensures OnlyUnblocked(ops[..|ops| - 1], limits)
  {
    var init := ops[..|ops| - 1];
    forall i | 0 <= i < |init| && init[i].Failure? ensures !Blocked(Replay(init[..i], limits), init[i].at, limits) {
      assert init[..i] == ops[..i];
    }
  }

  lemma {:induction false} LogHasAccount(ops: seq<Op>, from: int, limits: Limits) returns (a: Account)
    requires Timely(ops) && OnlyUnblocked(ops, limits)
    ensures Quiet(ops, from, limits) || Accounts(a, ops, from, limits)
  {
    a := Account(0, 0, 0, 0, 0);
    if ops != [] {
      var n := |ops| - 1;
      var init, op := ops[..n], ops[n];
      assert ops == init + [op];
      PrefixUnblocked(ops, limits);
      a := LogHasAccount(init, from, limits);
      if Quiet(init, from, limits) {
        a := FirstAccount(init, op, from, limits);
      } else {
        a := AccountStep(a, init, op, from, limits);
      }
    }
  }

  /**
   * With failures recorded only while unblocked, under a clock that does not go back and
   * with no success in between, every half-open span of the window's length holds at most
   * twice the allowed attempts less one.
   */
  lemma FailuresBounded(ops: seq<Op>, from: int, limits: Limits)
    requires Timely(ops) && OnlyUnblocked(ops, limits)
    ensures FailuresIn(ops, from, limits) <= 2 * Max(1, limits.maxAttempts) - 1
  {
    var a := LogHasAccount(ops, from, limits);
  }

  /** One failure opens a window, the rest of it fill its last instant, and the next window fills at once. */
  function WorstCase(limits: Limits): seq<Op>
    requires limits.maxAttempts >= 1
  {
    seq(2 * limits.maxAttempts, i requires 0 <= i < 2 * limits.maxAttempts =>
      if i == 0 then Failure(0, 0)
      else if i < limits.maxAttempts then Failure(limits.windowMs - 1, limits.windowMs - 1)
      else Failure(limits.windowMs, limits.windowMs))
  }

  lemma {:induction false} WorstCaseState(limits: Limits, k: nat)
    requires limits.maxAttempts >= 1 && limits.windowMs >= 2 && k <= 2 * limits.maxAttempts
    ensures var m := limits.maxAttempts;
            && Replay(WorstCase(limits)[..k], limits)
               == (if k == 0 then None else Some(if k <= m then Window(k, 0) else Window(k - m, limits.windowMs)))
            && FailuresIn(WorstCase(limits)[..k], limits.windowMs - 1, limits) == if k == 0 then 0 else k - 1
  {
    if k > 0 {
      WorstCaseState(limits, k - 1);
      assert WorstCase(limits)[..k][..k - 1] == WorstCase(limits)[..k - 1];
    }
  }

  /** Every limit of at least one attempt, over a window of at least two milliseconds, reaches the bound. */
  lemma BoundIsTight(limits: Limits)
    requires limits.maxAttempts >= 1 && limits.windowMs >= 2
    ensures var ops := WorstCase(limits);
            && Timely(ops) && OnlyUnblocked(ops, limits)
            && FailuresIn(ops, limits.windowMs - 1, limits) == 2 * limits.maxAttempts - 1
  {
    var ops := WorstCase(limits);
    forall i | 0 <= i < |ops| ensures !Blocked(Replay(ops[..i], limits), ops[i].at, limits) {
      WorstCaseState(limits, i);
    }
    WorstCaseState(limits, |ops|);
    assert ops[..|ops|] == ops;
  }
}
