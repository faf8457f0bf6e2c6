// Bounded concurrent mapping: runners share a cursor, and workers complete in any order.

module Concurrency {
  import opened Common

  datatype Outcome<R> = Resolved(value: R) | Rejected

  /** A runner holds the thread, or awaits its worker, or has returned, or its worker rejected. */
  datatype Runner = Running | Working(index: nat) | Finished | Failed

  function RunnerCount(limit: real, n: nat): nat {
    Min(Max(limit.Floor, 1), n)
  }

  function CountWorking(runners: seq<Runner>): (n: nat)
    ensures n <= |runners|
  {
    if runners == [] then 0 else (if runners[0].Working? then 1 else 0) + CountWorking(runners[1..])
  }

  lemma {:induction false} CountOneChange(runners: seq<Runner>, r: nat, next: Runner)
    requires r < |runners|
    ensures CountWorking(runners[r := next])
            == CountWorking(runners) - (if runners[r].Working? then 1 else 0) + (if next.Working? then 1 else 0)
  {
    if r == 0 {
      assert runners[r := next][1..] == runners[1..];
    } else {
      assert runners[r := next][1..] == runners[1..][r - 1 := next];
      CountOneChange(runners[1..], r - 1, next);
    }
  }

  /** The indices of the defined items, in order. */
  function Present<T>(items: seq<Option<T>>): seq<nat> {
    if items == [] then []
    else
      var n := |items| - 1;
      Present(items[..n]) + if items[n].Some? then [n] else []
  }

  lemma {:induction false} PresentAscending<T>(items: seq<Option<T>>)
    ensures Ascending(Present(items))
    ensures forall i :: i in Present(items) <==> 0 <= i < |items| && items[i].Some?
  {
    if items != [] {
      PresentAscending(items[..|items| - 1]);
      var earlier := Present(items[..|items| - 1]);
      forall i | 0 <= i < |earlier| ensures earlier[i] < |items| - 1 {
        assert earlier[i] in earlier;
      }
    }
  }

  // ----- the shared state and its steps -----

  datatype State<!T, R> = State(
    items: seq<Option<T>>,
    worker: (T, nat) -> Outcome<R>,
    cursor: nat,
    results: seq<Option<R>>,
    runners: seq<Runner>,
    calls: seq<nat>,        // the indices the worker was called with, in call order
    holder: map<nat, nat>,  // the runner awaiting the call at an index
    broken: set<nat>)       // the indices whose worker rejected

  function Result<T, R>(s: State<T, R>, i: nat): Outcome<R>
    requires i < |s.items| && s.items[i].Some?
  {
    s.worker(s.items[i].value, i)
  }

  /** A call was made at this index and is over. */
  predicate Settled<T, R>(s: State<T, R>, i: nat) {
    i < s.cursor <= |s.items| && s.items[i].Some? && i !in s.holder
  }

  /** What result slot `i` holds: a value exactly when its worker ran and resolved. */
  function Expected<T, R>(s: State<T, R>, i: nat): Option<R>
    requires i < |s.items|
  {
    if Settled(s, i) && Result(s, i).Resolved? then Some(Result(s, i).value) else None
  }

  /** Each awaited index has one runner, and each awaiting runner one index. */
  ghost predicate HoldersRight<T, R>(s: State<T, R>) {
    && (forall i | i in s.holder :: i < s.cursor <= |s.items| && s.items[i].Some?)
    && (forall i | i in s.holder :: s.holder[i] < |s.runners| && s.runners[s.holder[i]] == Working(i))
    && (forall r | 0 <= r < |s.runners| && s.runners[r].Working? ::
          s.runners[r].index in s.holder && s.holder[s.runners[r].index] == r)
  }

  ghost predicate SlotsRight<T, R>(s: State<T, R>) {
    |s.results| == |s.items| && forall i | 0 <= i < |s.items| :: s.results[i] == Expected(s, i)
  }

  ghost predicate BrokenRight<T, R>(s: State<T, R>) {
    && (forall i: nat :: i in s.broken <==> Settled(s, i) && Result(s, i).Rejected?)
    && (s.broken == {} <==> Failed !in s.runners)
  }

  ghost predicate Inv<T, R>(s: State<T, R>) {
    && s.cursor <= |s.items|
    && s.calls == Present(s.items[..s.cursor])
    && HoldersRight(s) && SlotsRight(s) && BrokenRight(s)
    && (Finished in s.runners ==> s.cursor == |s.items|)
  }

  /** Work left: items not yet claimed and calls not yet settled. */
  function Remaining<T, R>(s: State<T, R>): int {
    |s.items| - s.cursor + CountWorking(s.runners)
  }

  /** A runner that holds the thread claims the next index: it calls the worker, or skips an undefined item. */
  function Claim<T, R>(s: State<T, R>, r: nat): State<T, R>
    requires s.cursor < |s.items| && r < |s.runners|
  {
    var index := s.cursor;
    if s.items[index].None? then s.(cursor := index + 1)
    else s.(cursor := index + 1, runners := s.runners[r := Working(index)], calls := s.calls + [index],
            holder := s.holder[index := r])
  }

  /** The call runner `r` awaits settles: its slot is written, or the runner rejects. */
  function Settle<T, R>(s: State<T, R>, r: nat): State<T, R>
    requires r < |s.runners| && s.runners[r].Working? && s.runners[r].index < |s.items| == |s.results|
    requires s.items[s.runners[r].index].Some?
  {
    var index := s.runners[r].index;
    match Result(s, index)
    case Resolved(value) =>
      s.(results := s.results[index := Some(value)], runners := s.runners[r := Running], holder := s.holder - {index})
    case Rejected =>
      s.(runners := s.runners[r := Failed], holder := s.holder - {index}, broken := s.broken + {index})
  }

  lemma PresentStep<T>(items: seq<Option<T>>, n: nat)
    requires n < |items|
    ensures Present(items[..n + 1]) == Present(items[..n]) + if items[n].Some? then [n] else []
  {
    assert items[..n + 1][..n] == items[..n];
  }

  lemma RunnerChanges(runners: seq<Runner>, r: nat, next: Runner, x: Runner)
    requires r < |runners| && runners[r] != x
    ensures x in runners[r := next] <==> x in runners || x == next
  {
    var after := runners[r := next];
    assert after[r] == next;
    if x in runners {
      var q :| 0 <= q < |runners| && runners[q] == x;
      assert after[q] == x;
    }
  }

  lemma ClaimHolders<T, R>(s: State<T, R>, r: nat)
    requires HoldersRight(s) && s.cursor < |s.items| && r < |s.runners| && s.runners[r] == Running
    ensures HoldersRight(Claim(s, r))
  {
    var s' := Claim(s, r);
    assert forall q | 0 <= q < |s.runners| && q != r :: s'.runners[q] == s.runners[q];
  }

  lemma ClaimSlots<T, R>(s: State<T, R>, r: nat)
    requires s.cursor < |s.items| && r < |s.runners| && SlotsRight(s)
    ensures SlotsRight(Claim(s, r))
    ensures forall i: nat :: Settled(Claim(s, r), i) <==> Settled(s, i)
  {
    var s' := Claim(s, r);
    assert forall i: nat :: Settled(s', i) <==> Settled(s, i);
  }

  lemma ClaimKeeps<T, R>(s: State<T, R>, r: nat)
    requires Inv(s) && s.cursor < |s.items| && r < |s.runners| && s.runners[r] == Running
    ensures Inv(Claim(s, r)) && Remaining(Claim(s, r)) <= Remaining(s)
  {
    PresentStep(s.items, s.cursor);
    CountOneChange(s.runners, r, Working(s.cursor));
    RunnerChanges(s.runners, r, Working(s.cursor), Failed);
    RunnerChanges(s.runners, r, Working(s.cursor), Finished);
    ClaimHolders(s, r);
    ClaimSlots(s, r);
    hide HoldersRight, SlotsRight, Settled, CountWorking, Present;
  }

  lemma FinishKeeps<T, R>(s: State<T, R>, r: nat)
    requires Inv(s) && s.cursor == |s.items| && r < |s.runners| && s.runners[r] == Running
    ensures Inv(s.(runners := s.runners[r := Finished]))
            && Remaining(s.(runners := s.runners[r := Finished])) <= Remaining(s)
  {
    CountOneChange(s.runners, r, Finished);
    var s' := s.(runners := s.runners[r := Finished]);
    assert forall q | 0 <= q < |s.runners| && q != r :: s'.runners[q] == s.runners[q];
    assert Failed in s'.runners <==> Failed in s.runners;
  }

  lemma SettleHolders<T, R>(s: State<T, R>, r: nat)
    requires HoldersRight(s) && r < |s.runners| && s.runners[r].Working? && |s.results| == |s.items|
    ensures HoldersRight(Settle(s, r))
  {
    var s' := Settle(s, r);
    assert forall q | 0 <= q < |s.runners| && q != r :: s'.runners[q] == s.runners[q];
  }

  lemma SettleSlots<T, R>(s: State<T, R>, r: nat)
    requires HoldersRight(s) && SlotsRight(s) && r < |s.runners| && s.runners[r].Working?
    ensures SlotsRight(Settle(s, r))
    ensures forall i: nat :: Settled(Settle(s, r), i) <==> Settled(s, i) || i == s.runners[r].index
  {
    var s' := Settle(s, r);
    assert forall i: nat :: Settled(s', i) <==> Settled(s, i) || i == s.runners[r].index;
  }

  lemma SettleBroken<T, R>(s: State<T, R>, r: nat)
    requires HoldersRight(s) && SlotsRight(s) && BrokenRight(s) && r < |s.runners| && s.runners[r].Working?
    ensures BrokenRight(Settle(s, r))
  {
    RunnerChanges(s.runners, r, Settle(s, r).runners[r], Failed);
    SettleSlots(s, r);
    var index := s.runners[r].index;
    assert !Settled(s, index);
    hide HoldersRight, SlotsRight, Settled;
  }

  lemma SettleKeeps<T, R>(s: State<T, R>, r: nat)
    requires Inv(s) && r < |s.runners| && s.runners[r].Working?
    ensures Inv(Settle(s, r)) && Remaining(Settle(s, r)) < Remaining(s)
  {
    var next := Settle(s, r).runners[r];
    CountOneChange(s.runners, r, next);
    RunnerChanges(s.runners, r, next, Failed);
    RunnerChanges(s.runners, r, next, Finished);
    SettleHolders(s, r);
    SettleSlots(s, r);
    SettleBroken(s, r);
    hide HoldersRight, SlotsRight, BrokenRight, Settled, CountWorking, Present;
  }

  lemma StartKeeps<T, R>(s: State<T, R>)
    requires Inv(s)
    ensures Inv(s.(runners := s.runners + [Running]))
  {
    var s' := s.(runners := s.runners + [Running]);
    assert Failed in s'.runners <==> Failed in s.runners;
  }

  /** At most `limit` calls, and always at least one slot, whatever the limit. */
  lemma InFlightBounded(runners: seq<Runner>, limit: real, n: nat)
    requires |runners| == RunnerCount(limit, n)
    ensures CountWorking(runners) <= Max(1, limit.Floor)
  {
  }

  /** As many runners as the limit allows, one at the least, and no more than there are items. */
  lemma RunnersExactly(limit: real, n: nat)
    ensures RunnerCount(limit, n)
            == if n == 0 then 0
               else if limit < 2.0 then 1
               else if limit.Floor < n then limit.Floor
               else n
  {
  }

  /** While items are left to claim and nothing was rejected, every runner is awaiting a call. */
  lemma FullyUsed<T, R>(s: State<T, R>)
    requires Inv(s) && Running !in s.runners && s.broken == {} && s.cursor < |s.items|
    ensures CountWorking(s.runners) == |s.runners|
  {
    forall r | 0 <= r < |s.runners| ensures s.runners[r].Working? {
      assert s.runners[r] in s.runners;
    }
    AllWorking(s.runners);
  }

  lemma {:induction false} AllWorking(runners: seq<Runner>)
    requires forall r | 0 <= r < |runners| :: runners[r].Working?
    ensures CountWorking(runners) == |runners|
  {
    if runners != [] {
      AllWorking(runners[1..]);
    }
  }

  /** When no runner awaits anything, every slot is right or some worker rejected. */
  lemma AllEnded<T, R>(s: State<T, R>)
    requires Inv(s) && Running !in s.runners && (s.items == [] || s.runners != [])
    requires forall r | 0 <= r < |s.runners| :: !s.runners[r].Working?
    ensures s.broken == {} <==> forall i | 0 <= i < |s.items| && s.items[i].Some? :: Result(s, i).Resolved?
    ensures s.broken == {} ==>
              && s.calls == Present(s.items)
              && forall i | 0 <= i < |s.items| ::
                   s.results[i] == if s.items[i].Some? then Some(Result(s, i).value) else None
  {
    assert s.holder == map[];
    if s.broken == {} {
      if s.items != [] {
        assert s.runners[0] in s.runners;
        assert s.runners[0] == Finished;
      }
      assert s.cursor == |s.items|;
      assert s.items[..s.cursor] == s.items;
      forall i | 0 <= i < |s.items| && s.items[i].Some? ensures Result(s, i).Resolved? {
        assert Settled(s, i) && i !in s.broken;
      }
    } else {
      var i :| i in s.broken;
      assert Settled(s, i) && Result(s, i).Rejected?;
    }
  }

  // ----- the runners -----

  class Pool<T, R> {
    const items: seq<Option<T>>
    const worker: (T, nat) -> Outcome<R>
    const results: array<Option<R>>
    var cursor: nat
    var runners: seq<Runner>
    ghost var calls: seq<nat>
    ghost var holder: map<nat, nat>
    ghost var broken: set<nat>

    ghost function Model(): State<T, R>
      reads this, results
    {
      State(items, worker, cursor, results[..], runners, calls, holder, broken)
    }

    constructor (items: seq<Option<T>>, limit: real, worker: (T, nat) -> Outcome<R>)
      ensures Inv(Model()) && fresh(results)
      ensures this.items == items && this.worker == worker
      ensures |runners| == RunnerCount(limit, |items|) && Running !in runners
    {
      this.items := items;
      this.worker := worker;
      results := new Option<R>[|items|](_ => None);
      cursor, runners := 0, [];
      calls, holder, broken := [], map[], {};
      new;
      var runnerCount := RunnerCount(limit, |items|);
      for i := 0 to runnerCount
        invariant Inv(Model()) && fresh(results)
        invariant |runners| == i && Running !in runners
      {
        StartKeeps(Model());
        runners := runners + [Running];
        RunOn(i);
      }
    }

    /** Runner `r` runs up to its next await or its end. */
    method RunOn(r: nat)
      requires r < |runners| && runners[r] == Running && Inv(Model())
      modifies this`cursor, this`runners, this`calls, this`holder
      ensures Inv(Model()) && Remaining(Model()) <= Remaining(old(Model()))
      ensures |runners| == |old(runners)|
      ensures forall q | 0 <= q < |runners| && q != r :: runners[q] == old(runners[q])
      ensures runners[r].Working? || runners[r].Finished?
    {
      hide Inv, Remaining;
      while cursor < |items|
        invariant Inv(Model()) && Remaining(Model()) <= Remaining(old(Model()))
        invariant runners == old(runners)
        decreases |items| - cursor
      {
        ClaimKeeps(Model(), r);
        ghost var claimed := Claim(Model(), r);
        var index := cursor;
        cursor := cursor + 1;
        if items[index].Some? {
          calls := calls + [index];
          holder := holder[index := r];
          runners := runners[r := Working(index)];
          assert Model() == claimed;
          return;
        }
        assert Model() == claimed;
      }
      assert cursor == |items| by {
        CursorInside(Model());
      }
      FinishKeeps(Model(), r);
      runners := runners[r := Finished];
    }

    /** The worker that runner `r` awaits settles, and the runner goes on or rejects. */
    method Complete(r: nat)
      requires r < |runners| && runners[r].Working? && Inv(Model())
      modifies this, results
      ensures Inv(Model()) && Remaining(Model()) < Remaining(old(Model()))
      ensures |runners| == |old(runners)|
      ensures Running !in old(runners) ==> Running !in runners
    {
      ghost var settled := Settle(Model(), r);
      SettleKeeps(Model(), r);
      var index := runners[r].index;
      holder := holder - {index};
      match worker(items[index].value, index)
      case Resolved(value) =>
        results[index] := Some(value);
        runners := runners[r := Running];
        assert Model() == settled;
        hide Inv, Remaining;
        RunOn(r);
      case Rejected =>
        runners := runners[r := Failed];
        broken := broken + {index};
        assert Model() == settled;
    }
  }

  lemma CursorInside<T, R>(s: State<T, R>)
    requires Inv(s)
    ensures s.cursor <= |s.items|
  {
  }

  /**
   * Map with at most `limit` calls in flight. Awaited workers settle in any order; the
   * promise resolves exactly when no worker rejects, and then each slot holds the
   * result of its own item, each defined item having been passed to one call.
   */
  method MapWithConcurrency<T, R>(items: seq<Option<T>>, limit: real, worker: (T, nat) -> Outcome<R>)
    returns (outcome: Outcome<seq<Option<R>>>, ghost calls: seq<nat>)
    ensures outcome.Resolved? <==> forall i | 0 <= i < |items| && items[i].Some? :: worker(items[i].value, i).Resolved?
    ensures outcome.Resolved? ==>
              && calls == Present(items)
              && |outcome.value| == |items|
              && forall i | 0 <= i < |items| ::
                   outcome.value[i] == if items[i].Some? then Some(worker(items[i].value, i).value) else None
  {
    var pool := new Pool(items, limit, worker);
    while exists r :: 0 <= r < |pool.runners| && pool.runners[r].Working?
      invariant Inv(pool.Model()) && fresh(pool) && fresh(pool.results)
      invariant |pool.runners| == RunnerCount(limit, |items|) && Running !in pool.runners
      invariant CountWorking(pool.runners) <= Max(1, limit.Floor)
      decreases Remaining(pool.Model())
    {
      var r :| 0 <= r < |pool.runners| && pool.runners[r].Working?;
      pool.Complete(r);
    }
    AllEnded(pool.Model());
    calls := pool.calls;
    outcome := if Failed in pool.runners then Rejected else Resolved(pool.results[..]);
  }
}
