// Grace timers of force-close decisions, de-duplicated by a pending set, and the
// fan-out of an elapsed decision to a user's clients.

module ForceClose {
  import opened SchedulePrecedence
  import opened EnforcementDecision

  datatype Key = Key(userId: int, target: Target)

  /** An outstanding grace timer: what to dispatch, when it was set and when it is due (ms). */
  datatype Timer = Timer(key: Key, decision: Decision, setAt: int, due: int)

  datatype State = State(
    pending: set<Key>,
    timers: seq<Timer>,          // outstanding, oldest first
    scheduled: seq<Timer>,       // every timer ever set
    dispatched: seq<Timer>,      // every timer that fired
    lastDispatch: map<Key, int>, // when a key was last dispatched
    now: int)

  datatype Event =
    | Enforce(at: int, userId: int, decisions: seq<Decision>)
    | Elapse(at: int, index: nat)

  const IDLE := State({}, [], [], [], map[], 0)

  function GraceMs(decision: Decision): int {
    decision.graceSeconds * 1000
  }

  /** A target already pending keeps its timer; another gets one. */
  function EnforceOne(s: State, userId: int, decision: Decision): State {
    var key := Key(userId, decision.target);
    if key in s.pending then s
    else
      var timer := Timer(key, decision, s.now, s.now + GraceMs(decision));
      s.(pending := s.pending + {key}, timers := s.timers + [timer], scheduled := s.scheduled + [timer])
  }

  function EnforceAll(s: State, userId: int, decisions: seq<Decision>): State {
    if decisions == [] then s
    else EnforceOne(EnforceAll(s, userId, decisions[..|decisions| - 1]), userId, decisions[|decisions| - 1])
  }

  lemma NoneEnforced(s: State, userId: int, decisions: seq<Decision>)
    ensures EnforceAll(s, userId, decisions[..0]) == s
  {
  }

  lemma EnforceIsAll(s: State, at: int, userId: int, decisions: seq<Decision>)
    requires s.now <= at
    ensures Apply(s, Enforce(at, userId, decisions)) == EnforceAll(s.(now := at), userId, decisions)
  {
  }

  lemma EnforceOneSets(s: State, userId: int, decision: Decision)
    ensures var key, s' := Key(userId, decision.target), EnforceOne(s, userId, decision);
            && s'.now == s.now
            && (key in s.pending ==> s' == s)
            && (key !in s.pending ==>
                  && s'.pending == s.pending + {key}
                  && s'.timers == s.timers + [Timer(key, decision, s.now, s.now + decision.graceSeconds * 1000)])
  {
  }

  lemma AllEnforced(s: State, userId: int, decisions: seq<Decision>)
    ensures EnforceAll(s, userId, decisions[..|decisions|]) == EnforceAll(s, userId, decisions)
  {
    assert decisions[..|decisions|] == decisions;
  }

  lemma EnforceNext(s: State, userId: int, decisions: seq<Decision>, i: nat)
    requires i < |decisions|
    ensures EnforceAll(s, userId, decisions[..i + 1])
            == EnforceOne(EnforceAll(s, userId, decisions[..i]), userId, decisions[i])
  {
    assert decisions[..i + 1][..i] == decisions[..i];
  }

  function Fire(s: State, index: nat): State
    requires index < |s.timers|
  {
    var timer := s.timers[index];
    s.(pending := s.pending - {timer.key},
       timers := s.timers[..index] + s.timers[index + 1..],
       dispatched := s.dispatched + [timer],
       lastDispatch := s.lastDispatch[timer.key := s.now])
  }

  /** Time does not go back, and a timer fires no earlier than it is due. */
  predicate Enabled(s: State, e: Event) {
    && s.now <= e.at
    && (e.Elapse? ==> e.index < |s.timers| && s.timers[e.index].due <= e.at)
  }

  function Apply(s: State, e: Event): State
    requires Enabled(s, e)
  {
    var later := s.(now := e.at);
    match e
    case Enforce(_, userId, decisions) => EnforceAll(later, userId, decisions)
    case Elapse(_, index) => Fire(later, index)
  }

  predicate Runs(s: State, events: seq<Event>)
    decreases |events|
  {
    events == [] || (Enabled(s, events[0]) && Runs(Apply(s, events[0]), events[1..]))
  }

  function Run(s: State, events: seq<Event>): State
    requires Runs(s, events)
    decreases |events|
  {
    if events == [] then s else Run(Apply(s, events[0]), events[1..])
  }

  // ----- what every step keeps -----

  ghost predicate OnePerKey(timers: seq<Timer>) {
    forall i, j | 0 <= i < j < |timers| :: timers[i].key != timers[j].key
  }

  predicate HasTimer(timers: seq<Timer>, key: Key) {
    exists i :: 0 <= i < |timers| && timers[i].key == key
  }

  ghost predicate TimerRight(s: State, timer: Timer) {
    && timer.setAt <= s.now
    && timer.due == timer.setAt + GraceMs(timer.decision)
    && timer.key.target == timer.decision.target
    && (timer.key in s.lastDispatch ==> s.lastDispatch[timer.key] <= timer.setAt)
  }

  ghost predicate Inv(s: State) {
    && OnePerKey(s.timers)
    && (forall key :: key in s.pending <==> HasTimer(s.timers, key))
    && (forall i | 0 <= i < |s.timers| :: TimerRight(s, s.timers[i]))
    && (forall key | key in s.lastDispatch :: s.lastDispatch[key] <= s.now)
    && multiset(s.scheduled) == multiset(s.dispatched) + multiset(s.timers)
  }

  lemma EnforceOneKeeps(s: State, userId: int, decision: Decision)
    requires Inv(s)
    ensures Inv(EnforceOne(s, userId, decision))
  {
    var key := Key(userId, decision.target);
    if key !in s.pending {
      var s' := EnforceOne(s, userId, decision);
      assert !HasTimer(s.timers, key);
      forall k ensures k in s'.pending <==> HasTimer(s'.timers, k) {
        assert s'.timers[|s.timers|].key == key;
        if i :| 0 <= i < |s.timers| && s.timers[i].key == k {
          assert s'.timers[i].key == k;
        }
      }
    }
  }

  lemma {:induction false} EnforceAllKeeps(s: State, userId: int, decisions: seq<Decision>)
    requires Inv(s)
    ensures Inv(EnforceAll(s, userId, decisions))
  {
    if decisions != [] {
      EnforceAllKeeps(s, userId, decisions[..|decisions| - 1]);
      EnforceOneKeeps(EnforceAll(s, userId, decisions[..|decisions| - 1]), userId, decisions[|decisions| - 1]);
    }
  }

  lemma FireKeeps(s: State, index: nat)
    requires Inv(s) && index < |s.timers|
    ensures Inv(Fire(s, index))
  {
    FirePending(s, index);
    FireConserves(s, index);
    FireTimers(s, index);
    hide HasTimer, TimerRight, OnePerKey;
  }

  lemma FireConserves(s: State, index: nat)
    requires multiset(s.scheduled) == multiset(s.dispatched) + multiset(s.timers) && index < |s.timers|
    ensures multiset(Fire(s, index).scheduled) == multiset(Fire(s, index).dispatched) + multiset(Fire(s, index).timers)
  {
    assert s.timers == s.timers[..index] + [s.timers[index]] + s.timers[index + 1..];
  }

  lemma FireTimers(s: State, index: nat)
    requires index < |s.timers| && OnePerKey(s.timers)
    requires forall i | 0 <= i < |s.timers| :: TimerRight(s, s.timers[i])
    ensures forall i | 0 <= i < |Fire(s, index).timers| :: TimerRight(Fire(s, index), Fire(s, index).timers[i])
  {
    var s' := Fire(s, index);
    forall i | 0 <= i < |s'.timers| ensures TimerRight(s', s'.timers[i]) {
      var k := if i < index then i else i + 1;
      assert s'.timers[i] == s.timers[k] && TimerRight(s, s.timers[k]);
      assert s.timers[k].key != s.timers[index].key;
    }
  }

  lemma FirePending(s: State, index: nat)
    requires OnePerKey(s.timers) && (forall key :: key in s.pending <==> HasTimer(s.timers, key)) && index < |s.timers|
    ensures OnePerKey(Fire(s, index).timers)
    ensures forall key :: key in Fire(s, index).pending <==> HasTimer(Fire(s, index).timers, key)
  {
    var s' := Fire(s, index);
    forall k ensures k in s'.pending <==> HasTimer(s'.timers, k) {
      if i :| 0 <= i < |s'.timers| && s'.timers[i].key == k {
        assert s.timers[if i < index then i else i + 1].key == k;
      }
      if i :| 0 <= i < |s.timers| && i != index && s.timers[i].key == k {
        assert s'.timers[if i < index then i else i - 1].key == k;
      }
    }
  }

  lemma StepKeeps(s: State, e: Event)
    requires Inv(s) && Enabled(s, e)
    ensures Inv(Apply(s, e))
  {
    var later := s.(now := e.at);
    forall i | 0 <= i < |s.timers| ensures TimerRight(later, later.timers[i]) {
      assert TimerRight(s, s.timers[i]);
    }
    match e
    case Enforce(_, userId, decisions) => EnforceAllKeeps(later, userId, decisions);
    case Elapse(_, index) => FireKeeps(later, index);
  }

  lemma {:induction false} RunKeeps(s: State, events: seq<Event>)
    requires Inv(s) && Runs(s, events)
    ensures Inv(Run(s, events))
    decreases |events|
  {
    if events != [] {
      StepKeeps(s, events[0]);
      RunKeeps(Apply(s, events[0]), events[1..]);
    }
  }

  /**
   * After any run: the pending set is exactly the keys of outstanding timers, one timer
   * per key, and every timer set was dispatched once or is still outstanding.
   */
  lemma PendingIsOutstanding(events: seq<Event>, key: Key)
    requires Runs(IDLE, events)
    ensures var s := Run(IDLE, events);
            && (key in s.pending <==> HasTimer(s.timers, key))
            && OnePerKey(s.timers)
            && multiset(s.scheduled) == multiset(s.dispatched) + multiset(s.timers)
  {
    RunKeeps(IDLE, events);
  }

  /** After any run a timer can fire exactly from the moment its own grace has passed since it was set. */
  lemma FiresOnceDue(events: seq<Event>, at: int, index: nat)
    requires Runs(IDLE, events) && index < |Run(IDLE, events).timers|
    ensures var s := Run(IDLE, events);
            var timer := s.timers[index];
            Enabled(s, Elapse(at, index))
            <==> s.now <= at && at - timer.setAt >= timer.decision.graceSeconds * 1000
  {
    RunKeeps(IDLE, events);
    var s := Run(IDLE, events);
    assert TimerRight(s, s.timers[index]);
  }

  /** However often a target is re-decided, two of its dispatches are at least the later one's grace apart. */
  lemma DispatchesApart(events: seq<Event>, at: int, index: nat)
    requires Runs(IDLE, events) && Enabled(Run(IDLE, events), Elapse(at, index))
    ensures var s := Run(IDLE, events);
            var timer := s.timers[index];
            timer.key in s.lastDispatch ==> at - s.lastDispatch[timer.key] >= timer.decision.graceSeconds * 1000
  {
    RunKeeps(IDLE, events);
    var s := Run(IDLE, events);
    assert TimerRight(s, s.timers[index]);
  }

  /** The earliest decision of a list about a target. */
  predicate FirstAbout(decisions: seq<Decision>, k: int) {
    0 <= k < |decisions| && forall j | 0 <= j < k :: decisions[j].target != decisions[k].target
  }

  /** A timer of this user for the decision, set at `at` and due its grace in seconds later. */
  predicate WaitsFor(timer: Timer, at: int, userId: int, decision: Decision) {
    && timer.key.userId == userId && timer.key.target == decision.target && timer.decision == decision
    && timer.setAt == at && timer.due == at + decision.graceSeconds * 1000
  }

  /** The timer is for the first decision about a target that had none. */
  ghost predicate SetFor(s: State, timer: Timer, userId: int, decisions: seq<Decision>) {
    && !HasTimer(s.timers, timer.key)
    && exists k :: FirstAbout(decisions, k) && WaitsFor(timer, s.now, userId, decisions[k])
  }

  ghost predicate TimersSet(s: State, after: State, userId: int, decisions: seq<Decision>) {
    && s.timers <= after.timers && after.now == s.now
    && (forall i | |s.timers| <= i < |after.timers| :: SetFor(s, after.timers[i], userId, decisions))
    && (forall k | 0 <= k < |decisions| :: HasTimer(after.timers, Key(userId, decisions[k].target)))
  }

  /**
   * Enforcing keeps every outstanding timer, and adds one for the first decision about each
   * target of the user that has none, due when that decision's grace is over.
   */
  lemma {:induction false} EnforceSetsTimers(s: State, userId: int, decisions: seq<Decision>)
    requires Inv(s)
    ensures TimersSet(s, EnforceAll(s, userId, decisions), userId, decisions)
  {
    if decisions != [] {
      var n := |decisions| - 1;
      var init := decisions[..n];
      EnforceSetsTimers(s, userId, init);
      EnforceAllKeeps(s, userId, init);
      assert decisions == init + [decisions[n]];
      OneMoreTimer(s, EnforceAll(s, userId, init), userId, init, decisions[n]);
    }
  }

  lemma OneMoreTimer(s: State, before: State, userId: int, decisions: seq<Decision>, last: Decision)
    requires Inv(before) && TimersSet(s, before, userId, decisions)
    ensures TimersSet(s, EnforceOne(before, userId, last), userId, decisions + [last])
  {
    var after := EnforceOne(before, userId, last);
    var key, more := Key(userId, last.target), decisions + [last];
    assert key in before.pending <==> HasTimer(before.timers, key);
    hide Inv;
    forall k | 0 <= k < |more| ensures HasTimer(after.timers, Key(userId, more[k].target)) {
      if k < |decisions| || key in before.pending {
        KeepsTimers(before.timers, after.timers, Key(userId, more[k].target));
      } else {
        assert after.timers[|before.timers|].key == key;
      }
    }
    forall i | |s.timers| <= i < |after.timers| ensures SetFor(s, after.timers[i], userId, more) {
      if i < |before.timers| {
        assert SetFor(s, before.timers[i], userId, decisions);
        var k :| FirstAbout(decisions, k) && WaitsFor(before.timers[i], s.now, userId, decisions[k]);
        assert FirstAbout(more, k) && more[k] == decisions[k];
      } else {
        NewTimerFirst(s, before, userId, decisions, last);
      }
    }
  }

  lemma NewTimerFirst(s: State, before: State, userId: int, decisions: seq<Decision>, last: Decision)
    requires TimersSet(s, before, userId, decisions) && !HasTimer(before.timers, Key(userId, last.target))
    ensures var key := Key(userId, last.target);
            SetFor(s, Timer(key, last, s.now, s.now + GraceMs(last)), userId, decisions + [last])
  {
    var key, more := Key(userId, last.target), decisions + [last];
    if HasTimer(s.timers, key) {
      KeepsTimers(s.timers, before.timers, key);
    }
    forall j | 0 <= j < |decisions| ensures more[j].target != last.target {
      assert HasTimer(before.timers, Key(userId, decisions[j].target));
    }
    assert more[|decisions|] == last;
    assert FirstAbout(more, |decisions|);
  }

  lemma KeepsTimers(a: seq<Timer>, b: seq<Timer>, key: Key)
    requires a <= b && HasTimer(a, key)
    ensures HasTimer(b, key)
  {
    var i :| 0 <= i < |a| && a[i].key == key;
    assert b[i].key == key;
  }

  // ----- the trigger and its fan-out -----

  datatype Delivery = OverEventStream(clientId: int, activityId: int) | OverSsh(clientId: int, activityId: int)

  /** An event that no agent received falls back to the user-scoped kill. */
  function CloseOnClient(publish: (int, int) -> nat, clientId: int, activityId: int): Delivery {
    if publish(clientId, activityId) > 0 then OverEventStream(clientId, activityId) else OverSsh(clientId, activityId)
  }

  class ForceCloseTrigger {
    var pending: set<Key>
    var timers: seq<Timer>
    ghost var history: State

    ghost predicate Valid()
      reads this
    {
      Inv(history) && history.pending == pending && history.timers == timers
    }

    constructor ()
      ensures Valid() && history == IDLE
    {
      pending, timers := {}, [];
      history := IDLE;
    }

    /** Schedule each decision after its grace period, unless its target is already pending. */
    method Enforce(at: int, userId: int, decisions: seq<Decision>)
      requires Valid() && history.now <= at
      modifies this
      ensures Valid() && history == Apply(old(history), Event.Enforce(at, userId, decisions))
    {
      hide Inv, EnforceAll, EnforceOne, Apply;
      ghost var start := history.(now := at);
      StepKeeps(history, Event.Enforce(at, userId, decisions));
      EnforceIsAll(history, at, userId, decisions);
      history := start;
      NoneEnforced(start, userId, decisions);
      for i := 0 to |decisions|
        invariant history == EnforceAll(start, userId, decisions[..i])
        invariant history.pending == pending && history.timers == timers && history.now == at
      {
        var decision := decisions[i];
        var key := Key(userId, decision.target);
        EnforceNext(start, userId, decisions, i);
        EnforceOneSets(history, userId, decision);
        history := EnforceOne(history, userId, decision);
        if key in pending {
          continue;
        }
        pending := pending + {key};
        timers := timers + [Timer(key, decision, at, at + decision.graceSeconds * 1000)];
      }
      AllEnforced(start, userId, decisions);
    }

    /** A grace timer elapses: its target may be scheduled again, and its decision is dispatched. */
    method Elapse(at: int, index: nat) returns (userId: int, decision: Decision)
      requires Valid() && Enabled(history, Event.Elapse(at, index))
      modifies this
      ensures Valid() && history == Apply(old(history), Event.Elapse(at, index))
      ensures Key(userId, decision.target) == old(timers)[index].key && decision == old(timers)[index].decision
    {
      StepKeeps(history, Event.Elapse(at, index));
      assert TimerRight(history, timers[index]);
      history := Apply(history, Event.Elapse(at, index));
      userId, decision := timers[index].key.userId, timers[index].decision;
      pending := pending - {timers[index].key};
      timers := timers[..index] + timers[index + 1..];
    }
  }

  function Position(client: nat, activity: nat, width: nat): nat {
    client * width + activity
  }

  /** Every client gets every activity once, clients in order; nothing is sent without clients or activities. */
  method Dispatch(clients: seq<int>, activities: seq<int>, publish: (int, int) -> nat) returns (log: seq<Delivery>)
    ensures |log| == |clients| * |activities|
    ensures forall c, a | 0 <= c < |clients| && 0 <= a < |activities| ::
              && Position(c, a, |activities|) == c * |activities| + a < |log|
              && log[Position(c, a, |activities|)]
                 == if publish(clients[c], activities[a]) > 0 then OverEventStream(clients[c], activities[a])
                    else OverSsh(clients[c], activities[a])
  {
    log := [];
    var width := |activities|;
    if width == 0 || |clients| == 0 {
      return;
    }
    for i := 0 to |clients|
      invariant |log| == i * width
      invariant forall c, a | 0 <= c < i && 0 <= a < width ::
                  && Position(c, a, width) < |log|
                  && log[Position(c, a, width)] == CloseOnClient(publish, clients[c], activities[a])
    {
      for j := 0 to width
        invariant |log| == i * width + j
        invariant forall c, a | 0 <= c <= i && 0 <= a < (if c < i then width else j) ::
                    && Position(c, a, width) < |log|
                    && log[Position(c, a, width)] == CloseOnClient(publish, clients[c], activities[a])
      {
        log := log + [CloseOnClient(publish, clients[i], activities[j])];
      }
    }
  }
}
