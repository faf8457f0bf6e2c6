// The enforcement sweep: every supervised user evaluated each pass, one user's failure
// isolated from the others, and the cool-down carried from pass to pass.

module EnforcementSweep {
  import opened Common
  import opened SchedulePrecedence
  import opened EnforcementDecision

  /** What happens to one loaded user: the evaluation's quotas, or its failure; and whether the trigger throws. */
  datatype Reading = Reading(userId: int, quotas: Option<seq<Quota>>, graceSeconds: int, triggerThrows: bool)

  /** One pass at instant `at`; nothing is loaded when the loader itself throws. */
  datatype Pass = Pass(at: int, loaded: Option<seq<Reading>>)

  /** Per user, the cool-down state of the last pass. */
  type Carried = map<int, CoolDown>

  function Previous(carried: Carried, userId: int): CoolDown {
    if userId in carried then carried[userId] else map[]
  }

  function Outcome(carried: Carried, r: Reading, at: int, cooldownMs: int): Evaluation
    requires r.quotas.Some?
  {
    Evaluate(r.quotas.value, Previous(carried, r.userId), at, cooldownMs)
  }

  /** A failed evaluation, and also a trigger that throws, leaves the user's earlier state. */
  function After(carried: Carried, r: Reading, at: int, cooldownMs: int): CoolDown {
    if r.quotas.None? then Previous(carried, r.userId)
    else
      var outcome := Outcome(carried, r, at, cooldownMs);
      if outcome.firing != [] && r.triggerThrows then Previous(carried, r.userId) else outcome.next
  }

  function NextCarried(carried: Carried, readings: seq<Reading>, at: int, cooldownMs: int): Carried {
    if readings == [] then map[]
    else
      var r := readings[|readings| - 1];
      NextCarried(carried, readings[..|readings| - 1], at, cooldownMs)[r.userId := After(carried, r, at, cooldownMs)]
  }

  /** The state after a pass: replaced, so unloaded users are pruned; untouched when the loader throws. */
  function Tick(carried: Carried, pass: Pass, cooldownMs: int): Carried {
    match pass.loaded
    case None => carried
    case Some(readings) => NextCarried(carried, readings, pass.at, cooldownMs)
  }

  datatype Handover = Handover(userId: int, decisions: seq<Decision>)

  /** The decisions one user's evaluation hands to the trigger, none when it fails. */
  function HandedFor(carried: Carried, r: Reading, at: int, cooldownMs: int): seq<Decision> {
    if r.quotas.None? then [] else Decisions(Outcome(carried, r, at, cooldownMs).firing, r.graceSeconds)
  }

  /** The decisions a pass hands to the trigger, user by user. */
  function HandedOver(carried: Carried, readings: seq<Reading>, at: int, cooldownMs: int): seq<Handover> {
    if readings == [] then []
    else
      var r := readings[|readings| - 1];
      var decisions := HandedFor(carried, r, at, cooldownMs);
      HandedOver(carried, readings[..|readings| - 1], at, cooldownMs)
      + if decisions != [] then [Handover(r.userId, decisions)] else []
  }

  class Sweep {
    const cooldownMs: int
    var lastFiredByUser: Carried

    constructor (cooldownMs: int)
      ensures this.cooldownMs == cooldownMs && lastFiredByUser == map[]
    {
      this.cooldownMs := cooldownMs;
      lastFiredByUser := map[];
    }

    /** One user of a pass: the state to keep, and the decisions handed to the trigger. */
    method RunUser(user: Reading, at: int) returns (kept: CoolDown, decisions: seq<Decision>)
      ensures kept == After(lastFiredByUser, user, at, cooldownMs)
      ensures decisions == HandedFor(lastFiredByUser, user, at, cooldownMs)
    {
      var previous := if user.userId in lastFiredByUser then lastFiredByUser[user.userId] else map[];
      if user.quotas.None? {
        return previous, [];
      }
      decisions, kept := DecideEnforcement(at, user.graceSeconds, cooldownMs, user.quotas.value, previous);
      DecisionsNonempty(Evaluate(user.quotas.value, previous, at, cooldownMs).firing, user.graceSeconds);
      if |decisions| > 0 && user.triggerThrows {
        kept := previous;
      }
    }

    /** One pass. It never throws, whoever fails. */
    method RunPass(pass: Pass) returns (handed: seq<Handover>)
      modifies this
      ensures lastFiredByUser == Tick(old(lastFiredByUser), pass, cooldownMs)
      ensures handed == if pass.loaded.None? then []
                        else HandedOver(old(lastFiredByUser), pass.loaded.value, pass.at, cooldownMs)
    {
      handed := [];
      if pass.loaded.None? {
        return;
      }
      var readings := pass.loaded.value;
      var next: Carried := map[];
      NobodyYet(lastFiredByUser, pass.at, cooldownMs);
      assert readings[..0] == [];
      hide NextCarried, HandedOver, After, HandedFor;
      for i := 0 to |readings|
        invariant lastFiredByUser == old(lastFiredByUser)
        invariant next == NextCarried(lastFiredByUser, readings[..i], pass.at, cooldownMs)
        invariant handed == HandedOver(lastFiredByUser, readings[..i], pass.at, cooldownMs)
      {
        var user := readings[i];
        assert readings[..i + 1] == readings[..i] + [user];
        OneMoreUser(lastFiredByUser, readings[..i], user, pass.at, cooldownMs);
        var kept, decisions := RunUser(user, pass.at);
        next := next[user.userId := kept];
        if |decisions| > 0 {
          handed := handed + [Handover(user.userId, decisions)];
        }
      }
      assert readings[..|readings|] == readings;
      lastFiredByUser := next;
    }
  }

  lemma NobodyYet(carried: Carried, at: int, cooldownMs: int)
    ensures NextCarried(carried, [], at, cooldownMs) == map[] && HandedOver(carried, [], at, cooldownMs) == []
  {
  }

  /** What one more user adds to the pass. */
  lemma OneMoreUser(carried: Carried, readings: seq<Reading>, r: Reading, at: int, cooldownMs: int)
    ensures NextCarried(carried, readings + [r], at, cooldownMs)
            == NextCarried(carried, readings, at, cooldownMs)[r.userId := After(carried, r, at, cooldownMs)]
    ensures HandedOver(carried, readings + [r], at, cooldownMs)
            == (var decisions := HandedFor(carried, r, at, cooldownMs);
                HandedOver(carried, readings, at, cooldownMs)
                + if decisions != [] then [Handover(r.userId, decisions)] else [])
  {
    assert (readings + [r])[..|readings|] == readings;
  }

  lemma DecisionsNonempty(firing: seq<Quota>, graceSeconds: int)
    ensures Decisions(firing, graceSeconds) == [] <==> firing == []
  {
    SortByContents(DecisionRank, Map((q: Quota) => Decide(q, graceSeconds), firing));
  }

  // ----- one pass, seen by one user and one target -----

  /** Users are loaded once each, and an evaluation lists each target once. */
  ghost predicate Proper(pass: Pass) {
    pass.loaded.Some? ==>
      var readings := pass.loaded.value;
      && (forall i, j | 0 <= i < j < |readings| :: readings[i].userId != readings[j].userId)
      && (forall i | 0 <= i < |readings| && readings[i].quotas.Some? :: Distinct(readings[i].quotas.value))
  }

  function ReadingOf(readings: seq<Reading>, userId: int): Option<Reading> {
    if readings == [] then None
    else
      var r := readings[|readings| - 1];
      if r.userId == userId then Some(r) else ReadingOf(readings[..|readings| - 1], userId)
  }

  lemma {:induction false} ReadingMember(readings: seq<Reading>, userId: int)
    ensures ReadingOf(readings, userId).Some? ==>
              ReadingOf(readings, userId).value in readings && ReadingOf(readings, userId).value.userId == userId
  {
    if readings != [] {
      ReadingMember(readings[..|readings| - 1], userId);
    }
  }

  /** A pass keeps exactly the loaded users, and each one's state depends on its own reading only. */
  lemma {:induction false} UsersIsolated(
    carried: Carried, readings: seq<Reading>, at: int, cooldownMs: int, userId: int)
    ensures var next := NextCarried(carried, readings, at, cooldownMs);
            match ReadingOf(readings, userId)
            case None => userId !in next
            case Some(r) => userId in next && next[userId] == After(carried, r, at, cooldownMs)
  {
    if readings != [] {
      UsersIsolated(carried, readings[..|readings| - 1], at, cooldownMs, userId);
    }
  }

  function UserStamp(carried: Carried, userId: int, target: Target): Option<int> {
    Stamp(Previous(carried, userId), target)
  }

  /** The pass decides to enforce this target for this user. */
  predicate FiresNow(carried: Carried, pass: Pass, cooldownMs: int, userId: int, target: Target) {
    && pass.loaded.Some?
    && var r := ReadingOf(pass.loaded.value, userId);
    && r.Some? && r.value.quotas.Some?
    && Fires(r.value.quotas.value, Previous(carried, userId), pass.at, cooldownMs, target)
  }

  /** The user is loaded if anyone is, and its target is never found back under quota. */
  predicate StaysExhausted(pass: Pass, userId: int, target: Target) {
    pass.loaded.Some? ==>
      var r := ReadingOf(pass.loaded.value, userId);
      r.Some? && (r.value.quotas.Some? ==> !Cleared(r.value.quotas.value, target))
  }

  /** The trigger throws if it is given any of this user's decisions. */
  predicate TriggerThrows(pass: Pass, userId: int) {
    && pass.loaded.Some?
    && var r := ReadingOf(pass.loaded.value, userId);
    && r.Some? && r.value.triggerThrows
  }

  /** The evaluation succeeds and finds the target among the user's quotas. */
  predicate Evaluated(pass: Pass, userId: int, target: Target) {
    && pass.loaded.Some?
    && var r := ReadingOf(pass.loaded.value, userId);
    && r.Some? && r.value.quotas.Some? && Listed(r.value.quotas.value, target)
  }

  lemma EvaluationStamp(carried: Carried, pass: Pass, cooldownMs: int, userId: int, target: Target)
    requires Proper(pass) && pass.loaded.Some?
    ensures var r := ReadingOf(pass.loaded.value, userId);
            r.Some? && r.value.quotas.Some? ==>
              && r.value.userId == userId
              && Stamp(Outcome(carried, r.value, pass.at, cooldownMs).next, target)
                 == NextStamp(r.value.quotas.value, Previous(carried, userId), pass.at, cooldownMs, target)
              && (FiresNow(carried, pass, cooldownMs, userId, target) ==>
                    Outcome(carried, r.value, pass.at, cooldownMs).firing != [])
  {
    ReadingMember(pass.loaded.value, userId);
    var r := ReadingOf(pass.loaded.value, userId);
    if r.Some? && r.value.quotas.Some? {
      var quotas, last := r.value.quotas.value, Previous(carried, userId);
      EvaluateMeaning(quotas, last, pass.at, cooldownMs, target);
      if FiresNow(carried, pass, cooldownMs, userId, target) {
        var fires := FiringQuota(last, pass.at, cooldownMs);
        var i :| 0 <= i < |quotas| && quotas[i].target == target && fires(quotas[i]);
        FilterMember(fires, quotas, quotas[i]);
      }
    }
  }

  /** While a target stays exhausted its stamp moves exactly when it fires and the trigger does not throw. */
  lemma PassStamp(carried: Carried, pass: Pass, cooldownMs: int, userId: int, target: Target)
    requires Proper(pass) && StaysExhausted(pass, userId, target)
    ensures var fires := FiresNow(carried, pass, cooldownMs, userId, target);
            UserStamp(Tick(carried, pass, cooldownMs), userId, target)
            == if fires && !TriggerThrows(pass, userId) then Some(pass.at) else UserStamp(carried, userId, target)
  {
    if pass.loaded.Some? {
      UsersIsolated(carried, pass.loaded.value, pass.at, cooldownMs, userId);
      EvaluationStamp(carried, pass, cooldownMs, userId, target);
      ReadingMember(pass.loaded.value, userId);
    }
  }

  /** It fires exactly when evaluated out of its cool-down. */
  lemma FiresWhenNotCooling(carried: Carried, pass: Pass, cooldownMs: int, userId: int, target: Target)
    requires StaysExhausted(pass, userId, target)
    ensures var before := UserStamp(carried, userId, target);
            FiresNow(carried, pass, cooldownMs, userId, target)
            <==> Evaluated(pass, userId, target) && (before.Some? ==> pass.at - before.value >= cooldownMs)
  {
    if Evaluated(pass, userId, target) {
      var quotas := ReadingOf(pass.loaded.value, userId).value.quotas.value;
      var i :| 0 <= i < |quotas| && quotas[i].target == target;
      assert Exhausted(quotas[i]);
    }
  }

  // ----- what the trigger is given -----

  /** The pass hands this user's decision about the target over. */
  ghost predicate HandsOver(handed: seq<Handover>, userId: int, target: Target, graceSeconds: int) {
    exists h, d :: h in handed && h.userId == userId && d in h.decisions
                   && d.target == target && d.graceSeconds == graceSeconds
  }

  lemma HandedAppend(handed: seq<Handover>, more: seq<Handover>, userId: int, target: Target, graceSeconds: int)
    ensures HandsOver(handed + more, userId, target, graceSeconds)
            <==> HandsOver(handed, userId, target, graceSeconds) || HandsOver(more, userId, target, graceSeconds)
  {
  }

  /**
   * The trigger is given a decision about a user's target exactly when the pass fires it,
   * and it carries that user's own grace period.
   */
  lemma HandedExactly(carried: Carried, pass: Pass, cooldownMs: int, userId: int, target: Target, graceSeconds: int)
    requires Proper(pass) && pass.loaded.Some?
    ensures HandsOver(HandedOver(carried, pass.loaded.value, pass.at, cooldownMs), userId, target, graceSeconds)
            <==> FiresNow(carried, pass, cooldownMs, userId, target)
                 && ReadingOf(pass.loaded.value, userId).value.graceSeconds == graceSeconds
  {
    HandedPrefix(carried, pass.loaded.value, pass.at, cooldownMs, userId, target, graceSeconds);
  }

  lemma {:induction false} HandedPrefix(
    carried: Carried, readings: seq<Reading>, at: int, cooldownMs: int,
    userId: int, target: Target, graceSeconds: int)
    requires Proper(Pass(at, Some(readings)))
    ensures HandsOver(HandedOver(carried, readings, at, cooldownMs), userId, target, graceSeconds)
            <==> FiresNow(carried, Pass(at, Some(readings)), cooldownMs, userId, target)
                 && ReadingOf(readings, userId).value.graceSeconds == graceSeconds
  {
    if readings != [] {
      var n := |readings| - 1;
      var init, r := readings[..n], readings[n];
      HandedPrefix(carried, init, at, cooldownMs, userId, target, graceSeconds);
      OneHanded(carried, r, at, cooldownMs, userId, target, graceSeconds);
      var one := if HandedFor(carried, r, at, cooldownMs) != []
                 then [Handover(r.userId, HandedFor(carried, r, at, cooldownMs))] else [];
      HandedAppend(HandedOver(carried, init, at, cooldownMs), one, userId, target, graceSeconds);
      if r.userId == userId {
        NotRead(init, userId);
      }
    }
  }

  lemma {:induction false} NotRead(readings: seq<Reading>, userId: int)
    requires forall i | 0 <= i < |readings| :: readings[i].userId != userId
    ensures ReadingOf(readings, userId).None?
  {
    if readings != [] {
      NotRead(readings[..|readings| - 1], userId);
    }
  }

  lemma OneHanded(
    carried: Carried, r: Reading, at: int, cooldownMs: int, userId: int, target: Target, graceSeconds: int)
    requires r.quotas.Some? ==> Distinct(r.quotas.value)
    ensures var decisions := HandedFor(carried, r, at, cooldownMs);
            var one := if decisions != [] then [Handover(r.userId, decisions)] else [];
            HandsOver(one, userId, target, graceSeconds)
            <==> && r.userId == userId && r.quotas.Some? && r.graceSeconds == graceSeconds
                 && Fires(r.quotas.value, Previous(carried, userId), at, cooldownMs, target)
  {
    var decisions := HandedFor(carried, r, at, cooldownMs);
    var one := if decisions != [] then [Handover(r.userId, decisions)] else [];
    if r.quotas.Some? {
      var quotas, last := r.quotas.value, Previous(carried, r.userId);
      DecisionsMeaning(quotas, last, at, r.graceSeconds, cooldownMs, target);
      forall i | 0 <= i < |decisions| ensures decisions[i].graceSeconds == r.graceSeconds {
        DecisionsCarry(quotas, last, at, r.graceSeconds, cooldownMs, i);
      }
      hide Decisions, Evaluate;
      if i :| 0 <= i < |decisions| && decisions[i].target == target {
        assert one[0] in one && decisions[i] in one[0].decisions;
      }
    }
  }

  // ----- runs of passes -----

  function FireTimes(carried: Carried, passes: seq<Pass>, cooldownMs: int, userId: int, target: Target): seq<int>
    decreases |passes|
  {
    if passes == [] then []
    else
      (if FiresNow(carried, passes[0], cooldownMs, userId, target) then [passes[0].at] else [])
      + FireTimes(Tick(carried, passes[0], cooldownMs), passes[1..], cooldownMs, userId, target)
  }

  /** Each instant is at least `gap` after the one before it. */
  ghost predicate Spaced(times: seq<int>, gap: int) {
    forall i | 0 < i < |times| :: SpacedAt(times, gap, i)
  }

  ghost predicate SpacedAt(times: seq<int>, gap: int, i: int) {
    0 < i < |times| ==> times[i] - times[i - 1] >= gap
  }

  lemma SpacedPrepend(time: int, times: seq<int>, gap: int)
    ensures Spaced([time] + times, gap) <==> Spaced(times, gap) && (times != [] ==> times[0] - time >= gap)
  {
    var all := [time] + times;
    if Spaced(times, gap) && (times != [] ==> times[0] - time >= gap) {
      forall i | 0 < i < |all| ensures SpacedAt(all, gap, i) {
        assert SpacedAt(times, gap, i - 1);
      }
    }
    if Spaced(all, gap) {
      assert times != [] ==> SpacedAt(all, gap, 1);
      forall i | 0 < i < |times| ensures SpacedAt(times, gap, i) {
        assert SpacedAt(all, gap, i + 1);
      }
    }
  }

  ghost predicate Steady(passes: seq<Pass>, userId: int, target: Target) {
    forall i | 0 <= i < |passes| :: Proper(passes[i]) && StaysExhausted(passes[i], userId, target)
  }

  /** No pass that fires the target has its trigger throw. */
  ghost predicate ForgetsNothing(carried: Carried, passes: seq<Pass>, cooldownMs: int, userId: int, target: Target)
    decreases |passes|
  {
    passes == []
    || (!(FiresNow(carried, passes[0], cooldownMs, userId, target) && TriggerThrows(passes[0], userId))
        && ForgetsNothing(Tick(carried, passes[0], cooldownMs), passes[1..], cooldownMs, userId, target))
  }

  /** When the target is next evaluated. */
  function NextEvaluation(passes: seq<Pass>, userId: int, target: Target): Option<int> {
    if passes == [] then None
    else if Evaluated(passes[0], userId, target) then Some(passes[0].at)
    else NextEvaluation(passes[1..], userId, target)
  }

  /** After every fire whose trigger throws, the target is not evaluated again inside the cool-down. */
  ghost predicate ForgetsHarmlessly(carried: Carried, passes: seq<Pass>, cooldownMs: int, userId: int, target: Target)
    decreases |passes|
  {
    passes == []
    || (&& (FiresNow(carried, passes[0], cooldownMs, userId, target) && TriggerThrows(passes[0], userId) ==>
              var next := NextEvaluation(passes[1..], userId, target);
              next.Some? ==> next.value - passes[0].at >= cooldownMs)
        && ForgetsHarmlessly(Tick(carried, passes[0], cooldownMs), passes[1..], cooldownMs, userId, target))
  }

  /** The first fire of a run waits for the cool-down it starts with, whatever throws. */
  lemma {:induction false} FirstFire(carried: Carried, passes: seq<Pass>, cooldownMs: int, userId: int, target: Target)
    requires Steady(passes, userId, target)
    ensures var times := FireTimes(carried, passes, cooldownMs, userId, target);
            var before := UserStamp(carried, userId, target);
            times != [] && before.Some? ==> times[0] - before.value >= cooldownMs
    decreases |passes|
  {
    if passes != [] {
      var next := Tick(carried, passes[0], cooldownMs);
      PassStamp(carried, passes[0], cooldownMs, userId, target);
      FiresWhenNotCooling(carried, passes[0], cooldownMs, userId, target);
      FirstFire(next, passes[1..], cooldownMs, userId, target);
    }
  }

  /**
   * While a user stays loaded and a target exhausted, and no fire of it is forgotten, its
   * fires are at least the cool-down apart, even when evaluations, loads and the trigger on
   * other targets throw and the clock jumps back.
   */
  lemma {:induction false} FiresApart(carried: Carried, passes: seq<Pass>, cooldownMs: int, userId: int, target: Target)
    requires Steady(passes, userId, target) && ForgetsNothing(carried, passes, cooldownMs, userId, target)
    ensures Spaced(FireTimes(carried, passes, cooldownMs, userId, target), cooldownMs)
    decreases |passes|
  {
    if passes != [] {
      var next := Tick(carried, passes[0], cooldownMs);
      var rest := FireTimes(next, passes[1..], cooldownMs, userId, target);
      PassStamp(carried, passes[0], cooldownMs, userId, target);
      FirstFire(next, passes[1..], cooldownMs, userId, target);
      FiresApart(next, passes[1..], cooldownMs, userId, target);
      SpacedPrepend(passes[0].at, rest, cooldownMs);
      assert [] + rest == rest;
    }
  }

  /** The clock does not go back, and the first reading is not before `from`. */
  ghost predicate Ordered(passes: seq<Pass>, from: int) {
    && (forall i | 0 <= i < |passes| :: from <= passes[i].at)
    && forall i, j | 0 <= i < j < |passes| :: passes[i].at <= passes[j].at
  }

  /** A target out of its cool-down fires at its next evaluation. */
  lemma {:induction false} FiresAtNextEvaluation(
    carried: Carried, passes: seq<Pass>, cooldownMs: int, userId: int, target: Target, from: int)
    requires Steady(passes, userId, target) && Ordered(passes, from)
    requires var before := UserStamp(carried, userId, target); before.Some? ==> from - before.value >= cooldownMs
    ensures var times := FireTimes(carried, passes, cooldownMs, userId, target);
            NextEvaluation(passes, userId, target) == if times == [] then None else Some(times[0])
    decreases |passes|
  {
    if passes != [] {
      var next := Tick(carried, passes[0], cooldownMs);
      PassStamp(carried, passes[0], cooldownMs, userId, target);
      FiresWhenNotCooling(carried, passes[0], cooldownMs, userId, target);
      if !FiresNow(carried, passes[0], cooldownMs, userId, target) {
        FiresAtNextEvaluation(next, passes[1..], cooldownMs, userId, target, from);
      }
    }
  }

  /**
   * Under a clock that does not go back, the spacing holds over a run exactly when no fire
   * whose trigger threw is followed, inside the cool-down, by an evaluation of its target.
   */
  lemma {:induction false} SpacedExactly(
    carried: Carried, passes: seq<Pass>, cooldownMs: int, userId: int, target: Target, from: int)
    requires Steady(passes, userId, target) && Ordered(passes, from)
    ensures Spaced(FireTimes(carried, passes, cooldownMs, userId, target), cooldownMs)
            <==> ForgetsHarmlessly(carried, passes, cooldownMs, userId, target)
    decreases |passes|
  {
    if passes != [] {
      var at, next := passes[0].at, Tick(carried, passes[0], cooldownMs);
      var rest := FireTimes(next, passes[1..], cooldownMs, userId, target);
      SpacedExactly(next, passes[1..], cooldownMs, userId, target, from);
      SpacedPrepend(at, rest, cooldownMs);
      assert [] + rest == rest;
      if FiresNow(carried, passes[0], cooldownMs, userId, target) {
        PassStamp(carried, passes[0], cooldownMs, userId, target);
        FiresWhenNotCooling(carried, passes[0], cooldownMs, userId, target);
        if TriggerThrows(passes[0], userId) {
          FiresAtNextEvaluation(next, passes[1..], cooldownMs, userId, target, at);
        } else {
          FirstFire(next, passes[1..], cooldownMs, userId, target);
        }
      }
    }
  }

  lemma {:induction false} FiresArePasses(
    carried: Carried, passes: seq<Pass>, cooldownMs: int, userId: int, target: Target, first: int, last: int)
    requires forall i | 0 <= i < |passes| :: first <= passes[i].at <= last
    ensures forall t | t in FireTimes(carried, passes, cooldownMs, userId, target) :: first <= t <= last
    decreases |passes|
  {
    if passes != [] {
      FiresArePasses(Tick(carried, passes[0], cooldownMs), passes[1..], cooldownMs, userId, target, first, last);
    }
  }

  lemma {:induction false} SpacedSpan(times: seq<int>, gap: int)
    requires Spaced(times, gap) && times != []
    ensures times[|times| - 1] - times[0] >= (|times| - 1) * gap
  {
    if |times| > 1 {
      var init := times[..|times| - 1];
      forall i | 0 < i < |init| ensures SpacedAt(init, gap, i) {
        assert SpacedAt(times, gap, i);
      }
      SpacedSpan(init, gap);
      assert SpacedAt(times, gap, |times| - 1);
      assert (|times| - 1) * gap == (|times| - 2) * gap + gap;
    }
  }

  /** So over passes inside `[first, last]` a target fires at most once per started cool-down. */
  lemma FireCount(
    carried: Carried, passes: seq<Pass>, cooldownMs: int, userId: int, target: Target, first: int, last: int)
    requires cooldownMs > 0 && first <= last && Steady(passes, userId, target)
    requires forall i | 0 <= i < |passes| :: first <= passes[i].at <= last
    requires || ForgetsNothing(carried, passes, cooldownMs, userId, target)
             || (Ordered(passes, first) && ForgetsHarmlessly(carried, passes, cooldownMs, userId, target))
    ensures |FireTimes(carried, passes, cooldownMs, userId, target)| <= (last - first) / cooldownMs + 1
  {
    hide FireTimes, Spaced;
    if ForgetsNothing(carried, passes, cooldownMs, userId, target) {
      FiresApart(carried, passes, cooldownMs, userId, target);
    } else {
      SpacedExactly(carried, passes, cooldownMs, userId, target, first);
    }
    FiresArePasses(carried, passes, cooldownMs, userId, target, first, last);
    SpacedCount(FireTimes(carried, passes, cooldownMs, userId, target), cooldownMs, first, last);
  }

  lemma SpacedCount(times: seq<int>, gap: int, first: int, last: int)
    requires gap > 0 && first <= last && Spaced(times, gap) && forall t | t in times :: first <= t <= last
    ensures |times| <= (last - first) / gap + 1
  {
    if times != [] {
      SpacedSpan(times, gap);
      assert times[0] in times && times[|times| - 1] in times;
      DivisionBound(last - first, |times| - 1, gap);
    }
  }

  lemma DivisionBound(span: int, n: int, gap: int)
    requires gap > 0 && n * gap <= span
    ensures n <= span / gap
  {
    var q := span / gap;
    assert span < (q + 1) * gap;
    if n > q {
      Multiples(q + 1, n, gap);
    }
  }

  lemma Multiples(a: int, b: int, gap: int)
    requires a <= b && gap > 0
    ensures a * gap <= b * gap
  {
  }

  // ----- a trigger that throws -----

  /**
   * After a pass that fires a target, the next pass inside the cool-down fires it again
   * exactly when the trigger threw on it: the throw undoes the stamp.
   */
  lemma RefiresExactlyAfterThrow(
    carried: Carried, pass: Pass, next: Pass, cooldownMs: int, userId: int, target: Target)
    requires Proper(pass) && Proper(next)
    requires FiresNow(carried, pass, cooldownMs, userId, target)
    requires next.loaded.Some? && pass.at <= next.at < pass.at + cooldownMs
    requires var r := ReadingOf(next.loaded.value, userId);
             r.Some? && r.value.quotas.Some?
             && Listed(r.value.quotas.value, target) && !Cleared(r.value.quotas.value, target)
    ensures FiresNow(Tick(carried, pass, cooldownMs), next, cooldownMs, userId, target)
            <==> ReadingOf(pass.loaded.value, userId).value.triggerThrows
  {
    UsersIsolated(carried, pass.loaded.value, pass.at, cooldownMs, userId);
    EvaluationStamp(carried, pass, cooldownMs, userId, target);
    ReadingMember(pass.loaded.value, userId);
    var after := Tick(carried, pass, cooldownMs);
    var quotas := ReadingOf(next.loaded.value, userId).value.quotas.value;
    var i :| 0 <= i < |quotas| && quotas[i].target == target;
    assert Exhausted(quotas[i]);
    assert FiresNow(after, next, cooldownMs, userId, target)
           <==> !Cooling(Previous(after, userId), target, next.at, cooldownMs);
    assert !Cooling(Previous(carried, userId), target, pass.at, cooldownMs);
  }

  const EXHAUSTED := Quota(Target(Activity, 1), 60.0, 61.0)

  /** A minute's cool-down, and two fires one second apart because the trigger threw. */
  lemma ThrowForgetsFire()
    ensures var first := Pass(0, Some([Reading(7, Some([EXHAUSTED]), 30, true)]));
            var second := Pass(1000, Some([Reading(7, Some([EXHAUSTED]), 30, false)]));
            FireTimes(map[], [first, second], 60000, 7, EXHAUSTED.target) == [0, 1000]
  {
    var first := Pass(0, Some([Reading(7, Some([EXHAUSTED]), 30, true)]));
    var second := Pass(1000, Some([Reading(7, Some([EXHAUSTED]), 30, false)]));
    assert [EXHAUSTED][0] == EXHAUSTED;
    assert FiresNow(map[], first, 60000, 7, EXHAUSTED.target);
    RefiresExactlyAfterThrow(map[], first, second, 60000, 7, EXHAUSTED.target);
    var after := Tick(map[], first, 60000);
    assert [first, second][1..] == [second];
    assert FireTimes(after, [second], 60000, 7, EXHAUSTED.target) == [1000];
  }
}
