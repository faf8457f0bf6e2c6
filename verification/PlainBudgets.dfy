// What the weekday layer selects and what a day's allowances come to, row by row: no
// slots, no grouping, and every mask read as a set of days.

module PlainBudgets {
  import opened Common
  import opened BudgetWindow
  import opened SchedulePrecedence
  import opened Resolve
  import opened Weekdays
  import opened Budgets
  import opened EffectivePolicy

  /** The storage rule for masks. */
  ghost predicate MasksStored(budgets: seq<BudgetInput>) {
    forall b | b in budgets && b.recurrenceDays.Some? :: 0 <= b.recurrenceDays.value <= 127
  }

  /** The row has days of its own, and the weekday (1 to 7) is one of them. */
  ghost predicate NamesDay(b: BudgetInput, weekday: int) {
    b.recurrenceDays.Some? && InWeek(b.recurrenceDays.value, weekday - 1)
  }

  predicate Alike(a: BudgetInput, b: BudgetInput) {
    a.scope == b.scope && a.window == b.window && a.targetId == b.targetId
  }

  /** The row names the weekday; or it names no days, and no row for the same thing names this one. */
  ghost predicate InPlayOn(budgets: seq<BudgetInput>, weekday: int, row: BudgetInput) {
    || NamesDay(row, weekday)
    || (row.recurrenceDays.None? && forall other | other in budgets && Alike(other, row) :: !NamesDay(other, weekday))
  }

  ghost function KeptOn(budgets: seq<BudgetInput>, weekday: int): BudgetInput -> bool {
    row => InPlayOn(budgets, weekday, row)
  }

  lemma NamesDayReading(budgets: seq<BudgetInput>, b: BudgetInput, weekday: int)
    requires MasksStored(budgets) && b in budgets && 1 <= weekday <= 7
    ensures WeekdaySpecific(weekday)(b) <==> NamesDay(b, weekday)
  {
    if b.recurrenceDays.Some? {
      MaskInWeekday(b.recurrenceDays.value, weekday);
    }
  }

  /** A slot's rows in play are its kept rows, in their own order. */
  lemma InPlayIsKept(budgets: seq<BudgetInput>, weekday: int, slot: Slot)
    requires MasksStored(budgets) && 1 <= weekday <= 7
    ensures InPlay(Filter(InSlot(slot), budgets), weekday)
            == Filter(KeptOn(budgets, weekday), Filter(InSlot(slot), budgets))
  {
    var rows := Filter(InSlot(slot), budgets);
    var specific := Filter(WeekdaySpecific(weekday), rows);
    hide Filter, NamesDay, MaskCovers;
    forall row | row in rows
      ensures row in budgets && BudgetSlotKey(row) == slot
      ensures WeekdaySpecific(weekday)(row) <==> NamesDay(row, weekday) {
      FilterMember(InSlot(slot), budgets, row);
      NamesDayReading(budgets, row, weekday);
    }
    if specific != [] {
      var own := specific[0];
      FilterMember(WeekdaySpecific(weekday), rows, own);
      forall row | row in rows ensures WeekdaySpecific(weekday)(row) == KeptOn(budgets, weekday)(row) {
        assert Alike(own, row);
      }
      FilterAgree(WeekdaySpecific(weekday), KeptOn(budgets, weekday), rows);
    } else {
      forall row | row in rows ensures Uniform(row) == KeptOn(budgets, weekday)(row) {
        FilterMember(WeekdaySpecific(weekday), rows, row);
        forall other | other in budgets && Alike(other, row) ensures !NamesDay(other, weekday) {
          FilterMember(InSlot(slot), budgets, other);
          FilterMember(WeekdaySpecific(weekday), rows, other);
        }
      }
      FilterAgree(Uniform, KeptOn(budgets, weekday), rows);
    }
  }

  lemma {:induction false} FilterCount<T>(keep: T -> bool, s: seq<T>, x: T)
    ensures multiset(Filter(keep, s))[x] == if keep(x) then multiset(s)[x] else 0
  {
    if s != [] {
      FilterCount(keep, s[1..], x);
      assert s == [s[0]] + s[1..];
    }
  }

  /** What the selection is: every row in play as often as it is stored, and rows for one thing in stored order. */
  lemma SelectionMeaning(budgets: seq<BudgetInput>, selected: seq<BudgetInput>, weekday: int, row: BudgetInput)
    requires MasksStored(budgets) && 1 <= weekday <= 7
    requires forall slot :: Filter(InSlot(slot), selected) == InPlay(Filter(InSlot(slot), budgets), weekday)
    ensures multiset(selected)[row] == if InPlayOn(budgets, weekday, row) then multiset(budgets)[row] else 0
    ensures Filter(other => Alike(other, row), selected)
            == Filter(KeptOn(budgets, weekday), Filter(other => Alike(other, row), budgets))
  {
    var slot := Slot(row.scope, row.window, row.targetId);
    InPlayIsKept(budgets, weekday, slot);
    FilterCount(InSlot(slot), selected, row);
    FilterCount(InSlot(slot), budgets, row);
    FilterCount(KeptOn(budgets, weekday), Filter(InSlot(slot), budgets), row);
    FilterAgree(InSlot(slot), other => Alike(other, row), selected);
    FilterAgree(InSlot(slot), other => Alike(other, row), budgets);
  }

  // ----- allowances -----

  /** The seconds of the rows that satisfy `p`. */
  ghost function SecondsOf(budgets: seq<BudgetInput>, p: BudgetInput -> bool): int {
    if budgets == [] then 0 else (if p(budgets[0]) then budgets[0].secondsAllowed else 0) + SecondsOf(budgets[1..], p)
  }

  ghost function GrantedBy(grants: seq<GrantInput>, p: GrantInput -> bool): int {
    if grants == [] then 0 else (if p(grants[0]) then grants[0].secondsGranted else 0) + GrantedBy(grants[1..], p)
  }

  /** Not revoked, and its life meets the day. */
  predicate LiveOn(g: GrantInput, from: int, to: int) {
    g.revokedAt.None? && g.grantedAt < to && from < g.expiresAt
  }

  lemma {:induction false} FilteredSeconds(budgets: seq<BudgetInput>, p: BudgetInput -> bool, q: BudgetInput -> bool)
    ensures SumAllowed(Filter(p, Filter(q, budgets))) == SecondsOf(budgets, b => p(b) && q(b))
    ensures Filter(p, Filter(q, budgets)) != [] <==> exists b :: b in budgets && p(b) && q(b)
  {
    if budgets != [] {
      FilteredSeconds(budgets[1..], p, q);
      assert budgets == [budgets[0]] + budgets[1..];
      var rest := Filter(q, budgets[1..]);
      if q(budgets[0]) {
        assert Filter(q, budgets) == [budgets[0]] + rest;
        FilterCons(p, budgets[0], rest);
        assert [] + Filter(p, rest) == Filter(p, rest);
      } else {
        assert Filter(q, budgets) == rest;
      }
    }
  }

  lemma {:induction false} SameSeconds(budgets: seq<BudgetInput>, p: BudgetInput -> bool, q: BudgetInput -> bool)
    requires forall i | 0 <= i < |budgets| :: p(budgets[i]) == q(budgets[i])
    ensures SecondsOf(budgets, p) == SecondsOf(budgets, q)
  {
    if budgets != [] {
      SameSeconds(budgets[1..], p, q);
    }
  }

  lemma {:induction false} GrantsPlainly(
    grants: seq<GrantInput>, applies: GrantInput -> bool, p: GrantInput -> bool, from: int, to: int)
    requires forall i | 0 <= i < |grants| :: p(grants[i]) == (applies(grants[i]) && LiveOn(grants[i], from, to))
    ensures SumGrants(grants, applies, from, to) == GrantedBy(grants, p)
  {
    if grants != [] {
      GrantsPlainly(grants[1..], applies, p, from, to);
    }
  }

  /** A row of a daily allowance in play: of overall time, or of one activity or group. */
  ghost predicate Counts(budgets: seq<BudgetInput>, weekday: int, b: BudgetInput, scope: Scope, targetId: Option<int>) {
    b.scope == scope && b.targetId == targetId && b.window.Daily? && InPlayOn(budgets, weekday, b)
  }

  predicate Adds(g: GrantInput, scope: Scope, targetId: Option<int>, from: int, to: int) {
    g.scope == scope && (scope.Overall? || g.targetId == targetId) && LiveOn(g, from, to)
  }

  /** The rows in play of one daily slot, summed over the stored rows. */
  lemma SlotSeconds(budgets: seq<BudgetInput>, weekday: int, scope: Scope, targetId: Option<int>)
    requires MasksStored(budgets) && 1 <= weekday <= 7
    ensures var rows := InPlay(Filter(InSlot(Slot(scope, Daily, targetId)), budgets), weekday);
            && (rows != [] <==> exists b :: b in budgets && Counts(budgets, weekday, b, scope, targetId))
            && SumAllowed(rows) == SecondsOf(budgets, b => Counts(budgets, weekday, b, scope, targetId))
  {
    var slot := Slot(scope, Daily, targetId);
    InPlayIsKept(budgets, weekday, slot);
    FilteredSeconds(budgets, KeptOn(budgets, weekday), InSlot(slot));
    hide InPlay, Filter, InPlayOn;
    var p: BudgetInput -> bool := b => KeptOn(budgets, weekday)(b) && InSlot(slot)(b);
    var q: BudgetInput -> bool := b => Counts(budgets, weekday, b, scope, targetId);
    SameSeconds(budgets, p, q);
    assert forall b :: p(b) == q(b);
  }

  /**
   * The overall allowance of a day: none without a daily overall row in play; else the
   * seconds of all such rows and of the live overall grants.
   */
  lemma OverallPlainly(budgets: seq<BudgetInput>, weekday: int, grants: seq<GrantInput>, from: int, to: int)
    requires MasksStored(budgets) && 1 <= weekday <= 7
    ensures DayOverallSeconds(budgets, weekday, grants, from, to)
            == if exists b :: b in budgets && Counts(budgets, weekday, b, Overall, None)
               then Some(SecondsOf(budgets, b => Counts(budgets, weekday, b, Overall, None))
                         + GrantedBy(grants, g => Adds(g, Overall, None, from, to)))
               else None
  {
    SlotSeconds(budgets, weekday, Overall, None);
    GrantsPlainly(grants, OverallGrant, g => Adds(g, Overall, None, from, to), from, to);
  }

  /**
   * The quota of an activity or group: it exists exactly when a daily row of it is in play,
   * and is worth all such rows and the live grants of the same target.
   */
  lemma QuotaPlainly(
    quotas: seq<ActivityQuota>, budgets: seq<BudgetInput>, weekday: int, grants: seq<GrantInput>, from: int, to: int,
    target: Target)
    requires MasksStored(budgets) && 1 <= weekday <= 7 && !target.scope.Overall?
    requires DayQuotas(quotas, budgets, weekday, grants, from, to)
    ensures (exists i :: 0 <= i < |quotas| && quotas[i].target == target)
            <==> exists b :: b in budgets && Counts(budgets, weekday, b, target.scope, Some(target.id))
    ensures forall i | 0 <= i < |quotas| && quotas[i].target == target ::
              quotas[i].seconds == SecondsOf(budgets, b => Counts(budgets, weekday, b, target.scope, Some(target.id)))
                                   + GrantedBy(grants, g => Adds(g, target.scope, Some(target.id), from, to))
  {
    SlotSeconds(budgets, weekday, target.scope, Some(target.id));
    GrantsPlainly(grants, GrantFor(target), g => Adds(g, target.scope, Some(target.id), from, to), from, to);
  }

  /** Quotas come activities first, and by ascending id within each kind. */
  lemma QuotaOrder(
    quotas: seq<ActivityQuota>, budgets: seq<BudgetInput>, weekday: int, grants: seq<GrantInput>, from: int, to: int,
    i: nat, j: nat)
    requires 1 <= weekday <= 7 && DayQuotas(quotas, budgets, weekday, grants, from, to) && i < j < |quotas|
    ensures var a, b := quotas[i].target, quotas[j].target;
            || (a.scope == Activity && b.scope == Group)
            || (a.scope == b.scope && a.id < b.id)
  {
    assert !quotas[i].target.scope.Overall? && !quotas[j].target.scope.Overall?;
  }
}
