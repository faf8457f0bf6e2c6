// Budgets: inheritance from groups, the weekday layer, and the day's quotas with
// additive grants.

module Budgets {
  import opened Common
  import opened BudgetWindow
  import opened SchedulePrecedence
  import opened Resolve

  datatype BudgetInput = BudgetInput(
    scope: Scope, targetId: Option<int>, window: WindowKind, secondsAllowed: int, recurrenceDays: Option<int>)

  datatype GrantInput = GrantInput(
    scope: Scope, targetId: Option<int>, secondsGranted: int, grantedAt: int, expiresAt: int, revokedAt: Option<int>)

  datatype Slot = Slot(scope: Scope, window: WindowKind, targetId: Option<int>)

  function BudgetSlotKey(budget: BudgetInput): Slot {
    Slot(budget.scope, budget.window, budget.targetId)
  }

  function InSlot(slot: Slot): BudgetInput -> bool {
    (budget: BudgetInput) => BudgetSlotKey(budget) == slot
  }

  // ----- inheritance: each slot has exactly one source -----

  datatype GatheredBudget = GatheredBudget(budget: BudgetInput, source: RuleSource)

  datatype UserGroup = UserGroup(id: int, budgets: seq<BudgetInput>)

  function Tag(source: RuleSource, rows: seq<BudgetInput>): seq<GatheredBudget> {
    Map(budget => GatheredBudget(budget, source), rows)
  }

  function GatheredIn(slot: Slot): GatheredBudget -> bool {
    (row: GatheredBudget) => BudgetSlotKey(row.budget) == slot
  }

  /** The first group, in the given (ascending id) order, that defines the slot supplies it whole. */
  function GroupRows(slot: Slot, groups: seq<UserGroup>): seq<GatheredBudget> {
    if groups == [] then []
    else
      var rows := Filter(InSlot(slot), groups[0].budgets);
      if rows != [] then Tag(FromGroup(groups[0].id), rows) else GroupRows(slot, groups[1..])
  }

  /** The one source of a slot: the user's own rows, else the first group that defines it. */
  function SlotRows(slot: Slot, own: seq<BudgetInput>, groups: seq<UserGroup>): seq<GatheredBudget> {
    var mine := Filter(InSlot(slot), own);
    if mine != [] then Tag(FromUser, mine) else GroupRows(slot, groups)
  }

  predicate Defines(slot: Slot, rows: seq<BudgetInput>) {
    exists i | 0 <= i < |rows| :: BudgetSlotKey(rows[i]) == slot
  }

  lemma {:induction false} DefinesFilter(slot: Slot, rows: seq<BudgetInput>)
    ensures Defines(slot, rows) <==> Filter(InSlot(slot), rows) != []
  {
    var kept := Filter(InSlot(slot), rows);
    if Defines(slot, rows) {
      var i :| 0 <= i < |rows| && BudgetSlotKey(rows[i]) == slot;
      FilterMember(InSlot(slot), rows, rows[i]);
    }
    if kept != [] {
      FilterMember(InSlot(slot), rows, kept[0]);
    }
  }

  lemma FilterAppend<T>(keep: T -> bool, s: seq<T>, x: T)
    ensures Filter(keep, s + [x]) == if keep(x) then Filter(keep, s) + [x] else Filter(keep, s)
  {
    FilterConcat(keep, s, [x]);
    assert [x][1..] == [];
    assert Filter(keep, s) + [] == Filter(keep, s);
  }

  function GroupRowsOf(slot: Slot, group: UserGroup, rows: seq<BudgetInput>): seq<GatheredBudget> {
    Tag(FromGroup(group.id), Filter(InSlot(slot), rows))
  }

  lemma {:induction false} GroupRowsAppend(slot: Slot, groups: seq<UserGroup>, group: UserGroup)
    ensures GroupRows(slot, groups + [group])
            == if GroupRows(slot, groups) != [] then GroupRows(slot, groups)
               else GroupRowsOf(slot, group, group.budgets)
  {
    if groups == [] {
      assert (groups + [group])[1..] == [];
    } else {
      assert (groups + [group])[1..] == groups[1..] + [group];
      GroupRowsAppend(slot, groups[1..], group);
    }
  }

  lemma GroupRowsStep(slot: Slot, group: UserGroup, rows: seq<BudgetInput>, row: BudgetInput)
    ensures GroupRowsOf(slot, group, rows + [row])
            == if BudgetSlotKey(row) == slot
              then GroupRowsOf(slot, group, rows) + [GatheredBudget(row, FromGroup(group.id))]
               else GroupRowsOf(slot, group, rows)
    ensures Defines(slot, rows + [row]) <==> Defines(slot, rows) || BudgetSlotKey(row) == slot
  {
    FilterAppend(InSlot(slot), rows, row);
    DefinesFilter(slot, rows);
    DefinesFilter(slot, rows + [row]);
  }

  /** What a result holds for a slot after inheriting `rows` of a group. */
  ghost predicate InheritedSoFar(
    extended: seq<GatheredBudget>, result: seq<GatheredBudget>, covered: set<Slot>, group: UserGroup,
    rows: seq<BudgetInput>, slot: Slot)
  {
    Filter(GatheredIn(slot), extended)
    == Filter(GatheredIn(slot), result) + if slot in covered then [] else GroupRowsOf(slot, group, rows)
  }

  lemma NothingInherited(result: seq<GatheredBudget>, covered: set<Slot>, group: UserGroup)
    ensures forall slot :: InheritedSoFar(result, result, covered, group, [], slot) && !Defines(slot, [])
  {
    forall slot ensures InheritedSoFar(result, result, covered, group, [], slot) {
      assert Filter(GatheredIn(slot), result) + [] == Filter(GatheredIn(slot), result);
    }
  }

  lemma InheritRow(
    extended: seq<GatheredBudget>, result: seq<GatheredBudget>, covered: set<Slot>, group: UserGroup,
    rows: seq<BudgetInput>, row: BudgetInput, slot: Slot)
    requires InheritedSoFar(extended, result, covered, group, rows, slot)
    ensures var more := if BudgetSlotKey(row) in covered then extended
                        else extended + [GatheredBudget(row, FromGroup(group.id))];
            InheritedSoFar(more, result, covered, group, rows + [row], slot)
  {
    GroupRowsStep(slot, group, rows, row);
    FilterAppend(GatheredIn(slot), extended, GatheredBudget(row, FromGroup(group.id)));
  }

  /** Inherit a group's rows for the slots not yet covered, and report the slots it contributed. */
  method InheritGroup(result: seq<GatheredBudget>, covered: set<Slot>, group: UserGroup)
    returns (extended: seq<GatheredBudget>, groupSlots: set<Slot>)
    ensures forall slot :: InheritedSoFar(extended, result, covered, group, group.budgets, slot)
    ensures forall slot :: slot in groupSlots <==> slot !in covered && Defines(slot, group.budgets)
  {
    extended := result;
    groupSlots := {};
    var rows := group.budgets;
    NothingInherited(result, covered, group);
    hide Filter, GroupRowsOf, Defines, InheritedSoFar;
    for i := 0 to |rows|
      invariant forall slot :: InheritedSoFar(extended, result, covered, group, rows[..i], slot)
      invariant forall slot :: slot in groupSlots <==> slot !in covered && Defines(slot, rows[..i])
    {
      var row := rows[i];
      assert rows[..i + 1] == rows[..i] + [row];
      forall slot ensures Defines(slot, rows[..i + 1]) <==> Defines(slot, rows[..i]) || BudgetSlotKey(row) == slot {
        GroupRowsStep(slot, group, rows[..i], row);
      }
      ghost var before := extended;
      if BudgetSlotKey(row) !in covered {
        extended := extended + [GatheredBudget(row, FromGroup(group.id))];
        groupSlots := groupSlots + {BudgetSlotKey(row)};
      }
      ghost var done := rows[..i + 1];
      forall slot ensures InheritedSoFar(extended, result, covered, group, done, slot) {
        InheritRow(before, result, covered, group, rows[..i], row, slot);
      }
    }
    assert rows[..|rows|] == rows;
  }

  /** What a result and its covered slots are after gathering a user's own `rows`. */
  ghost predicate OwnSoFar(result: seq<GatheredBudget>, covered: set<Slot>, rows: seq<BudgetInput>, slot: Slot) {
    && Filter(GatheredIn(slot), result) == Tag(FromUser, Filter(InSlot(slot), rows))
    && (slot in covered <==> Filter(InSlot(slot), rows) != [])
  }

  lemma OwnRow(result: seq<GatheredBudget>, covered: set<Slot>, rows: seq<BudgetInput>, row: BudgetInput, slot: Slot)
    requires OwnSoFar(result, covered, rows, slot)
    ensures OwnSoFar(result + [GatheredBudget(row, FromUser)], covered + {BudgetSlotKey(row)}, rows + [row], slot)
  {
    FilterAppend(GatheredIn(slot), result, GatheredBudget(row, FromUser));
    FilterAppend(InSlot(slot), rows, row);
  }

  method GatherOwn(own: seq<BudgetInput>) returns (result: seq<GatheredBudget>, covered: set<Slot>)
    ensures forall slot :: OwnSoFar(result, covered, own, slot)
  {
    result := [];
    covered := {};
    assert forall slot :: OwnSoFar(result, covered, [], slot);
    hide OwnSoFar, Filter, Tag;
    for i := 0 to |own|
      invariant forall slot :: OwnSoFar(result, covered, own[..i], slot)
    {
      ghost var before, done := result, covered;
      result := result + [GatheredBudget(own[i], FromUser)];
      covered := covered + {BudgetSlotKey(own[i])};
      ghost var next := own[..i + 1];
      assert next == own[..i] + [own[i]];
      forall slot ensures OwnSoFar(result, covered, next, slot) {
        OwnRow(before, done, own[..i], own[i], slot);
      }
    }
    assert own[..|own|] == own;
  }

  /** What a result and its covered slots are after the user's own rows and some `groups`. */
  ghost predicate MergedSoFar(
    result: seq<GatheredBudget>, covered: set<Slot>, own: seq<BudgetInput>, groups: seq<UserGroup>, slot: Slot)
  {
    && Filter(GatheredIn(slot), result) == SlotRows(slot, own, groups)
    && (slot in covered <==> SlotRows(slot, own, groups) != [])
  }

  lemma MergeGroup(
    result: seq<GatheredBudget>, covered: set<Slot>, own: seq<BudgetInput>, groups: seq<UserGroup>, group: UserGroup,
    extended: seq<GatheredBudget>, groupSlots: set<Slot>, slot: Slot)
    requires MergedSoFar(result, covered, own, groups, slot)
    requires InheritedSoFar(extended, result, covered, group, group.budgets, slot)
    requires slot in groupSlots <==> slot !in covered && Defines(slot, group.budgets)
    ensures MergedSoFar(extended, covered + groupSlots, own, groups + [group], slot)
  {
    GroupRowsAppend(slot, groups, group);
    DefinesFilter(slot, group.budgets);
  }

  /**
   * Own budgets first, then each group's for the slots still open. Read slot by slot,
   * the result is exactly the slot's one source, in that source's order.
   */
  method MergeBudgetsWithGroups(own: seq<BudgetInput>, groups: seq<UserGroup>) returns (result: seq<GatheredBudget>)
    ensures forall slot :: Filter(GatheredIn(slot), result) == SlotRows(slot, own, groups)
  {
    var covered: set<Slot>;
    result, covered := GatherOwn(own);
    forall slot ensures MergedSoFar(result, covered, own, [], slot) {
      assert OwnSoFar(result, covered, own, slot);
    }
    ghost var none := groups[..0];
    assert none == [];
    hide MergedSoFar, Filter, Defines, InheritedSoFar;
    for g := 0 to |groups|
      invariant forall slot :: MergedSoFar(result, covered, own, groups[..g], slot)
    {
      ghost var before, done := result, covered;
      var groupSlots;
      result, groupSlots := InheritGroup(result, covered, groups[g]);
      covered := covered + groupSlots;
      ghost var next := groups[..g + 1];
      assert next == groups[..g] + [groups[g]];
      forall slot ensures MergedSoFar(result, covered, own, next, slot) {
        MergeGroup(before, done, own, groups[..g], groups[g], result, groupSlots, slot);
      }
    }
    assert groups[..|groups|] == groups;
    forall slot ensures Filter(GatheredIn(slot), result) == SlotRows(slot, own, groups) {
      MergedIsSlotRows(result, covered, own, groups, slot);
    }
  }

  lemma MergedIsSlotRows(
    result: seq<GatheredBudget>, covered: set<Slot>, own: seq<BudgetInput>, groups: seq<UserGroup>, slot: Slot)
    requires MergedSoFar(result, covered, own, groups, slot)
    ensures Filter(GatheredIn(slot), result) == SlotRows(slot, own, groups)
  {
  }

  // ----- the weekday layer -----

  function WeekdaySpecific(weekday: int): BudgetInput -> bool
    requires 1 <= weekday <= 7
  {
    (b: BudgetInput) => b.recurrenceDays.Some? && MaskCovers(b.recurrenceDays.value, weekday)
  }

  function Uniform(b: BudgetInput): bool {
    b.recurrenceDays.None?
  }

  /** A slot's rows in play on a weekday: the weekday's own rows, else the uniform ones. */
  function InPlay(rows: seq<BudgetInput>, weekday: int): seq<BudgetInput>
    requires 1 <= weekday <= 7
  {
    var specific := Filter(WeekdaySpecific(weekday), rows);
    if specific != [] then specific else Filter(Uniform, rows)
  }

  lemma InPlayStaysInSlot(slot: Slot, other: Slot, rows: seq<BudgetInput>, weekday: int)
    requires 1 <= weekday <= 7
    requires forall row | row in rows :: BudgetSlotKey(row) == slot
    ensures Filter(InSlot(other), InPlay(rows, weekday)) == if slot == other then InPlay(rows, weekday) else []
  {
    var chosen := InPlay(rows, weekday);
    forall row | row in chosen ensures BudgetSlotKey(row) == slot {
      FilterMember(WeekdaySpecific(weekday), rows, row);
      FilterMember(Uniform, rows, row);
    }
    FilterAllOrNone(InSlot(other), chosen, slot == other);
  }

  lemma {:induction false} FilterAllOrNone<T>(keep: T -> bool, s: seq<T>, all: bool)
    requires forall x | x in s :: keep(x) == all
    ensures Filter(keep, s) == if all then s else []
  {
    if s != [] {
      FilterAllOrNone(keep, s[1..], all);
      assert s == [s[0]] + s[1..];
    }
  }

  lemma {:induction false} InPlayEmpty(weekday: int)
    requires 1 <= weekday <= 7
    ensures InPlay([], weekday) == []
  {
  }

  lemma SlotsAppend(budgets: seq<BudgetInput>, budget: BudgetInput)
    ensures forall slot :: Filter(InSlot(slot), budgets + [budget])
                           == if BudgetSlotKey(budget) == slot then Filter(InSlot(slot), budgets) + [budget]
                              else Filter(InSlot(slot), budgets)
  {
    forall slot ensures Filter(InSlot(slot), budgets + [budget])
                        == if BudgetSlotKey(budget) == slot then Filter(InSlot(slot), budgets) + [budget]
                           else Filter(InSlot(slot), budgets) {
      FilterAppend(InSlot(slot), budgets, budget);
    }
  }

  /** Appending one slot's rows in play adds them to that slot and leaves the others alone. */
  lemma SelectSlot(selected: seq<BudgetInput>, key: Slot, budgets: seq<BudgetInput>, weekday: int)
    requires 1 <= weekday <= 7
    ensures var rows := InPlay(Filter(InSlot(key), budgets), weekday);
            forall slot :: Filter(InSlot(slot), selected + rows)
                           == if slot == key then Filter(InSlot(slot), selected) + rows
                             else Filter(InSlot(slot), selected)
  {
    var rows := InPlay(Filter(InSlot(key), budgets), weekday);
    RowsOfSlot(key, budgets);
    forall slot ensures Filter(InSlot(slot), selected + rows)
                        == if slot == key then Filter(InSlot(slot), selected) + rows
                          else Filter(InSlot(slot), selected) {
      FilterConcat(InSlot(slot), selected, rows);
      InPlayStaysInSlot(key, slot, Filter(InSlot(key), budgets), weekday);
      assert Filter(InSlot(slot), selected) + [] == Filter(InSlot(slot), selected);
    }
  }

  /** Group the rows by slot, in a Map that keeps its keys in insertion order. */
  method GroupBySlot(budgets: seq<BudgetInput>) returns (keys: seq<Slot>, bySlot: map<Slot, seq<BudgetInput>>)
    ensures NoDuplicates(keys) && forall slot :: slot in keys <==> slot in bySlot
    ensures forall slot | slot in bySlot :: bySlot[slot] == Filter(InSlot(slot), budgets)
    ensures forall slot | slot !in bySlot :: Filter(InSlot(slot), budgets) == []
  {
    bySlot := map[];
    keys := [];
    assert forall slot :: Filter(InSlot(slot), []) == [];
    hide Filter;
    for i := 0 to |budgets|
      invariant NoDuplicates(keys) && forall slot :: slot in keys <==> slot in bySlot
      invariant forall slot | slot in bySlot :: bySlot[slot] == Filter(InSlot(slot), budgets[..i])
      invariant forall slot | slot !in bySlot :: Filter(InSlot(slot), budgets[..i]) == []
    {
      var budget := budgets[i];
      var key := BudgetSlotKey(budget);
      assert budgets[..i + 1] == budgets[..i] + [budget];
      SlotsAppend(budgets[..i], budget);
      if key !in bySlot {
        keys := keys + [key];
        bySlot := bySlot[key := [budget]];
      } else {
        bySlot := bySlot[key := bySlot[key] + [budget]];
      }
    }
    assert budgets[..|budgets|] == budgets;
  }

  /** For the slots done, the selection holds their rows in play; it holds nothing else. */
  ghost predicate SelectedFor(selected: seq<BudgetInput>, done: seq<Slot>, budgets: seq<BudgetInput>, weekday: int)
    requires 1 <= weekday <= 7
  {
    forall slot :: SelectedAt(selected, slot in done, budgets, weekday, slot)
  }

  ghost predicate SelectedAt(
    selected: seq<BudgetInput>, done: bool, budgets: seq<BudgetInput>, weekday: int, slot: Slot)
    requires 1 <= weekday <= 7
  {
    Filter(InSlot(slot), selected) == if done then InPlay(Filter(InSlot(slot), budgets), weekday) else []
  }

  lemma SelectedSlotStep(
    selected: seq<BudgetInput>, done: bool, key: Slot, budgets: seq<BudgetInput>, weekday: int, slot: Slot)
    requires 1 <= weekday <= 7 && SelectedAt(selected, done, budgets, weekday, slot) && (slot == key ==> !done)
    ensures var rows := InPlay(Filter(InSlot(key), budgets), weekday);
            SelectedAt(selected + rows, done || slot == key, budgets, weekday, slot)
  {
    SelectSlot(selected, key, budgets, weekday);
    hide InPlay, Filter;
    var rows := InPlay(Filter(InSlot(key), budgets), weekday);
    assert [] + rows == rows;
  }

  lemma SelectedStep(selected: seq<BudgetInput>, done: seq<Slot>, key: Slot, budgets: seq<BudgetInput>, weekday: int)
    requires 1 <= weekday <= 7 && SelectedFor(selected, done, budgets, weekday) && key !in done
    ensures SelectedFor(selected + InPlay(Filter(InSlot(key), budgets), weekday), done + [key], budgets, weekday)
  {
    var more := selected + InPlay(Filter(InSlot(key), budgets), weekday);
    hide SelectedAt, InPlay, Filter;
    forall slot ensures SelectedAt(more, slot in done + [key], budgets, weekday, slot) {
      SelectedSlotStep(selected, slot in done, key, budgets, weekday, slot);
    }
  }

  /** Reduce a budget list to the rows that apply on an ISO weekday, slot by slot. */
  method SelectBudgetsForWeekday(budgets: seq<BudgetInput>, weekday: int) returns (selected: seq<BudgetInput>)
    requires 1 <= weekday <= 7
    ensures forall slot :: Filter(InSlot(slot), selected) == InPlay(Filter(InSlot(slot), budgets), weekday)
  {
    var keys, bySlot := GroupBySlot(budgets);
    selected := [];
    for k := 0 to |keys|
      invariant SelectedFor(selected, keys[..k], budgets, weekday)
    {
      var rows := bySlot[keys[k]];
      ghost var before := selected;
      var specific := Filter(WeekdaySpecific(weekday), rows);
      if |specific| > 0 {
        selected := selected + specific;
      } else {
        selected := selected + Filter(Uniform, rows);
      }
      assert selected == before + InPlay(rows, weekday);
      assert keys[..k + 1] == keys[..k] + [keys[k]];
      assert keys[k] !in keys[..k];
      SelectedStep(before, keys[..k], keys[k], budgets, weekday);
    }
    assert keys[..|keys|] == keys;
    InPlayEmpty(weekday);
    forall slot ensures Filter(InSlot(slot), selected) == InPlay(Filter(InSlot(slot), budgets), weekday) {
      assert SelectedAt(selected, slot in keys, budgets, weekday, slot);
    }
  }

  lemma RowsOfSlot(slot: Slot, budgets: seq<BudgetInput>)
    ensures forall row | row in Filter(InSlot(slot), budgets) :: BudgetSlotKey(row) == slot
  {
    forall row | row in Filter(InSlot(slot), budgets) ensures BudgetSlotKey(row) == slot {
      FilterMember(InSlot(slot), budgets, row);
    }
  }

  // ----- quotas -----

  function SumAllowed(rows: seq<BudgetInput>): int {
    if rows == [] then 0 else rows[0].secondsAllowed + SumAllowed(rows[1..])
  }

  lemma {:induction false} SumAppend(rows: seq<BudgetInput>, row: BudgetInput)
    ensures SumAllowed(rows + [row]) == SumAllowed(rows) + row.secondsAllowed
  {
    if rows == [] {
      assert [row][1..] == [];
    } else {
      assert (rows + [row])[1..] == rows[1..] + [row];
      SumAppend(rows[1..], row);
    }
  }

  predicate GrantOverlapsDay(grant: GrantInput, dayStart: int, dayEnd: int) {
    grant.revokedAt.None? && grant.grantedAt < dayEnd && grant.expiresAt > dayStart
  }

  /** Seconds granted by the live grants of a scope and target that overlap the day. */
  function SumGrants(grants: seq<GrantInput>, applies: GrantInput -> bool, dayStart: int, dayEnd: int): int {
    if grants == [] then 0
    else
      (if applies(grants[0]) && GrantOverlapsDay(grants[0], dayStart, dayEnd) then grants[0].secondsGranted else 0)
      + SumGrants(grants[1..], applies, dayStart, dayEnd)
  }

  lemma {:induction false} SumGrantsAppend(
    grants: seq<GrantInput>, grant: GrantInput, applies: GrantInput -> bool, dayStart: int, dayEnd: int)
    ensures SumGrants(grants + [grant], applies, dayStart, dayEnd)
            == SumGrants(grants, applies, dayStart, dayEnd)
               + if applies(grant) && GrantOverlapsDay(grant, dayStart, dayEnd) then grant.secondsGranted else 0
  {
    if grants == [] {
      assert [grant][1..] == [];
    } else {
      assert (grants + [grant])[1..] == grants[1..] + [grant];
      SumGrantsAppend(grants[1..], grant, applies, dayStart, dayEnd);
    }
  }

  function OverallGrant(grant: GrantInput): bool {
    grant.scope.Overall?
  }

  function GrantFor(target: Target): GrantInput -> bool {
    (grant: GrantInput) => grant.scope == target.scope && grant.targetId == Some(target.id)
  }

  function OverallDaily(b: BudgetInput): bool {
    b.scope.Overall? && b.window.Daily?
  }

  const OVERALL_DAILY_SLOT := Slot(Overall, Daily, None)

  /** The storage rule that an overall budget has no target. */
  ghost predicate TargetCoherent(budgets: seq<BudgetInput>) {
    forall i | 0 <= i < |budgets| :: budgets[i].scope.Overall? ==> budgets[i].targetId.None?
  }

  lemma OverallRowsAreOneSlot(budgets: seq<BudgetInput>)
    requires TargetCoherent(budgets)
    ensures Filter(OverallDaily, budgets) == Filter(InSlot(OVERALL_DAILY_SLOT), budgets)
  {
    forall b | b in budgets ensures OverallDaily(b) == InSlot(OVERALL_DAILY_SLOT)(b) {
    }
    FilterAgree(OverallDaily, InSlot(OVERALL_DAILY_SLOT), budgets);
  }

  /** The overall daily baseline of one weekday, without grants. */
  method OverallDailySecondsForWeekday(budgets: seq<BudgetInput>, weekday: int) returns (seconds: Option<int>)
    requires 1 <= weekday <= 7 && TargetCoherent(budgets)
    ensures var rows := InPlay(Filter(InSlot(OVERALL_DAILY_SLOT), budgets), weekday);
            seconds == if rows == [] then None else Some(SumAllowed(rows))
  {
    var selected := SelectBudgetsForWeekday(budgets, weekday);
    SelectedCoherent(budgets, selected, weekday);
    OverallRowsAreOneSlot(selected);
    var daily := Filter(OverallDaily, selected);
    seconds := if |daily| == 0 then None else Some(SumAllowed(daily));
  }

  lemma SelectedCoherent(budgets: seq<BudgetInput>, selected: seq<BudgetInput>, weekday: int)
    requires 1 <= weekday <= 7 && TargetCoherent(budgets)
    requires forall slot :: Filter(InSlot(slot), selected) == InPlay(Filter(InSlot(slot), budgets), weekday)
    ensures TargetCoherent(selected)
  {
    forall i | 0 <= i < |selected| && selected[i].scope.Overall? ensures selected[i].targetId.None? {
      var b := selected[i];
      var slot := BudgetSlotKey(b);
      var rows := Filter(InSlot(slot), budgets);
      FilterMember(InSlot(slot), selected, b);
      FilterMember(WeekdaySpecific(weekday), rows, b);
      FilterMember(Uniform, rows, b);
      FilterMember(InSlot(slot), budgets, b);
    }
  }

  /** The overall allowance of a day: the rows already selected for it, plus live overall grants. */
  method ResolveOverallSeconds(budgets: seq<BudgetInput>, grants: seq<GrantInput>, dayStart: int, dayEnd: int)
    returns (seconds: Option<int>)
    ensures var rows := Filter(OverallDaily, budgets);
            seconds == if rows == [] then None
                       else Some(SumAllowed(rows) + SumGrants(grants, OverallGrant, dayStart, dayEnd))
  {
    var dailyOverall := Filter(OverallDaily, budgets);
    if |dailyOverall| == 0 {
      return None;
    }
    var total := SumAllowed(dailyOverall);
    for i := 0 to |grants|
      invariant total == SumAllowed(dailyOverall) + SumGrants(grants[..i], OverallGrant, dayStart, dayEnd)
    {
      assert grants[..i + 1] == grants[..i] + [grants[i]];
      SumGrantsAppend(grants[..i], grants[i], OverallGrant, dayStart, dayEnd);
      if grants[i].scope.Overall? && GrantOverlapsDay(grants[i], dayStart, dayEnd) {
        total := total + grants[i].secondsGranted;
      }
    }
    assert grants[..|grants|] == grants;
    return Some(total);
  }

  datatype ActivityQuota = ActivityQuota(target: Target, seconds: int)

  function DailySlot(target: Target): Slot {
    Slot(target.scope, Daily, Some(target.id))
  }

  /** `"activity"` sorts before `"group"`; targets of one scope sort by id. */
  function QuotaRank(quota: ActivityQuota): Rank {
    (if quota.target.scope.Activity? then 0 else 1, quota.target.id)
  }

  predicate RankLess(a: Rank, b: Rank) {
    a.0 < b.0 || (a.0 == b.0 && a.1 < b.1)
  }

  /** Exactly one quota per target with rows in play: their sum plus the target's live grants. */
  ghost predicate QuotasFor(
    quotas: seq<ActivityQuota>, budgets: seq<BudgetInput>, grants: seq<GrantInput>, dayStart: int, dayEnd: int)
  {
    && (forall i, j | 0 <= i < j < |quotas| :: RankLess(QuotaRank(quotas[i]), QuotaRank(quotas[j])))
    && (forall i | 0 <= i < |quotas| ::
          var target := quotas[i].target;
          && !target.scope.Overall?
          && Filter(InSlot(DailySlot(target)), budgets) != []
          && quotas[i].seconds == SumAllowed(Filter(InSlot(DailySlot(target)), budgets))
                                  + SumGrants(grants, GrantFor(target), dayStart, dayEnd))
    && (forall target: Target | !target.scope.Overall? && Filter(InSlot(DailySlot(target)), budgets) != [] ::
          exists i | 0 <= i < |quotas| :: quotas[i].target == target)
  }

  /** A Map from targets to seconds, with its insertion order. */
  ghost predicate Tally(keys: seq<Target>, table: map<Target, int>) {
    NoDuplicates(keys) && forall target :: target in keys <==> target in table
  }

  /** A target's rows. */
  function TargetRows(target: Target, budgets: seq<BudgetInput>): seq<BudgetInput> {
    Filter(InSlot(DailySlot(target)), budgets)
  }

  /** The table holds every daily target of `budgets` with the sum of its rows. */
  ghost predicate SumsFor(table: map<Target, int>, budgets: seq<BudgetInput>, target: Target) {
    && (target in table <==> !target.scope.Overall? && TargetRows(target, budgets) != [])
    && (target in table ==> table[target] == SumAllowed(TargetRows(target, budgets)))
  }

  function DailyTarget(b: BudgetInput): Option<Target> {
    if b.window.Daily? && !b.scope.Overall? && b.targetId.Some? then Some(Target(b.scope, b.targetId.value)) else None
  }

  function AddedTo(table: map<Target, int>, key: Target, seconds: int): map<Target, int> {
    table[key := (if key in table then table[key] else 0) + seconds]
  }

  lemma SumsStep(table: map<Target, int>, budgets: seq<BudgetInput>, b: BudgetInput, target: Target)
    requires SumsFor(table, budgets, target)
    ensures SumsFor(if DailyTarget(b).Some? then AddedTo(table, DailyTarget(b).value, b.secondsAllowed) else table,
                    budgets + [b], target)
  {
    FilterAppend(InSlot(DailySlot(target)), budgets, b);
    SumAppend(TargetRows(target, budgets), b);
  }

  lemma TallyStep(keys: seq<Target>, table: map<Target, int>, key: Target, seconds: int)
    requires Tally(keys, table)
    ensures Tally(if key in table then keys else keys + [key], AddedTo(table, key, seconds))
  {
  }

  /** Sum the daily rows of each target, in first-seen order. */
  method SumBudgets(budgets: seq<BudgetInput>) returns (keys: seq<Target>, table: map<Target, int>)
    ensures Tally(keys, table) && forall target :: SumsFor(table, budgets, target)
  {
    keys := [];
    table := map[];
    assert forall target :: SumsFor(table, [], target);
    assert Tally(keys, table);
    hide SumsFor, Tally, BudgetSlotKey;
    for i := 0 to |budgets|
      invariant Tally(keys, table) && forall target :: SumsFor(table, budgets[..i], target)
    {
      var b := budgets[i];
      ghost var before := table;
      if b.window.Daily? && !b.scope.Overall? && b.targetId.Some? {
        var key := Target(b.scope, b.targetId.value);
        TallyStep(keys, table, key, b.secondsAllowed);
        if key !in table {
          keys := keys + [key];
        }
        table := table[key := (if key in table then table[key] else 0) + b.secondsAllowed];
      }
      ghost var next := budgets[..i + 1];
      assert next == budgets[..i] + [b];
      forall target ensures SumsFor(table, next, target) {
        SumsStep(before, budgets[..i], b, target);
      }
    }
    assert budgets[..|budgets|] == budgets;
  }

  /** Same targets as before, each raised by its live grants. */
  ghost predicate Raised(
    table: map<Target, int>, base: map<Target, int>, grants: seq<GrantInput>,
    dayStart: int, dayEnd: int, target: Target)
  {
    && (target in table <==> target in base)
    && (target in table ==> !target.scope.Overall?)
    && (target in table ==> table[target] == base[target] + SumGrants(grants, GrantFor(target), dayStart, dayEnd))
  }

  function GrantedTo(table: map<Target, int>, grant: GrantInput, dayStart: int, dayEnd: int): map<Target, int> {
    if !grant.scope.Overall? && grant.targetId.Some? && GrantOverlapsDay(grant, dayStart, dayEnd) then
      var key := Target(grant.scope, grant.targetId.value);
      if key in table then table[key := table[key] + grant.secondsGranted] else table
    else table
  }

  lemma RaiseStep(
    table: map<Target, int>, base: map<Target, int>, grants: seq<GrantInput>, grant: GrantInput,
    dayStart: int, dayEnd: int, target: Target)
    requires Raised(table, base, grants, dayStart, dayEnd, target)
    ensures Raised(GrantedTo(table, grant, dayStart, dayEnd), base, grants + [grant], dayStart, dayEnd, target)
  {
    SumGrantsAppend(grants, grant, GrantFor(target), dayStart, dayEnd);
  }

  method BuildActivityQuotas(budgets: seq<BudgetInput>, grants: seq<GrantInput>, dayStart: int, dayEnd: int)
    returns (quotas: seq<ActivityQuota>)
    ensures QuotasFor(quotas, budgets, grants, dayStart, dayEnd)
  {
    var keys, table := SumBudgets(budgets);
    ghost var base := table;
    forall target ensures Raised(table, base, [], dayStart, dayEnd, target) {
      assert SumsFor(table, budgets, target);
    }
    hide SumsFor, QuotasFor, SumGrants;
    for i := 0 to |grants|
      invariant Tally(keys, table) && forall target :: Raised(table, base, grants[..i], dayStart, dayEnd, target)
    {
      var grant := grants[i];
      ghost var before := table;
      if !grant.scope.Overall? && grant.targetId.Some? && GrantOverlapsDay(grant, dayStart, dayEnd) {
        var key := Target(grant.scope, grant.targetId.value);
        if key in table {
          table := table[key := table[key] + grant.secondsGranted];
        }
      }
      ghost var next := grants[..i + 1];
      assert next == grants[..i] + [grant];
      forall target ensures Raised(table, base, next, dayStart, dayEnd, target) {
        RaiseStep(before, base, grants[..i], grant, dayStart, dayEnd, target);
      }
    }
    assert grants[..|grants|] == grants;
    forall target | target in table ensures !target.scope.Overall? {
      assert Raised(table, base, grants, dayStart, dayEnd, target);
    }
    quotas := QuotaList(keys, table);
    QuotasComplete(quotas, table, base, budgets, grants, dayStart, dayEnd);
  }

  /** The table's entries, one each, in rank order. */
  ghost predicate ListsTable(quotas: seq<ActivityQuota>, table: map<Target, int>) {
    && (forall i, j | 0 <= i < j < |quotas| :: RankLess(QuotaRank(quotas[i]), QuotaRank(quotas[j])))
    && (forall i | 0 <= i < |quotas| :: quotas[i].target in table && quotas[i].seconds == table[quotas[i].target])
    && (forall target | target in table :: exists i | 0 <= i < |quotas| :: quotas[i].target == target)
  }

  lemma QuotasComplete(
    quotas: seq<ActivityQuota>, table: map<Target, int>, base: map<Target, int>, budgets: seq<BudgetInput>,
    grants: seq<GrantInput>, dayStart: int, dayEnd: int)
    requires ListsTable(quotas, table)
    requires forall target :: SumsFor(base, budgets, target)
    requires forall target :: Raised(table, base, grants, dayStart, dayEnd, target)
    ensures QuotasFor(quotas, budgets, grants, dayStart, dayEnd)
  {
    forall i | 0 <= i < |quotas|
      ensures var target := quotas[i].target;
              && !target.scope.Overall?
              && Filter(InSlot(DailySlot(target)), budgets) != []
              && quotas[i].seconds == SumAllowed(Filter(InSlot(DailySlot(target)), budgets))
                                      + SumGrants(grants, GrantFor(target), dayStart, dayEnd) {
      var target := quotas[i].target;
      assert SumsFor(base, budgets, target) && Raised(table, base, grants, dayStart, dayEnd, target);
    }
    forall target: Target | !target.scope.Overall? && Filter(InSlot(DailySlot(target)), budgets) != []
      ensures exists i | 0 <= i < |quotas| :: quotas[i].target == target {
      assert SumsFor(base, budgets, target) && Raised(table, base, grants, dayStart, dayEnd, target);
    }
  }

  lemma ListingTable(keys: seq<Target>, table: map<Target, int>, values: seq<ActivityQuota>, quotas: seq<ActivityQuota>)
    requires Tally(keys, table) && forall target | target in table :: !target.scope.Overall?
    requires |values| == |keys| && forall i | 0 <= i < |keys| :: values[i] == ActivityQuota(keys[i], table[keys[i]])
    requires SortedBy(QuotaRank, quotas) && NoDuplicates(quotas) && forall x :: x in quotas <==> x in values
    ensures ListsTable(quotas, table)
  {
    forall i, j | 0 <= i < j < |quotas| ensures RankLess(QuotaRank(quotas[i]), QuotaRank(quotas[j])) {
      assert quotas[i] in values && quotas[j] in values;
    }
    forall i | 0 <= i < |quotas| ensures quotas[i].target in table && quotas[i].seconds == table[quotas[i].target] {
      assert quotas[i] in values;
    }
    forall target | target in table ensures exists i | 0 <= i < |quotas| :: quotas[i].target == target {
      var k :| 0 <= k < |keys| && keys[k] == target;
      assert values[k] in quotas;
    }
  }

  /** `[...quotas.values()].sort(...)`. */
  method QuotaList(keys: seq<Target>, table: map<Target, int>) returns (quotas: seq<ActivityQuota>)
    requires Tally(keys, table) && forall target | target in table :: !target.scope.Overall?
    ensures ListsTable(quotas, table)
  {
    var values := seq(|keys|, i requires 0 <= i < |keys| => ActivityQuota(keys[i], table[keys[i]]));
    quotas := SortBy(QuotaRank, values);
    SortBySorted(QuotaRank, values);
    SortByContents(QuotaRank, values);
    PermutationKeepsDistinct(values, quotas);
    ListingTable(keys, table, values, quotas);
  }

  // ----- where a slot's rows come from -----

  /** The rows are those of `from` in the slot, in order, each marked with where it came from. */
  ghost predicate SuppliedBy(rows: seq<GatheredBudget>, from: seq<BudgetInput>, slot: Slot, source: RuleSource) {
    var theirs := Filter(InSlot(slot), from);
    |rows| == |theirs| && forall i | 0 <= i < |rows| :: rows[i].budget == theirs[i] && rows[i].source == source
  }

  /**
   * A slot of the user's own comes whole from the user; one the user leaves open comes
   * whole from the first group that has it, however many later groups do; else it is empty.
   */
  lemma SlotSource(slot: Slot, own: seq<BudgetInput>, groups: seq<UserGroup>)
    ensures Defines(slot, own) ==> SuppliedBy(SlotRows(slot, own, groups), own, slot, FromUser)
    ensures forall g | 0 <= g < |groups| && !Defines(slot, own) && Defines(slot, groups[g].budgets)
                       && forall k | 0 <= k < g :: !Defines(slot, groups[k].budgets) ::
              SuppliedBy(SlotRows(slot, own, groups), groups[g].budgets, slot, FromGroup(groups[g].id))
    ensures !Defines(slot, own) && (forall g | 0 <= g < |groups| :: !Defines(slot, groups[g].budgets)) ==>
              SlotRows(slot, own, groups) == []
  {
    hide Defines;
    DefinesFilter(slot, own);
    GroupSource(slot, groups);
  }

  lemma {:induction false} GroupSource(slot: Slot, groups: seq<UserGroup>)
    ensures forall g | 0 <= g < |groups| && Defines(slot, groups[g].budgets)
                       && forall k | 0 <= k < g :: !Defines(slot, groups[k].budgets) ::
              SuppliedBy(GroupRows(slot, groups), groups[g].budgets, slot, FromGroup(groups[g].id))
    ensures (forall g | 0 <= g < |groups| :: !Defines(slot, groups[g].budgets)) ==> GroupRows(slot, groups) == []
  {
    hide Defines;
    if groups != [] {
      DefinesFilter(slot, groups[0].budgets);
      var rest := groups[1..];
      GroupSource(slot, rest);
      forall g | 0 <= g < |groups| && Defines(slot, groups[g].budgets)
                 && forall k | 0 <= k < g :: !Defines(slot, groups[k].budgets)
        ensures SuppliedBy(GroupRows(slot, groups), groups[g].budgets, slot, FromGroup(groups[g].id)) {
        if g > 0 {
          assert rest[g - 1] == groups[g];
          assert forall k | 0 <= k < g - 1 :: rest[k] == groups[k + 1];
        }
      }
      if forall g | 0 <= g < |groups| :: !Defines(slot, groups[g].budgets) {
        assert forall g | 0 <= g < |rest| :: rest[g] == groups[g + 1];
      }
    }
  }
}
