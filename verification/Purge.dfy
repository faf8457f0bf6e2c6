// Batched deletion of expired rows: whatever rows each limited pass picks, and however
// often it was interrupted, the outcome is one deletion; and the preview counts it.

module Purge {
  import opened Common
  import opened Retention

  /** A table's rows by id, with the date the purge looks at, in seconds; some rows have none. */
  type Rows = map<int, Option<int>>

  function Matching(rows: Rows, cutoff: int): set<int> {
    set id | id in rows && Purgeable(rows[id], cutoff)
  }

  /** The table after deleting every row before the cutoff. */
  function Kept(rows: Rows, cutoff: int): Rows {
    map id | id in rows && !Purgeable(rows[id], cutoff) :: rows[id]
  }

  // ----- batches and interruptions -----

  /** Batches that each delete some matching rows, whichever. */
  ghost predicate Batches(rows: Rows, cutoff: int, chosen: seq<set<int>>) {
    chosen == [] || (chosen[0] <= Matching(rows, cutoff) && Batches(rows - chosen[0], cutoff, chosen[1..]))
  }

  ghost function AfterBatches(rows: Rows, chosen: seq<set<int>>): Rows {
    if chosen == [] then rows else AfterBatches(rows - chosen[0], chosen[1..])
  }

  function TotalSize(chosen: seq<set<int>>): nat {
    if chosen == [] then 0 else |chosen[0]| + TotalSize(chosen[1..])
  }

  lemma OneBatch(rows: Rows, cutoff: int, chosen: set<int>)
    requires chosen <= Matching(rows, cutoff)
    ensures Kept(rows - chosen, cutoff) == Kept(rows, cutoff)
    ensures Matching(rows - chosen, cutoff) == Matching(rows, cutoff) - chosen
    ensures |Matching(rows, cutoff)| == |chosen| + |Matching(rows - chosen, cutoff)|
  {
    assert Matching(rows, cutoff) == chosen + (Matching(rows, cutoff) - chosen);
  }

  /** Any batches leave a table that a rerun turns into the one-deletion table, and no row is counted twice. */
  lemma {:induction false} RerunCompletes(rows: Rows, cutoff: int, chosen: seq<set<int>>)
    requires Batches(rows, cutoff, chosen)
    ensures Kept(AfterBatches(rows, chosen), cutoff) == Kept(rows, cutoff)
    ensures |Matching(rows, cutoff)| == TotalSize(chosen) + |Matching(AfterBatches(rows, chosen), cutoff)|
    decreases |chosen|
  {
    if chosen != [] {
      OneBatch(rows, cutoff, chosen[0]);
      RerunCompletes(rows - chosen[0], cutoff, chosen[1..]);
    }
  }

  /** Nothing is left to match after the deletion, so a second purge deletes nothing. */
  lemma NothingLeft(rows: Rows, cutoff: int)
    ensures Matching(Kept(rows, cutoff), cutoff) == {}
    ensures Kept(Kept(rows, cutoff), cutoff) == Kept(rows, cutoff)
    ensures Matching(rows, cutoff) == {} ==> Kept(rows, cutoff) == rows
  {
    assert forall id | id in rows && id !in Matching(rows, cutoff) :: id in Kept(rows, cutoff);
  }

  /** `LIMIT n`: some `n` of the ids, or all when there are fewer. */
  method SelectLimited(ids: set<int>, limit: nat) returns (chosen: set<int>)
    ensures chosen <= ids && |chosen| == Min(limit, |ids|)
  {
    chosen := {};
    var rest := ids;
    while rest != {} && |chosen| < limit
      invariant chosen + rest == ids && chosen !! rest
      invariant |chosen| <= limit
      decreases |rest|
    {
      var id := Pick(rest);
      rest := rest - {id};
      chosen := chosen + {id};
    }
    assert |ids| == |chosen| + |rest|;
  }

  // ----- the tables and their categories -----

  datatype TableName =
    | UsageTable
    | GrantTable
    | AuditTable
    | ExceptionTable
    | GroupExceptionTable
    | ScheduleTable
    | GroupScheduleTable

  type Tables = map<TableName, Rows>

  function TablesOf(category: Category): seq<TableName> {
    match category
    case UsageSamples => [UsageTable]
    case GrantLedger => [GrantTable]
    case AuditLog => [AuditTable]
    case DateOverrides => [ExceptionTable, GroupExceptionTable, ScheduleTable, GroupScheduleTable]
  }

  const CATEGORIES: seq<Category> := [UsageSamples, GrantLedger, AuditLog, DateOverrides]

  ghost predicate Complete(tables: Tables) {
    forall name: TableName :: name in tables
  }

  /** One deletion over the named tables. */
  function Purged(tables: Tables, names: seq<TableName>, cutoff: int): Tables {
    map name | name in tables :: if name in names then Kept(tables[name], cutoff) else tables[name]
  }

  function CountIn(tables: Tables, names: seq<TableName>, cutoff: int): nat
    requires Complete(tables)
  {
    if names == [] then 0
    else CountIn(tables, names[..|names| - 1], cutoff) + |Matching(tables[names[|names| - 1]], cutoff)|
  }

  datatype CategoryResult = CategoryResult(category: Category, cutoff: Option<int>, count: nat)

  /** What the dry run reports for a category. */
  function Preview(tables: Tables, category: Category, policy: Policy, now: int): CategoryResult
    requires Complete(tables)
  {
    var cutoff := Cutoff(RuleFor(policy, category), now);
    CategoryResult(category, cutoff, if cutoff.None? then 0 else CountIn(tables, TablesOf(category), cutoff.value))
  }

  function PurgedCategory(tables: Tables, category: Category, policy: Policy, now: int): Tables {
    var cutoff := Cutoff(RuleFor(policy, category), now);
    if cutoff.None? then tables else Purged(tables, TablesOf(category), cutoff.value)
  }

  function PurgedCategories(tables: Tables, categories: seq<Category>, policy: Policy, now: int): Tables {
    if categories == [] then tables
    else
      var n := |categories| - 1;
      PurgedCategory(PurgedCategories(tables, categories[..n], policy, now), categories[n], policy, now)
  }

  function CategoryOf(name: TableName): Category {
    match name
    case UsageTable => UsageSamples
    case GrantTable => GrantLedger
    case AuditTable => AuditLog
    case ExceptionTable | GroupExceptionTable | ScheduleTable | GroupScheduleTable => DateOverrides
  }

  lemma TableInCategory(name: TableName, category: Category)
    ensures name in TablesOf(category) <==> CategoryOf(name) == category
  {
    match category
    case UsageSamples => assert name in [UsageTable] <==> name == UsageTable;
    case GrantLedger => assert name in [GrantTable] <==> name == GrantTable;
    case AuditLog => assert name in [AuditTable] <==> name == AuditTable;
    case DateOverrides =>
      assert name in TablesOf(category)
             <==> name == ExceptionTable || name == GroupExceptionTable
                  || name == ScheduleTable || name == GroupScheduleTable;
  }

  /** Each table is purged by its own category's cutoff, and only if that category had its turn. */
  lemma {:induction false} CategoriesIndependent(
    tables: Tables, categories: seq<Category>, policy: Policy, now: int, name: TableName)
    requires Complete(tables)
    ensures Complete(PurgedCategories(tables, categories, policy, now))
    ensures var cutoff := Cutoff(RuleFor(policy, CategoryOf(name)), now);
            PurgedCategories(tables, categories, policy, now)[name]
            == if CategoryOf(name) in categories && cutoff.Some? then Kept(tables[name], cutoff.value) else tables[name]
  {
    if categories != [] {
      var n := |categories| - 1;
      CategoriesIndependent(tables, categories[..n], policy, now, name);
      forall other: TableName ensures other in PurgedCategories(tables, categories, policy, now) {
      }
      TableInCategory(name, categories[n]);
      assert categories == categories[..n] + [categories[n]];
      var cutoff := Cutoff(RuleFor(policy, CategoryOf(name)), now);
      if cutoff.Some? {
        NothingLeft(tables[name], cutoff.value);
      }
    }
  }

  lemma {:induction false} CountUnaffected(a: Tables, b: Tables, names: seq<TableName>, cutoff: int)
    requires Complete(a) && Complete(b) && forall i | 0 <= i < |names| :: a[names[i]] == b[names[i]]
    ensures CountIn(a, names, cutoff) == CountIn(b, names, cutoff)
  {
    if names != [] {
      CountUnaffected(a, b, names[..|names| - 1], cutoff);
    }
  }

  /** An earlier category's purge does not change what a later category's preview reports. */
  lemma PreviewUnaffected(tables: Tables, categories: seq<Category>, category: Category, policy: Policy, now: int)
    requires Complete(tables) && category !in categories
    ensures Complete(PurgedCategories(tables, categories, policy, now))
    ensures Preview(PurgedCategories(tables, categories, policy, now), category, policy, now)
            == Preview(tables, category, policy, now)
  {
    CategoriesIndependent(tables, categories, policy, now, UsageTable);
    var after := PurgedCategories(tables, categories, policy, now);
    var names := TablesOf(category);
    forall i | 0 <= i < |names| ensures after[names[i]] == tables[names[i]] {
      TableInCategory(names[i], category);
      CategoriesIndependent(tables, categories, policy, now, names[i]);
    }
    var cutoff := Cutoff(RuleFor(policy, category), now);
    if cutoff.Some? {
      CountUnaffected(after, tables, names, cutoff.value);
    }
  }

  datatype Outcome<T> = Ok(value: T) | RangeError

  class PolicyDb {
    var tables: Tables

    constructor (tables: Tables)
      ensures this.tables == tables
    {
      this.tables := tables;
    }

    method DeleteOneBatch(name: TableName, cutoff: int, batchSize: nat) returns (changes: nat, ghost chosen: set<int>)
      requires name in tables
      modifies this
      ensures chosen <= Matching(old(tables)[name], cutoff)
      ensures tables == old(tables)[name := old(tables)[name] - chosen]
      ensures changes == |chosen| == Min(batchSize, |Matching(old(tables)[name], cutoff)|)
    {
      var ids := SelectLimited(Matching(tables[name], cutoff), batchSize);
      tables := tables[name := tables[name] - ids];
      return |ids|, ids;
    }

    /** Delete in passes until a pass comes back short. */
    method PurgeInBatches(name: TableName, cutoff: int, batchSize: int) returns (deleted: Outcome<nat>)
      requires name in tables
      modifies this
      ensures deleted.RangeError? <==> batchSize < 1
      ensures deleted.RangeError? ==> tables == old(tables)
      ensures deleted.Ok? ==> tables == old(tables)[name := Kept(old(tables)[name], cutoff)]
                              && deleted.value == |Matching(old(tables)[name], cutoff)|
    {
      if batchSize < 1 {
        return RangeError;
      }
      var total := 0;
      while true
        invariant name in tables && tables == old(tables)[name := tables[name]]
        invariant Kept(tables[name], cutoff) == Kept(old(tables)[name], cutoff)
        invariant total + |Matching(tables[name], cutoff)| == |Matching(old(tables)[name], cutoff)|
        decreases |Matching(tables[name], cutoff)|
      {
        ghost var before := tables[name];
        var n, chosen := DeleteOneBatch(name, cutoff, batchSize);
        OneBatch(before, cutoff, chosen);
        total := total + n;
        if n < batchSize {
          break;
        }
      }
      assert Matching(tables[name], cutoff) == {};
      NothingLeft(tables[name], cutoff);
      return Ok(total);
    }

    /** The sum of purging each of these tables. */
    method PurgeTables(names: seq<TableName>, cutoff: int, batchSize: int) returns (deleted: Outcome<nat>)
      requires Complete(tables) && names != [] && AllDistinct(names)
      modifies this
      ensures Complete(tables)
      ensures deleted.RangeError? <==> batchSize < 1
      ensures deleted.RangeError? ==> tables == old(tables)
      ensures deleted.Ok? ==> CategorySoFar(old(tables), tables, names, cutoff, deleted.value)
    {
      var total := 0;
      assert CategorySoFar(tables, tables, [], cutoff, total);
      hide CategorySoFar, Complete, Matching, Kept;
      for i := 0 to |names|
        invariant i > 0 ==> batchSize >= 1
        invariant Complete(tables) && CategorySoFar(old(tables), tables, names[..i], cutoff, total)
      {
        EveryTable(tables, names[i]);
        OneMoreTable(old(tables), tables, names[..i], names[i], cutoff, total);
        var n := PurgeInBatches(names[i], cutoff, batchSize);
        if n.RangeError? {
          assert names[..i] == [];
          NoTables(old(tables), tables, cutoff, total);
          return RangeError;
        }
        total := total + n.value;
        assert names[..i + 1] == names[..i] + [names[i]];
      }
      assert names[..|names|] == names;
      return Ok(total);
    }

    /** Purge the tables of one category; a category kept forever is left alone. */
    method PurgeCategory(category: Category, policy: Policy, now: int, batchSize: int)
      returns (result: Outcome<CategoryResult>)
      requires Complete(tables)
      modifies this
      ensures Complete(tables)
      ensures result.RangeError? <==> batchSize < 1 && RuleFor(policy, category).KeepDays?
      ensures result.RangeError? ==> tables == old(tables)
      ensures result.Ok? ==> tables == PurgedCategory(old(tables), category, policy, now)
                             && result.value == Preview(old(tables), category, policy, now)
    {
      var cutoff := Cutoff(RuleFor(policy, category), now);
      if cutoff.None? {
        return Ok(CategoryResult(category, cutoff, 0));
      }
      TablesDistinct(category);
      var deleted := PurgeTables(TablesOf(category), cutoff.value, batchSize);
      if deleted.RangeError? {
        return RangeError;
      }
      CategoryDone(old(tables), tables, category, cutoff.value, deleted.value, policy, now);
      return Ok(CategoryResult(category, cutoff, deleted.value));
    }

    /** Every category in turn. The results are what the preview reports on the state before. */
    method PurgeExpiredRecords(policy: Policy, now: int, batchSize: int) returns (results: Outcome<seq<CategoryResult>>)
      requires Complete(tables)
      modifies this
      ensures results.RangeError? <==>
                batchSize < 1 && exists category: Category :: RuleFor(policy, category).KeepDays?
      ensures results.RangeError? ==> tables == old(tables)
      ensures results.Ok? ==>
                && tables == PurgedCategories(old(tables), CATEGORIES, policy, now)
                && |results.value| == |CATEGORIES|
                && forall i | 0 <= i < |CATEGORIES| ::
                     results.value[i] == Preview(old(tables), CATEGORIES[i], policy, now)
    {
      var done: seq<CategoryResult> := [];
      assert RecordsSoFar(tables, tables, [], policy, now, done);
      hide RecordsSoFar, Preview, PurgedCategory, Complete;
      for i := 0 to |CATEGORIES|
        invariant Complete(tables)
        invariant batchSize < 1 ==> forall k | 0 <= k < i :: RuleFor(policy, CATEGORIES[k]).KeepForever?
        invariant RecordsSoFar(old(tables), tables, CATEGORIES[..i], policy, now, done)
      {
        ghost var before, results0 := tables, done;
        CategoriesDistinct(i);
        var result := PurgeCategory(CATEGORIES[i], policy, now, batchSize);
        if result.RangeError? {
          NothingPurged(old(tables), before, CATEGORIES[..i], policy, now, done);
          return RangeError;
        }
        done := done + [result.value];
        OneMoreCategory(old(tables), before, CATEGORIES[..i], CATEGORIES[i], policy, now, results0);
        assert CATEGORIES[..i + 1] == CATEGORIES[..i] + [CATEGORIES[i]];
      }
      assert CATEGORIES[..|CATEGORIES|] == CATEGORIES;
      if batchSize < 1 {
        NoneFinite(policy);
      }
      RecordsDone(old(tables), tables, policy, now, done);
      return Ok(done);
    }
  }

  ghost predicate CategorySoFar(before: Tables, after: Tables, names: seq<TableName>, cutoff: int, deleted: int) {
    Complete(before) && after == Purged(before, names, cutoff) && deleted == CountIn(before, names, cutoff)
  }

  ghost predicate RecordsSoFar(
    before: Tables, after: Tables, categories: seq<Category>, policy: Policy, now: int, results: seq<CategoryResult>)
  {
    && Complete(before) && |results| == |categories|
    && after == PurgedCategories(before, categories, policy, now)
    && forall k | 0 <= k < |categories| :: results[k] == Preview(before, categories[k], policy, now)
  }

  lemma EveryTable(tables: Tables, name: TableName)
    requires Complete(tables)
    ensures name in tables
  {
  }

  lemma OneMoreTable(before: Tables, after: Tables, names: seq<TableName>, name: TableName, cutoff: int, deleted: int)
    requires CategorySoFar(before, after, names, cutoff, deleted) && name !in names && name in after
    ensures CategorySoFar(before, after[name := Kept(after[name], cutoff)], names + [name], cutoff,
                          deleted + |Matching(after[name], cutoff)|)
    ensures Complete(after[name := Kept(after[name], cutoff)])
  {
    assert (names + [name])[..|names|] == names;
  }

  lemma NoTables(before: Tables, after: Tables, cutoff: int, deleted: int)
    requires CategorySoFar(before, after, [], cutoff, deleted)
    ensures after == before
  {
  }

  lemma CategoryDone(
    before: Tables, after: Tables, category: Category, cutoff: int, deleted: int, policy: Policy, now: int)
    requires CategorySoFar(before, after, TablesOf(category), cutoff, deleted)
    requires Cutoff(RuleFor(policy, category), now) == Some(cutoff)
    ensures Complete(before) && after == PurgedCategory(before, category, policy, now)
    ensures CategoryResult(category, Some(cutoff), deleted) == Preview(before, category, policy, now)
  {
  }

  lemma OneMoreCategory(
    before: Tables, after: Tables, categories: seq<Category>, category: Category, policy: Policy, now: int,
    results: seq<CategoryResult>)
    requires RecordsSoFar(before, after, categories, policy, now, results) && category !in categories && Complete(after)
    ensures RecordsSoFar(before, PurgedCategory(after, category, policy, now), categories + [category], policy, now,
                         results + [Preview(after, category, policy, now)])
  {
    PreviewUnaffected(before, categories, category, policy, now);
    assert (categories + [category])[..|categories|] == categories;
  }

  lemma NothingPurged(
    before: Tables, after: Tables, categories: seq<Category>, policy: Policy, now: int, results: seq<CategoryResult>)
    requires RecordsSoFar(before, after, categories, policy, now, results)
    requires forall k | 0 <= k < |categories| :: RuleFor(policy, categories[k]).KeepForever?
    ensures after == before
  {
    KeptForeverUnchanged(before, categories, policy, now);
  }

  lemma RecordsDone(before: Tables, after: Tables, policy: Policy, now: int, results: seq<CategoryResult>)
    requires RecordsSoFar(before, after, CATEGORIES, policy, now, results)
    ensures Complete(before) && after == PurgedCategories(before, CATEGORIES, policy, now)
    ensures |results| == |CATEGORIES|
    ensures forall i | 0 <= i < |CATEGORIES| :: results[i] == Preview(before, CATEGORIES[i], policy, now)
  {
  }

  lemma NoneFinite(policy: Policy)
    requires forall k | 0 <= k < |CATEGORIES| :: RuleFor(policy, CATEGORIES[k]).KeepForever?
    ensures forall category: Category :: RuleFor(policy, category).KeepForever?
  {
    forall category: Category ensures RuleFor(policy, category).KeepForever? {
      match category
      case UsageSamples => assert CATEGORIES[0] == category;
      case GrantLedger => assert CATEGORIES[1] == category;
      case AuditLog => assert CATEGORIES[2] == category;
      case DateOverrides => assert CATEGORIES[3] == category;
    }
  }

  ghost predicate AllDistinct(names: seq<TableName>) {
    forall i | 0 <= i < |names| :: names[i] !in names[..i]
  }

  lemma TablesDistinct(category: Category)
    ensures TablesOf(category) != [] && AllDistinct(TablesOf(category))
  {
  }

  lemma CategoriesDistinct(i: nat)
    requires i < |CATEGORIES|
    ensures CATEGORIES[i] !in CATEGORIES[..i]
  {
  }

  lemma AllCategories()
    ensures forall category: Category :: category in CATEGORIES
  {
    forall category: Category ensures category in CATEGORIES {
      match category
      case UsageSamples => assert CATEGORIES[0] == category;
      case GrantLedger => assert CATEGORIES[1] == category;
      case AuditLog => assert CATEGORIES[2] == category;
      case DateOverrides => assert CATEGORIES[3] == category;
    }
  }

  lemma {:induction false} KeptForeverUnchanged(tables: Tables, categories: seq<Category>, policy: Policy, now: int)
    requires forall k | 0 <= k < |categories| :: RuleFor(policy, categories[k]).KeepForever?
    ensures PurgedCategories(tables, categories, policy, now) == tables
  {
    if categories != [] {
      KeptForeverUnchanged(tables, categories[..|categories| - 1], policy, now);
    }
  }

  /** A purge leaves nothing that a preview at the same instant would count. */
  lemma PreviewAfterPurge(tables: Tables, category: Category, policy: Policy, now: int)
    requires Complete(tables)
    ensures Complete(PurgedCategories(tables, CATEGORIES, policy, now))
    ensures Preview(PurgedCategories(tables, CATEGORIES, policy, now), category, policy, now).count == 0
  {
    var after := PurgedCategories(tables, CATEGORIES, policy, now);
    CategoriesIndependent(tables, CATEGORIES, policy, now, UsageTable);
    var cutoff := Cutoff(RuleFor(policy, category), now);
    if cutoff.Some? {
      AllCategories();
      var names := TablesOf(category);
      forall i | 0 <= i < |names| ensures Matching(after[names[i]], cutoff.value) == {} {
        TableInCategory(names[i], category);
        CategoriesIndependent(tables, CATEGORIES, policy, now, names[i]);
        NothingLeft(tables[names[i]], cutoff.value);
      }
      CountNothing(after, names, cutoff.value);
    }
  }

  lemma {:induction false} CountNothing(tables: Tables, names: seq<TableName>, cutoff: int)
    requires Complete(tables) && forall i | 0 <= i < |names| :: Matching(tables[names[i]], cutoff) == {}
    ensures CountIn(tables, names, cutoff) == 0
  {
    if names != [] {
      CountNothing(tables, names[..|names| - 1], cutoff);
    }
  }

  // ----- what one purge does to each row -----

  /**
   * A table before and after: a row is deleted exactly when its date is more than the
   * window's days old, in whole seconds.
   */
  ghost predicate PurgedByAge(before: Rows, after: Rows, rule: Rule, now: int) {
    && (forall id :: id in after <==>
          id in before && (rule.KeepForever? || before[id].None?
                           || before[id].value >= (now - rule.days * 86_400_000) / 1000))
    && (forall id | id in after :: after[id] == before[id])
  }

  /** What a category's stored rule is: its override, else the default number of days. */
  ghost predicate Stored(policy: Policy, category: Category, rule: Rule) {
    if category in policy.overrides then policy.overrides[category] == rule
    else rule.KeepDays? && rule.days == policy.defaultDays
  }

  lemma TablePurged(tables: Tables, policy: Policy, now: int, name: TableName, rule: Rule)
    requires Complete(tables) && Stored(policy, CategoryOf(name), rule)
    ensures Complete(PurgedCategories(tables, CATEGORIES, policy, now))
    ensures PurgedByAge(tables[name], PurgedCategories(tables, CATEGORIES, policy, now)[name], rule, now)
  {
    CategoriesIndependent(tables, CATEGORIES, policy, now, name);
    AllCategories();
    hide PurgedCategories;
  }

  /** Table by table: usage and grants and the audit log by their own rule, and all four override tables by one. */
  lemma PurgeMeaning(tables: Tables, policy: Policy, now: int, usage: Rule, grants: Rule, audit: Rule, overrides: Rule)
    requires Complete(tables)
    requires Stored(policy, UsageSamples, usage) && Stored(policy, GrantLedger, grants)
    requires Stored(policy, AuditLog, audit) && Stored(policy, DateOverrides, overrides)
    ensures var after := PurgedCategories(tables, CATEGORIES, policy, now);
            && Complete(after)
            && PurgedByAge(tables[UsageTable], after[UsageTable], usage, now)
            && PurgedByAge(tables[GrantTable], after[GrantTable], grants, now)
            && PurgedByAge(tables[AuditTable], after[AuditTable], audit, now)
            && PurgedByAge(tables[ExceptionTable], after[ExceptionTable], overrides, now)
            && PurgedByAge(tables[GroupExceptionTable], after[GroupExceptionTable], overrides, now)
            && PurgedByAge(tables[ScheduleTable], after[ScheduleTable], overrides, now)
            && PurgedByAge(tables[GroupScheduleTable], after[GroupScheduleTable], overrides, now)
  {
    hide PurgedCategories, PurgedByAge;
    TablePurged(tables, policy, now, UsageTable, usage);
    TablePurged(tables, policy, now, GrantTable, grants);
    TablePurged(tables, policy, now, AuditTable, audit);
    TablePurged(tables, policy, now, ExceptionTable, overrides);
    TablePurged(tables, policy, now, GroupExceptionTable, overrides);
    TablePurged(tables, policy, now, ScheduleTable, overrides);
    TablePurged(tables, policy, now, GroupScheduleTable, overrides);
  }

  lemma DeletedIsMatching(rows: Rows, cutoff: int)
    ensures |rows| == |Kept(rows, cutoff)| + |Matching(rows, cutoff)|
  {
    assert rows.Keys == Kept(rows, cutoff).Keys + Matching(rows, cutoff);
    assert |rows| == |rows.Keys| && |Kept(rows, cutoff)| == |Kept(rows, cutoff).Keys|;
  }

  /** How many rows of a table a purge deletes. */
  ghost function Deleted(tables: Tables, after: Tables, name: TableName): int
    requires Complete(tables) && Complete(after)
  {
    |tables[name]| - |after[name]|
  }

  lemma MatchingIsDeleted(tables: Tables, policy: Policy, now: int, name: TableName)
    requires Complete(tables)
    ensures var after := PurgedCategories(tables, CATEGORIES, policy, now);
            var cutoff := Cutoff(RuleFor(policy, CategoryOf(name)), now);
            && Complete(after)
            && Deleted(tables, after, name) == if cutoff.None? then 0 else |Matching(tables[name], cutoff.value)|
  {
    var cutoff := Cutoff(RuleFor(policy, CategoryOf(name)), now);
    CategoriesIndependent(tables, CATEGORIES, policy, now, name);
    AllCategories();
    if cutoff.Some? {
      DeletedIsMatching(tables[name], cutoff.value);
    }
  }

  /** Each preview counts the rows the purge will delete from its own tables. */
  lemma PreviewIsDeleted(tables: Tables, policy: Policy, now: int)
    requires Complete(tables)
    ensures var after := PurgedCategories(tables, CATEGORIES, policy, now);
            && Complete(after)
            && Preview(tables, UsageSamples, policy, now).count == Deleted(tables, after, UsageTable)
            && Preview(tables, GrantLedger, policy, now).count == Deleted(tables, after, GrantTable)
            && Preview(tables, AuditLog, policy, now).count == Deleted(tables, after, AuditTable)
            && Preview(tables, DateOverrides, policy, now).count
               == Deleted(tables, after, ExceptionTable) + Deleted(tables, after, GroupExceptionTable)
                  + Deleted(tables, after, ScheduleTable) + Deleted(tables, after, GroupScheduleTable)
  {
    hide PurgedCategories, Deleted, Matching, Cutoff;
    forall name: TableName
      ensures var after := PurgedCategories(tables, CATEGORIES, policy, now);
              var cutoff := Cutoff(RuleFor(policy, CategoryOf(name)), now);
              && Complete(after)
              && Deleted(tables, after, name) == if cutoff.None? then 0 else |Matching(tables[name], cutoff.value)| {
      MatchingIsDeleted(tables, policy, now, name);
    }
    var cutoff := Cutoff(RuleFor(policy, DateOverrides), now);
    if cutoff.Some? {
      CountFour(tables, cutoff.value);
    }
    forall category: Category, c: int | |TablesOf(category)| == 1
      ensures CountIn(tables, TablesOf(category), c) == |Matching(tables[TablesOf(category)[0]], c)| {
      assert TablesOf(category)[..0] == [];
    }
  }

  lemma CountFour(tables: Tables, cutoff: int)
    requires Complete(tables)
    ensures CountIn(tables, TablesOf(DateOverrides), cutoff)
            == |Matching(tables[ExceptionTable], cutoff)| + |Matching(tables[GroupExceptionTable], cutoff)|
               + |Matching(tables[ScheduleTable], cutoff)| + |Matching(tables[GroupScheduleTable], cutoff)|
  {
    var one, two, three := [ExceptionTable], [ExceptionTable, GroupExceptionTable],
                           [ExceptionTable, GroupExceptionTable, ScheduleTable];
    assert [] + [ExceptionTable] == one && one + [GroupExceptionTable] == two;
    assert two + [ScheduleTable] == three && three + [GroupScheduleTable] == TablesOf(DateOverrides);
    CountAppend(tables, [], ExceptionTable, cutoff);
    CountAppend(tables, one, GroupExceptionTable, cutoff);
    CountAppend(tables, two, ScheduleTable, cutoff);
    CountAppend(tables, three, GroupScheduleTable, cutoff);
  }

  lemma CountAppend(tables: Tables, names: seq<TableName>, name: TableName, cutoff: int)
    requires Complete(tables)
    ensures CountIn(tables, names + [name], cutoff) == CountIn(tables, names, cutoff) + |Matching(tables[name], cutoff)|
  {
    assert (names + [name])[..|names|] == names;
  }
}
