// Retention windows per category, when a record is expired, and the cutoff instant a
// set-based deletion compares with.

module Retention {
  import opened Common

  datatype Category = UsageSamples | DateOverrides | AuditLog | GrantLedger

  datatype Rule = KeepForever | KeepDays(days: int)

  datatype Override = Override(category: Category, keepForever: bool, days: Option<int>)

  /** The stored pair must be coherent: a finite window carries a positive day count. */
  function OverrideToResolved(o: Override): Option<Rule> {
    if o.keepForever then Some(KeepForever)
    else if o.days.None? || o.days.value <= 0 then None
    else Some(KeepDays(o.days.value))
  }

  datatype Policy = Policy(defaultDays: int, overrides: map<Category, Rule>)

  /** The last override of a category counts. */
  function LastOverride(rows: seq<Override>, category: Category): Option<Override> {
    if rows == [] then None
    else
      var last := rows[|rows| - 1];
      if last.category == category then Some(last) else LastOverride(rows[..|rows| - 1], category)
  }

  /** What a policy says of a category after the rows read so far. */
  ghost predicate ReadSoFar(resolved: map<Category, Rule>, rows: seq<Override>, category: Category) {
    var o := LastOverride(rows, category);
    && (category in resolved <==> o.Some?)
    && (o.Some? ==> OverrideToResolved(o.value) == Some(resolved[category]))
  }

  /** Build a policy from the stored overrides; any incoherent row fails the whole policy. */
  method FromOverrides(defaultDays: int, rows: seq<Override>) returns (policy: Option<Policy>)
    ensures policy.None? <==> exists i :: 0 <= i < |rows| && OverrideToResolved(rows[i]).None?
    ensures policy.Some? ==> policy.value.defaultDays == defaultDays
                             && forall category :: ReadSoFar(policy.value.overrides, rows, category)
  {
    var resolved: map<Category, Rule> := map[];
    for i := 0 to |rows|
      invariant forall k | 0 <= k < i :: OverrideToResolved(rows[k]).Some?
      invariant forall category :: ReadSoFar(resolved, rows[..i], category)
    {
      var rule := OverrideToResolved(rows[i]);
      if rule.None? {
        return None;
      }
      ghost var before, done := resolved, rows[..i + 1];
      assert done[..i] == rows[..i];
      resolved := resolved[rows[i].category := rule.value];
      forall category ensures ReadSoFar(resolved, done, category) {
        assert ReadSoFar(before, rows[..i], category);
      }
    }
    assert rows[..|rows|] == rows;
    return Some(Policy(defaultDays, resolved));
  }

  /**
   * What a policy takes from the stored rows: a category is overridden exactly when a row
   * names it, and by the last such row, which keeps forever or for a positive day count.
   */
  lemma OverridesMeaning(resolved: map<Category, Rule>, rows: seq<Override>, category: Category)
    requires ReadSoFar(resolved, rows, category)
    ensures category in resolved <==> exists i :: 0 <= i < |rows| && rows[i].category == category
    ensures forall i | 0 <= i < |rows| && rows[i].category == category
                       && forall k | i < k < |rows| :: rows[k].category != category ::
              if rows[i].keepForever then resolved[category] == KeepForever
              else rows[i].days.Some? && rows[i].days.value >= 1 && resolved[category] == KeepDays(rows[i].days.value)
  {
    LastIsLast(rows, category);
  }

  lemma {:induction false} LastIsLast(rows: seq<Override>, category: Category)
    ensures LastOverride(rows, category).Some? <==> exists i :: 0 <= i < |rows| && rows[i].category == category
    ensures forall i | 0 <= i < |rows| && rows[i].category == category
                       && forall k | i < k < |rows| :: rows[k].category != category ::
              LastOverride(rows, category) == Some(rows[i])
  {
    if rows != [] {
      var n := |rows| - 1;
      var init := rows[..n];
      LastIsLast(init, category);
      if rows[n].category != category {
        assert forall i | 0 <= i < n :: init[i] == rows[i];
        if i :| 0 <= i < |rows| && rows[i].category == category {
          assert init[i].category == category;
        }
      }
    }
  }

  /** A row is refused exactly when it is finite without a positive day count. */
  lemma IncoherentExactly(o: Override)
    ensures OverrideToResolved(o).None? <==> !o.keepForever && forall d :: o.days == Some(d) ==> d < 1
  {
    if o.days.Some? {
      assert o.days == Some(o.days.value);
    }
  }

  /** An override, or else the default window. */
  function RuleFor(policy: Policy, category: Category): Rule {
    if category in policy.overrides then policy.overrides[category] else KeepDays(policy.defaultDays)
  }

  /** Strictly older than the window; a record exactly that old is retained. */
  predicate IsExpired(timestamp: int, rule: Rule, now: int) {
    rule.KeepDays? && now - timestamp > rule.days * MS_PER_DAY
  }

  function Cutoff(rule: Rule, now: int): Option<int> {
    match rule
    case KeepForever => None
    case KeepDays(days) => Some(now - days * MS_PER_DAY)
  }

  /** In milliseconds, expiry is being strictly before the cutoff. */
  lemma ExpiredIsBeforeCutoff(timestamp: int, rule: Rule, now: int)
    ensures IsExpired(timestamp, rule, now) <==> Cutoff(rule, now).Some? && timestamp < Cutoff(rule, now).value
  {
  }

  /** The stored comparison: both sides are whole seconds. A row without a date never matches. */
  predicate Purgeable(stored: Option<int>, cutoff: int) {
    stored.Some? && stored.value < FloorSeconds(cutoff)
  }

  /** However the timestamp was rounded when stored, no record that is not expired is purgeable. */
  lemma PurgeOnlyExpired(timestamp: int, rule: Rule, now: int)
    requires Cutoff(rule, now).Some? && Purgeable(Some(FloorSeconds(timestamp)), Cutoff(rule, now).value)
    ensures IsExpired(timestamp, rule, now)
  {
  }

  /**
   * A stored row is purgeable exactly when it is expired, except in the second the
   * cutoff falls inside: there it is expired and yet kept.
   */
  lemma PurgeableExactly(stored: int, rule: Rule, now: int)
    requires rule.KeepDays?
    ensures var cutoff := Cutoff(rule, now).value;
            Purgeable(Some(stored), cutoff)
            <==> IsExpired(stored * 1000, rule, now) && !(stored == FloorSeconds(cutoff) && cutoff % 1000 != 0)
  {
  }

  /** A record half a second too old that the purge keeps. */
  lemma ExpiredButKept()
    ensures IsExpired(0, KeepDays(1), MS_PER_DAY + 500)
    ensures !Purgeable(Some(0), Cutoff(KeepDays(1), MS_PER_DAY + 500).value)
  {
  }
}
