// Small shared vocabulary: optional values, arithmetic helpers, and the stable
// sort and filter that stand for the JavaScript array methods of the same names.

module Common {

  datatype Option<+T> = None | Some(value: T) {
    function GetOr(default: T): T {
      match this
      case Some(v) => v
      case None => default
    }
  }

  function Min(a: int, b: int): int {
    if a <= b then a else b
  }

  function Max(a: int, b: int): int {
    if a >= b then a else b
  }

  const MS_PER_DAY := 24 * 60 * 60 * 1000

  /** Stored timestamps are whole seconds, rounded down. */
  function FloorSeconds(ms: int): int {
    ms / 1000
  }

  // ----- sorting -----

  type Rank = (int, int)

  /** Lexicographic order on a pair of sort keys. */
  predicate RankLeq(a: Rank, b: Rank) {
    a.0 < b.0 || (a.0 == b.0 && a.1 <= b.1)
  }

  ghost predicate SortedBy<T>(rank: T -> Rank, s: seq<T>) {
    forall i, j | 0 <= i < j < |s| :: RankLeq(rank(s[i]), rank(s[j]))
  }

  /** Insert before the first element that is not smaller, so equal keys keep their input order. */
  function Insert<T>(rank: T -> Rank, x: T, s: seq<T>): seq<T> {
    if s == [] || RankLeq(rank(x), rank(s[0])) then [x] + s
    else [s[0]] + Insert(rank, x, s[1..])
  }

  /** The stable ascending sort by `rank` (Array.prototype.sort is stable). */
  function SortBy<T>(rank: T -> Rank, s: seq<T>): seq<T> {
    if s == [] then [] else Insert(rank, s[0], SortBy(rank, s[1..]))
  }

  lemma {:induction false} InsertContents<T>(rank: T -> Rank, x: T, s: seq<T>)
    ensures multiset(Insert(rank, x, s)) == multiset{x} + multiset(s)
  {
    if s != [] && !RankLeq(rank(x), rank(s[0])) {
      InsertContents(rank, x, s[1..]);
      assert s == [s[0]] + s[1..];
    }
  }

  lemma {:induction false} InsertSorted<T>(rank: T -> Rank, x: T, s: seq<T>)
    requires SortedBy(rank, s)
    ensures SortedBy(rank, Insert(rank, x, s))
  {
    if s != [] && !RankLeq(rank(x), rank(s[0])) {
      InsertSorted(rank, x, s[1..]);
      var tail := Insert(rank, x, s[1..]);
      InsertContents(rank, x, s[1..]);
      forall j | 0 <= j < |tail| ensures RankLeq(rank(s[0]), rank(tail[j])) {
        assert tail[j] in multiset(tail);
        assert tail[j] == x || tail[j] in s[1..];
      }
    } else if s != [] {
      forall j | 0 <= j < |s| ensures RankLeq(rank(x), rank(s[j])) {
        assert j > 0 ==> RankLeq(rank(s[0]), rank(s[j]));
      }
    }
  }

  lemma SortByContents<T>(rank: T -> Rank, s: seq<T>)
    ensures multiset(SortBy(rank, s)) == multiset(s)
    ensures |SortBy(rank, s)| == |s|
    ensures forall x :: x in SortBy(rank, s) <==> x in s
  {
    SortByMultiset(rank, s);
    hide SortBy;
    var sorted := SortBy(rank, s);
    assert |multiset(sorted)| == |multiset(s)|;
    assert forall x :: x in sorted <==> x in multiset(sorted);
    assert forall x :: x in s <==> x in multiset(s);
  }

  lemma {:induction false} SortByMultiset<T>(rank: T -> Rank, s: seq<T>)
    ensures multiset(SortBy(rank, s)) == multiset(s)
  {
    if s != [] {
      SortByMultiset(rank, s[1..]);
      InsertContents(rank, s[0], SortBy(rank, s[1..]));
      assert s == [s[0]] + s[1..];
    }
  }

  lemma {:induction false} SortBySorted<T>(rank: T -> Rank, s: seq<T>)
    ensures SortedBy(rank, SortBy(rank, s))
  {
    if s != [] {
      SortBySorted(rank, s[1..]);
      InsertSorted(rank, s[0], SortBy(rank, s[1..]));
    }
  }

  /** Array.prototype.filter. */
  function Filter<T>(keep: T -> bool, s: seq<T>): seq<T> {
    if s == [] then []
    else (if keep(s[0]) then [s[0]] else []) + Filter(keep, s[1..])
  }

  lemma {:induction false} FilterMember<T>(keep: T -> bool, s: seq<T>, x: T)
    ensures x in Filter(keep, s) <==> x in s && keep(x)
  {
    if s != [] {
      FilterMember(keep, s[1..], x);
      assert s == [s[0]] + s[1..];
    }
  }

  lemma {:induction false} FilterAgree<T>(p: T -> bool, q: T -> bool, s: seq<T>)
    requires forall x | x in s :: p(x) == q(x)
    ensures Filter(p, s) == Filter(q, s)
  {
    if s != [] {
      FilterAgree(p, q, s[1..]);
    }
  }

  /** Array.prototype.map. */
  function Map<T, U>(f: T -> U, s: seq<T>): (r: seq<U>)
    ensures |r| == |s|
    ensures forall i | 0 <= i < |s| :: r[i] == f(s[i])
  {
    seq(|s|, i requires 0 <= i < |s| => f(s[i]))
  }

  lemma {:induction false} FilterConcat<T>(keep: T -> bool, a: seq<T>, b: seq<T>)
    ensures Filter(keep, a + b) == Filter(keep, a) + Filter(keep, b)
  {
    if a == [] {
      assert a + b == b;
    } else {
      assert (a + b)[0] == a[0] && (a + b)[1..] == a[1..] + b;
      FilterConcat(keep, a[1..], b);
      var head := if keep(a[0]) then [a[0]] else [];
      assert Filter(keep, a + b) == head + Filter(keep, a[1..] + b);
      assert Filter(keep, a) == head + Filter(keep, a[1..]);
    }
  }

  lemma {:induction false} FilterKeepsOrder<T>(rank: T -> Rank, keep: T -> bool, s: seq<T>)
    requires SortedBy(rank, s)
    ensures SortedBy(rank, Filter(keep, s))
  {
    if s != [] {
      FilterKeepsOrder(rank, keep, s[1..]);
      var tail := Filter(keep, s[1..]);
      forall j | 0 <= j < |tail| ensures RankLeq(rank(s[0]), rank(tail[j])) {
        FilterMember(keep, s[1..], tail[j]);
      }
    }
  }

  lemma {:induction false} FilterCons<T>(keep: T -> bool, x: T, s: seq<T>)
    ensures Filter(keep, [x] + s) == (if keep(x) then [x] else []) + Filter(keep, s)
  {
    assert ([x] + s)[1..] == s;
  }

  lemma {:induction false} FilterInsert<T>(rank: T -> Rank, keep: T -> bool, x: T, s: seq<T>)
    requires SortedBy(rank, s)
    ensures Filter(keep, Insert(rank, x, s))
            == if keep(x) then Insert(rank, x, Filter(keep, s)) else Filter(keep, s)
  {
    if s == [] || RankLeq(rank(x), rank(s[0])) {
      FilterCons(keep, x, s);
      var kept := Filter(keep, s);
      if kept != [] {
        FilterMember(keep, s, kept[0]);
        var j :| 0 <= j < |s| && s[j] == kept[0];
        assert RankLeq(rank(s[0]), rank(s[j])) || j == 0;
      }
    } else {
      FilterCons(keep, s[0], Insert(rank, x, s[1..]));
      FilterInsert(rank, keep, x, s[1..]);
      var rest := Filter(keep, s[1..]);
      if keep(s[0]) {
        var kept := Filter(keep, s);
        assert kept == [s[0]] + rest;
        assert kept[0] == s[0] && kept[1..] == rest;
      } else {
        assert Filter(keep, s) == rest;
      }
    }
  }

  /** Stable sorting and filtering commute. */
  lemma {:induction false} FilterSort<T>(rank: T -> Rank, keep: T -> bool, s: seq<T>)
    ensures Filter(keep, SortBy(rank, s)) == SortBy(rank, Filter(keep, s))
  {
    if s != [] {
      FilterSort(rank, keep, s[1..]);
      SortBySorted(rank, s[1..]);
      FilterInsert(rank, keep, s[0], SortBy(rank, s[1..]));
      var kept := Filter(keep, s[1..]);
      if keep(s[0]) {
        assert ([s[0]] + kept)[1..] == kept;
        assert Filter(keep, s) == [s[0]] + kept;
      } else {
        assert Filter(keep, s) == kept;
      }
    }
  }

  /** A sequence that is already in order is left as it is. */
  lemma {:induction false} SortSorted<T>(rank: T -> Rank, s: seq<T>)
    requires SortedBy(rank, s)
    ensures SortBy(rank, s) == s
  {
    if s != [] {
      SortSorted(rank, s[1..]);
      assert s == [s[0]] + s[1..];
    }
  }

  // ----- mapping -----

  lemma MapCons<T, U>(f: T -> U, x: T, s: seq<T>)
    ensures Map(f, [x] + s) == [f(x)] + Map(f, s)
  {
  }

  lemma {:induction false} InsertMapped<T, U>(rank: T -> Rank, f: T -> U, x: T, s: seq<T>)
    ensures multiset(Map(f, Insert(rank, x, s))) == multiset{f(x)} + multiset(Map(f, s))
  {
    if s == [] || RankLeq(rank(x), rank(s[0])) {
      MapCons(f, x, s);
    } else {
      InsertMapped(rank, f, x, s[1..]);
      MapCons(f, s[0], Insert(rank, x, s[1..]));
      MapCons(f, s[0], s[1..]);
      assert s == [s[0]] + s[1..];
    }
  }

  /** Sorting permutes whatever is read off the elements. */
  lemma {:induction false} SortByMapped<T, U>(rank: T -> Rank, f: T -> U, s: seq<T>)
    ensures multiset(Map(f, SortBy(rank, s))) == multiset(Map(f, s))
  {
    if s != [] {
      SortByMapped(rank, f, s[1..]);
      InsertMapped(rank, f, s[0], SortBy(rank, s[1..]));
      MapCons(f, s[0], s[1..]);
      assert s == [s[0]] + s[1..];
    }
  }

  // ----- first match -----

  /** Array.prototype.find. */
  function Find<T>(p: T -> bool, s: seq<T>): Option<T> {
    if s == [] then None
    else if p(s[0]) then Some(s[0])
    else Find(p, s[1..])
  }

  lemma {:induction false} FindMeaning<T>(p: T -> bool, s: seq<T>)
    ensures Find(p, s).Some? ==> Find(p, s).value in s && p(Find(p, s).value)
    ensures Find(p, s).None? <==> forall x | x in s :: !p(x)
  {
    if s != [] {
      FindMeaning(p, s[1..]);
      assert s == [s[0]] + s[1..];
    }
  }

  /** Where a match was found, and that nothing before it matches. */
  lemma {:induction false} FindPosition<T>(p: T -> bool, s: seq<T>) returns (k: nat)
    requires Find(p, s).Some?
    ensures k < |s| && p(s[k]) && Find(p, s) == Some(s[k])
    ensures forall j | 0 <= j < k :: !p(s[j])
  {
    if p(s[0]) {
      k := 0;
    } else {
      var rest := FindPosition(p, s[1..]);
      k := rest + 1;
    }
  }

  lemma {:induction false} FindAgree<T>(p: T -> bool, q: T -> bool, s: seq<T>)
    requires forall x | x in s :: p(x) == q(x)
    ensures Find(p, s) == Find(q, s)
  {
    if s != [] {
      FindAgree(p, q, s[1..]);
    }
  }

  lemma {:induction false} FindCons<T>(p: T -> bool, x: T, s: seq<T>)
    ensures Find(p, [x] + s) == if p(x) then Some(x) else Find(p, s)
  {
    assert ([x] + s)[1..] == s;
  }

  function Both<T>(p: T -> bool, q: T -> bool): T -> bool {
    x => p(x) && q(x)
  }

  lemma {:induction false} FindFilter<T>(p: T -> bool, keep: T -> bool, s: seq<T>)
    ensures Find(p, Filter(keep, s)) == Find(Both(keep, p), s)
  {
    if s != [] {
      FindFilter(p, keep, s[1..]);
      FindCons(p, s[0], Filter(keep, s[1..]));
      assert keep(s[0]) ==> Filter(keep, s) == [s[0]] + Filter(keep, s[1..]);
      assert !keep(s[0]) ==> Filter(keep, s) == Filter(keep, s[1..]);
    }
  }

  lemma {:induction false} FindConcat<T>(p: T -> bool, a: seq<T>, b: seq<T>)
    ensures Find(p, a + b) == if Find(p, a).Some? then Find(p, a) else Find(p, b)
  {
    if a == [] {
      assert a + b == b;
    } else {
      assert (a + b)[1..] == a[1..] + b;
      FindConcat(p, a[1..], b);
    }
  }

  // ----- sets of integers in ascending order -----

  ghost predicate Ascending(s: seq<int>) {
    forall i, j | 0 <= i < j < |s| :: s[i] < s[j]
  }

  /** A JavaScript Set of numbers, as its elements in insertion order. */
  function AddToSet(s: seq<int>, x: int): seq<int> {
    if x in s then s else s + [x]
  }

  ghost predicate NoDuplicates<T>(s: seq<T>) {
    forall i, j | 0 <= i < j < |s| :: s[i] != s[j]
  }

  function Self(x: int): Rank {
    (x, 0)
  }

  /** `[...set].sort((a, b) => a - b)`. */
  function SortNumbers(s: seq<int>): seq<int> {
    SortBy(Self, s)
  }

  lemma SortNumbersAscending(s: seq<int>)
    requires NoDuplicates(s)
    ensures Ascending(SortNumbers(s))
    ensures forall x :: x in SortNumbers(s) <==> x in s
  {
    var r := SortNumbers(s);
    SortBySorted(Self, s);
    SortByContents(Self, s);
    PermutationKeepsDistinct(s, r);
    forall i, j | 0 <= i < j < |r| ensures r[i] < r[j] {
      assert RankLeq(Self(r[i]), Self(r[j]));
    }
  }

  lemma {:induction false} CountAtMostOne<T>(s: seq<T>, x: T)
    requires NoDuplicates(s)
    ensures multiset(s)[x] <= 1
  {
    if s != [] {
      assert s == [s[0]] + s[1..];
      CountAtMostOne(s[1..], x);
      if s[0] == x {
        assert x !in s[1..];
      }
    }
  }

  lemma DuplicateCounts<T>(r: seq<T>, i: nat, j: nat)
    requires i < j < |r| && r[i] == r[j]
    ensures multiset(r)[r[i]] >= 2
  {
    assert r == r[..j] + [r[j]] + r[j + 1..];
    assert r[i] == r[..j][i];
    assert r[i] in multiset(r[..j]);
  }

  lemma PermutationKeepsDistinct<T>(s: seq<T>, r: seq<T>)
    requires NoDuplicates(s) && multiset(s) == multiset(r)
    ensures NoDuplicates(r)
  {
    forall i, j | 0 <= i < j < |r| ensures r[i] != r[j] {
      CountAtMostOne(s, r[i]);
      if r[i] == r[j] {
        DuplicateCounts(r, i, j);
      }
    }
  }

  // ----- sets -----

  /** Some member, in no particular order. */
  method Pick<T>(s: set<T>) returns (x: T)
    requires s != {}
    ensures x in s
  {
    x :| x in s;
  }
}
