// Which activity an application name counts against.

module ActivityMatcher {
  import opened Common
  import opened GlobPattern

  datatype MatchableActivity = MatchableActivity(id: int, matchType: MatchType, matcher: string)

  /** The host's string functions: lower-casing, the engine behind globs, and compiling a free regular expression. */
  datatype Host = Host(lower: string -> string, engine: Engine, compile: string -> Option<string -> bool>)

  /** Only a regular expression can be unusable. */
  function Usable(host: Host): MatchableActivity -> bool {
    (a: MatchableActivity) => a.matchType.Regex? ==> host.compile(a.matcher).Some?
  }

  /** Whether an activity's matcher accepts a name; an unusable one accepts none. */
  predicate Accepts(host: Host, a: MatchableActivity, candidate: string) {
    match a.matchType
    case Exact => host.lower(candidate) == host.lower(a.matcher)
    case Substring => HasPart(host.lower(candidate), host.lower(a.matcher))
    case GlobMatch => GlobMatches(a.matcher, candidate, host.engine)
    case Regex => host.compile(a.matcher).Some? && host.compile(a.matcher).value(candidate)
  }

  function ById(a: MatchableActivity): Rank {
    (a.id, 0)
  }

  /** The usable matchers, ascending by id. */
  method CompileMatchers(host: Host, activities: seq<MatchableActivity>) returns (compiled: seq<MatchableActivity>)
    ensures compiled == SortBy(ById, Filter(Usable(host), activities))
  {
    var usable: seq<MatchableActivity> := [];
    for i := 0 to |activities|
      invariant usable == Filter(Usable(host), activities[..i])
    {
      assert activities[..i + 1] == activities[..i] + [activities[i]];
      FilterConcat(Usable(host), activities[..i], [activities[i]]);
      assert [activities[i]][1..] == [];
      assert usable + [] == usable;
      if Usable(host)(activities[i]) {
        usable := usable + [activities[i]];
      }
    }
    assert activities[..|activities|] == activities;
    compiled := SortBy(ById, usable);
  }

  /** Exact matchers outrank all others; within a tier the lowest id counts. */
  predicate Outranks(a: MatchableActivity, b: MatchableActivity) {
    (a.matchType.Exact? && !b.matchType.Exact?) || (a.matchType.Exact? == b.matchType.Exact? && a.id <= b.id)
  }

  /** The accepting activity that outranks every accepting one. */
  ghost predicate Wins(host: Host, activities: seq<MatchableActivity>, candidate: string, winner: MatchableActivity) {
    && winner in activities && Accepts(host, winner, candidate)
    && forall a | a in activities && Accepts(host, a, candidate) :: Outranks(winner, a)
  }

  /** Resolve a name against matchers sorted by id. */
  method ResolveActivityId(host: Host, compiled: seq<MatchableActivity>, candidate: string) returns (id: Option<int>)
    requires SortedBy(ById, compiled)
    ensures id.None? <==> forall a | a in compiled :: !Accepts(host, a, candidate)
    ensures id.Some? ==> exists winner :: Wins(host, compiled, candidate, winner) && winner.id == id.value
  {
    var firstPattern: Option<int> := None;
    ghost var best: Option<MatchableActivity> := None;
    for i := 0 to |compiled|
      invariant firstPattern.Some? <==> best.Some?
      invariant best.None? ==> forall k | 0 <= k < i :: !Accepts(host, compiled[k], candidate)
      invariant best.Some? ==>
                  && best.value in compiled && Accepts(host, best.value, candidate)
                  && !best.value.matchType.Exact? && firstPattern.value == best.value.id
                  && forall k | 0 <= k < |compiled| && (k < i ==> Accepts(host, compiled[k], candidate)) ::
                       best.value.id <= compiled[k].id
      invariant forall k | 0 <= k < i && Accepts(host, compiled[k], candidate) :: !compiled[k].matchType.Exact?
    {
      var matcher := compiled[i];
      if !Accepts(host, matcher, candidate) {
        continue;
      }
      assert forall j | i < j < |compiled| :: RankLeq(ById(compiled[i]), ById(compiled[j]));
      if matcher.matchType.Exact? {
        assert Wins(host, compiled, candidate, matcher);
        return Some(matcher.id);
      }
      if firstPattern.None? {
        firstPattern := Some(matcher.id);
        best := Some(matcher);
      }
    }
    if best.Some? {
      assert Wins(host, compiled, candidate, best.value);
    }
    id := firstPattern;
  }

  ghost predicate DistinctIds(activities: seq<MatchableActivity>) {
    forall i, j | 0 <= i < j < |activities| :: activities[i].id != activities[j].id
  }

  /** With distinct ids there is at most one winner. */
  lemma OneWinner(
    host: Host, activities: seq<MatchableActivity>, candidate: string, a: MatchableActivity, b: MatchableActivity)
    requires DistinctIds(activities)
    requires Wins(host, activities, candidate, a) && Wins(host, activities, candidate, b)
    ensures a == b
  {
    var i :| 0 <= i < |activities| && activities[i] == a;
    var j :| 0 <= j < |activities| && activities[j] == b;
    assert a.id == b.id;
    assert i == j;
  }

  /** Compiling drops no activity that could win, so the winner is one over the stored rows, in whatever order. */
  lemma CompilingKeepsWinner(
    host: Host, activities: seq<MatchableActivity>, candidate: string, winner: MatchableActivity)
    ensures var compiled := SortBy(ById, Filter(Usable(host), activities));
            && SortedBy(ById, compiled)
            && (Wins(host, compiled, candidate, winner) <==> Wins(host, activities, candidate, winner))
  {
    var usable := Filter(Usable(host), activities);
    SortBySorted(ById, usable);
    SortByContents(ById, usable);
    forall a | Accepts(host, a, candidate) ensures a in usable <==> a in activities {
      FilterMember(Usable(host), activities, a);
    }
  }

  /** End to end: the resolved activity is the one that outranks every accepting stored activity. */
  method ResolveName(host: Host, activities: seq<MatchableActivity>, candidate: string) returns (id: Option<int>)
    ensures id.Some? <==> exists a :: a in activities && Accepts(host, a, candidate)
    ensures id.Some? ==> exists winner :: Wins(host, activities, candidate, winner) && winner.id == id.value
    ensures id.Some? && DistinctIds(activities) ==>
              forall a | Wins(host, activities, candidate, a) :: a.id == id.value
  {
    var compiled := CompileMatchers(host, activities);
    SortBySorted(ById, Filter(Usable(host), activities));
    SortByContents(ById, Filter(Usable(host), activities));
    id := ResolveActivityId(host, compiled, candidate);
    forall a | a in activities && Accepts(host, a, candidate) ensures a in compiled {
      FilterMember(Usable(host), activities, a);
    }
    forall a | a in compiled ensures a in activities {
      FilterMember(Usable(host), activities, a);
    }
    if id.Some? {
      ghost var winner :| Wins(host, compiled, candidate, winner) && winner.id == id.value;
      CompilingKeepsWinner(host, activities, candidate, winner);
      forall a | DistinctIds(activities) && Wins(host, activities, candidate, a) ensures a.id == id.value {
        OneWinner(host, activities, candidate, winner, a);
      }
    }
  }

  /** What a matcher says of a name: the same text, part of it, the anchored expression, or the compiled one. */
  ghost predicate Describes(host: Host, a: MatchableActivity, candidate: string) {
    var name, text := host.lower(candidate), host.lower(a.matcher);
    match a.matchType
    case Exact => text == name
    case Substring => exists before, after :: before + text + after == name
    case GlobMatch =>
      exists pieces :: Parse(PatternText(a.matcher)) == Some(pieces) && Matches(pieces, candidate, host.engine)
    case Regex => exists f: string -> bool :: host.compile(a.matcher) == Some(f) && f(candidate)
  }

  lemma PartOfWhole(s: string, part: string)
    ensures HasPart(s, part) <==> exists before, after :: before + part + after == s
  {
    if HasPart(s, part) {
      var i, j :| 0 <= i <= j <= |s| && s[i..j] == part;
      assert s[..i] + part + s[j..] == s;
    }
    if before, after :| before + part + after == s {
      assert s[|before|..|before| + |part|] == part;
    }
  }

  /** An activity accepts a name exactly when its matcher describes it. */
  lemma AcceptsDescribed(host: Host, a: MatchableActivity, candidate: string)
    ensures Accepts(host, a, candidate) <==> Describes(host, a, candidate)
  {
    hide Matches, GlobMatches, Parse;
    match a.matchType
    case Exact =>
    case Substring =>
      PartOfWhole(host.lower(candidate), host.lower(a.matcher));
    case GlobMatch =>
      CompiledGlobIsGlob(a.matcher, candidate, host.engine);
      assert Parse(PatternText(a.matcher)) == Some(Parse(PatternText(a.matcher)).value);
    case Regex =>
      if Accepts(host, a, candidate) {
        assert host.compile(a.matcher) == Some(host.compile(a.matcher).value);
      }
  }

  /**
   * The winner describes the name. A pattern wins only where no exact matcher describes
   * it, and no matcher of the winner's kind with a lower id describes it.
   */
  lemma WinnerPlainly(host: Host, activities: seq<MatchableActivity>, candidate: string, winner: MatchableActivity)
    ensures Wins(host, activities, candidate, winner)
            <==> && winner in activities && Describes(host, winner, candidate)
                 && (!winner.matchType.Exact? ==>
                       forall a | a in activities && a.matchType.Exact? :: !Describes(host, a, candidate))
                 && forall a | a in activities && a.id < winner.id && a.matchType.Exact? == winner.matchType.Exact? ::
                      !Describes(host, a, candidate)
  {
    forall a: MatchableActivity ensures Accepts(host, a, candidate) <==> Describes(host, a, candidate) {
      AcceptsDescribed(host, a, candidate);
    }
    hide Accepts, Describes;
  }
}
