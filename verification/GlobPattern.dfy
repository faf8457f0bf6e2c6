// Glob matchers translated to regular expressions: the emitted text, how a regular
// expression engine reads it, and that reading it gives back the glob's own meaning.

module GlobPattern {
  import opened Common

  /** The characters both translators escape: `. * + ? ^ $ { } ( ) | [ ] \`. */
  predicate Meta(c: char) {
    c in {'.', '*', '+', '?', '^', '$', '{', '}', '(', ')', '|', '[', ']', '\\'}
  }

  function EscapeChar(c: char): string {
    if Meta(c) then ['\\', c] else [c]
  }

  /** A literal, escaped character by character. */
  function Escape(literal: string): string {
    if literal == "" then "" else EscapeChar(literal[0]) + Escape(literal[1..])
  }

  function Translate(c: char): string {
    if c == '*' then ".*" else if c == '?' then "." else EscapeChar(c)
  }

  /** The expression text of a glob. */
  function PatternText(glob: string): string {
    if glob == "" then "" else Translate(glob[0]) + PatternText(glob[1..])
  }

  /** What is emitted and what is still to translate make up the whole pattern. */
  ghost predicate Emitted(out: string, glob: string, i: nat) {
    i <= |glob| && out + PatternText(glob[i..]) == PatternText(glob)
  }

  lemma EmitNext(out: string, glob: string, i: nat)
    requires Emitted(out, glob, i) && i < |glob|
    ensures Emitted(out + Translate(glob[i]), glob, i + 1)
  {
    var rest := glob[i + 1..];
    assert glob[i..][0] == glob[i] && glob[i..][1..] == rest;
    assert out + (Translate(glob[i]) + PatternText(rest)) == (out + Translate(glob[i])) + PatternText(rest);
  }

  /** The translation as a loop over the glob. */
  method GlobToEre(glob: string) returns (out: string)
    ensures out == PatternText(glob)
  {
    out := "";
    assert Emitted(out, glob, 0) by {
      assert glob[0..] == glob;
    }
    hide Emitted, PatternText;
    for i := 0 to |glob|
      invariant Emitted(out, glob, i)
    {
      EmitNext(out, glob, i);
      var ch := glob[i];
      if ch == '*' {
        out := out + ".*";
      } else if ch == '?' {
        out := out + ".";
      } else {
        out := out + EscapeChar(ch);
      }
    }
    AllEmitted(out, glob);
  }

  lemma AllEmitted(out: string, glob: string)
    requires Emitted(out, glob, |glob|)
    ensures out == PatternText(glob)
  {
    assert glob[|glob|..] == "";
    assert out + "" == out;
  }

  // ----- reading an expression -----

  datatype Atom = Literal(c: char) | AnyChar

  /** One atom, possibly repeated any number of times. */
  datatype Piece = Piece(atom: Atom, starred: bool)

  /** The characters that mean something other than themselves to an engine, unless a backslash stands before them. */
  predicate Special(c: char) {
    c in "^$\\.*+?()[]{}|"
  }

  /** The first atom of a text and its length; none where the text leaves the fragment read here. */
  function FirstAtom(text: string): (r: Option<(Atom, nat)>)
    requires text != ""
    ensures r.Some? ==> 1 <= r.value.1 <= |text|
  {
    if text[0] == '\\' then
      if |text| >= 2 && Special(text[1]) then Some((Literal(text[1]), 2)) else None
    else if text[0] == '.' then Some((AnyChar, 1))
    else if Special(text[0]) then None
    else Some((Literal(text[0]), 1))
  }

  /** The pieces an engine reads: escaped or ordinary characters, dots, and stars on them. */
  function Parse(text: string): Option<seq<Piece>>
    decreases |text|
  {
    if text == "" then Some([])
    else
      var first := FirstAtom(text);
      if first.None? then None
      else
        var n := first.value.1;
        var starred := n < |text| && text[n] == '*';
        var rest := Parse(if starred then text[n + 1..] else text[n..]);
        if rest.None? then None else Some([Piece(first.value.0, starred)] + rest.value)
  }

  function PieceOf(c: char): Piece {
    if c == '*' then Piece(AnyChar, true) else if c == '?' then Piece(AnyChar, false) else Piece(Literal(c), false)
  }

  function LiteralPiece(c: char): Piece {
    Piece(Literal(c), false)
  }

  lemma {:induction false} NoLeadingStar(glob: string)
    ensures PatternText(glob) != "" ==> PatternText(glob)[0] != '*'
  {
    if glob != "" {
      assert PatternText(glob)[0] == Translate(glob[0])[0];
    }
  }

  lemma NoLeadingStarEscaped(literal: string)
    ensures Escape(literal) != "" ==> Escape(literal)[0] != '*'
  {
    if literal != "" {
      assert Escape(literal)[0] == EscapeChar(literal[0])[0];
    }
  }

  /** One translated character in front of a text without a leading star is read as its own piece. */
  lemma ReadsPiece(c: char, rest: string)
    requires rest != "" ==> rest[0] != '*'
    requires Parse(rest).Some?
    ensures Parse(Translate(c) + rest) == Some([PieceOf(c)] + Parse(rest).value)
    ensures Parse(EscapeChar(c) + rest) == Some([LiteralPiece(c)] + Parse(rest).value)
  {
    ReadsEscaped(c, rest);
    if c == '*' {
      assert (".*" + rest)[2..] == rest;
    } else if c == '?' {
      assert ("." + rest)[1..] == rest;
    }
  }

  lemma ReadsEscaped(c: char, rest: string)
    requires rest != "" ==> rest[0] != '*'
    requires Parse(rest).Some?
    ensures Parse(EscapeChar(c) + rest) == Some([LiteralPiece(c)] + Parse(rest).value)
  {
    var escaped := EscapeChar(c) + rest;
    assert escaped[|EscapeChar(c)|..] == rest;
  }

  /** What the translation emits is read back piece for piece: nothing in a glob can escape its literal meaning. */
  lemma {:induction false} ParsesAsGlob(glob: string)
    ensures Parse(PatternText(glob)) == Some(Map(PieceOf, glob))
  {
    if glob != "" {
      ParsesAsGlob(glob[1..]);
      NoLeadingStar(glob[1..]);
      ReadsPiece(glob[0], PatternText(glob[1..]));
      assert glob == [glob[0]] + glob[1..];
      MapCons(PieceOf, glob[0], glob[1..]);
    }
  }

  lemma {:induction false} ParsesAsLiteral(literal: string)
    ensures Parse(Escape(literal)) == Some(Map(LiteralPiece, literal))
  {
    if literal != "" {
      ParsesAsLiteral(literal[1..]);
      NoLeadingStarEscaped(literal[1..]);
      ReadsPiece(literal[0], Escape(literal[1..]));
      assert literal == [literal[0]] + literal[1..];
      MapCons(LiteralPiece, literal[0], literal[1..]);
    }
  }

  // ----- what expressions and globs match -----

  /** How an engine compares: which characters a dot stands for, and when two characters are the same. */
  datatype Engine = Engine(dot: char -> bool, same: (char, char) -> bool)

  predicate AtomMatches(atom: Atom, c: char, engine: Engine) {
    match atom
    case AnyChar => engine.dot(c)
    case Literal(l) => engine.same(l, c)
  }

  predicate RunMatches(atom: Atom, s: string, engine: Engine) {
    forall i | 0 <= i < |s| :: AtomMatches(atom, s[i], engine)
  }

  /** The whole string matches. */
  predicate Matches(pieces: seq<Piece>, s: string, engine: Engine)
    decreases |pieces|
  {
    if pieces == [] then s == ""
    else if pieces[0].starred then
      exists k | 0 <= k <= |s| :: RunMatches(pieces[0].atom, s[..k], engine) && Matches(pieces[1..], s[k..], engine)
    else s != "" && AtomMatches(pieces[0].atom, s[0], engine) && Matches(pieces[1..], s[1..], engine)
  }

  predicate AllDots(s: string, engine: Engine) {
    forall i | 0 <= i < |s| :: engine.dot(s[i])
  }

  /** The grammar's own meaning: `*` is any run, `?` any one character, and every other character itself. */
  predicate GlobMatches(glob: string, s: string, engine: Engine)
    decreases |glob|
  {
    if glob == "" then s == ""
    else if glob[0] == '*' then
      exists k | 0 <= k <= |s| :: AllDots(s[..k], engine) && GlobMatches(glob[1..], s[k..], engine)
    else if glob[0] == '?' then s != "" && engine.dot(s[0]) && GlobMatches(glob[1..], s[1..], engine)
    else s != "" && engine.same(glob[0], s[0]) && GlobMatches(glob[1..], s[1..], engine)
  }

  lemma {:induction false} PiecesMatchGlob(glob: string, s: string, engine: Engine)
    ensures Matches(Map(PieceOf, glob), s, engine) <==> GlobMatches(glob, s, engine)
    decreases |glob|
  {
    if glob != "" {
      var pieces := Map(PieceOf, glob);
      assert pieces[1..] == Map(PieceOf, glob[1..]);
      if glob[0] == '*' {
        forall k | 0 <= k <= |s|
          ensures Matches(pieces[1..], s[k..], engine) <==> GlobMatches(glob[1..], s[k..], engine)
          ensures RunMatches(AnyChar, s[..k], engine) <==> AllDots(s[..k], engine) {
          PiecesMatchGlob(glob[1..], s[k..], engine);
        }
      } else if s != "" {
        PiecesMatchGlob(glob[1..], s[1..], engine);
      }
    }
  }

  /** The anchored expression of a glob accepts exactly the strings the glob means. */
  lemma CompiledGlobIsGlob(glob: string, s: string, engine: Engine)
    ensures Parse(PatternText(glob)).Some?
    ensures Matches(Parse(PatternText(glob)).value, s, engine) <==> GlobMatches(glob, s, engine)
  {
    ParsesAsGlob(glob);
    PiecesMatchGlob(glob, s, engine);
  }

  /** An escaped literal accepts exactly itself, under exact comparison. */
  lemma {:induction false} LiteralMatchesItself(literal: string, s: string, engine: Engine)
    requires forall a, b :: engine.same(a, b) <==> a == b
    ensures Matches(Map(LiteralPiece, literal), s, engine) <==> s == literal
    decreases |literal|
  {
    if literal != "" {
      var pieces := Map(LiteralPiece, literal);
      assert pieces[1..] == Map(LiteralPiece, literal[1..]);
      assert literal == [literal[0]] + literal[1..];
      if s != "" {
        assert s == [s[0]] + s[1..];
        LiteralMatchesItself(literal[1..], s[1..], engine);
      }
    }
  }

  // ----- the kill pattern of an activity -----

  datatype MatchType = Exact | Substring | GlobMatch | Regex

  /** POSIX extended expressions: a dot is any character, comparison is exact. */
  const ERE := Engine((c: char) => true, (a: char, b: char) => a == b)

  /** A pattern found anywhere in a string. */
  predicate FoundIn(pieces: seq<Piece>, s: string, engine: Engine) {
    exists i, j | 0 <= i <= j <= |s| :: Matches(pieces, s[i..j], engine)
  }

  /** A kill request: whole-name comparison or a search of the command line, and the pattern. */
  function BuildPkillArgv(osUserRef: string, matcher: string, matchType: MatchType): Option<seq<string>> {
    if matcher == "" then None
    else
      match matchType
      case Exact => Some(["pkill", "-u", osUserRef, "-x", Escape(matcher)])
      case Substring => Some(["pkill", "-u", osUserRef, "-f", Escape(matcher)])
      case GlobMatch => Some(["pkill", "-u", osUserRef, "-f", PatternText(matcher)])
      case Regex => Some(["pkill", "-u", osUserRef, "-f", matcher])
  }

  lemma PatternNonempty(osUserRef: string, matcher: string, matchType: MatchType)
    ensures BuildPkillArgv(osUserRef, matcher, matchType).Some? <==> matcher != ""
    ensures matcher != "" ==> BuildPkillArgv(osUserRef, matcher, matchType).value[4] != ""
  {
    if matcher != "" {
      assert Translate(matcher[0]) != "" && EscapeChar(matcher[0]) != "";
      assert PatternText(matcher) != "" && Escape(matcher) != "";
    }
  }

  datatype Process = Process(owner: string, name: string, commandLine: string)

  /**
   * Whether `pkill -u OWNER -x PATTERN` or `pkill -u OWNER -f PATTERN` selects a process:
   * one of the owner's, by its whole name or anywhere in its command line.
   */
  predicate Kills(argv: seq<string>, process: Process) {
    && |argv| == 5 && argv[0] == "pkill" && argv[1] == "-u" && argv[2] == process.owner
    && var pieces := Parse(argv[4]);
       && pieces.Some?
       && ((argv[3] == "-x" && Matches(pieces.value, process.name, ERE))
           || (argv[3] == "-f" && FoundIn(pieces.value, process.commandLine, ERE)))
  }

  predicate HasPart(s: string, part: string) {
    exists i, j | 0 <= i <= j <= |s| :: s[i..j] == part
  }

  predicate HasGlobPart(s: string, glob: string) {
    exists i, j | 0 <= i <= j <= |s| :: GlobMatches(glob, s[i..j], ERE)
  }

  /**
   * What each kind of request selects, among the processes of the named owner only: the
   * exact name, a command line containing the text, or one some part of which the glob
   * matches; a regular expression goes through as it is.
   */
  lemma KillsExactly(osUserRef: string, matcher: string, matchType: MatchType, process: Process)
    requires matcher != ""
    ensures var argv := BuildPkillArgv(osUserRef, matcher, matchType).value;
            match matchType
            case Exact => Kills(argv, process) <==> process.owner == osUserRef && process.name == matcher
            case Substring =>
              Kills(argv, process) <==> process.owner == osUserRef && HasPart(process.commandLine, matcher)
            case GlobMatch =>
              Kills(argv, process) <==> process.owner == osUserRef && HasGlobPart(process.commandLine, matcher)
            case Regex => argv == ["pkill", "-u", osUserRef, "-f", matcher]
  {
    var name, commandLine := process.name, process.commandLine;
    ParsesAsLiteral(matcher);
    ParsesAsGlob(matcher);
    LiteralMatchesItself(matcher, name, ERE);
    forall i, j | 0 <= i <= j <= |commandLine|
      ensures Matches(Map(LiteralPiece, matcher), commandLine[i..j], ERE) <==> commandLine[i..j] == matcher
      ensures Matches(Map(PieceOf, matcher), commandLine[i..j], ERE) <==> GlobMatches(matcher, commandLine[i..j], ERE) {
      LiteralMatchesItself(matcher, commandLine[i..j], ERE);
      PiecesMatchGlob(matcher, commandLine[i..j], ERE);
    }
  }

  /** Unanchored on purpose: the kill for a glob can select what the glob itself does not match. */
  lemma KillIsBroader()
    ensures Kills(BuildPkillArgv("kid", "a", GlobMatch).value, Process("kid", "xa", "xa"))
    ensures !GlobMatches("a", "xa", ERE)
  {
    KillsExactly("kid", "a", GlobMatch, Process("kid", "xa", "xa"));
    assert "xa"[1..2] == "a";
    assert GlobMatches("a", "xa"[1..2], ERE) by {
      assert "a"[1..] == "";
    }
    assert HasGlobPart("xa", "a");
  }

  /** Under POSIX extended expressions `*` matches every string, `?` every single character, and a plain one itself. */
  lemma WildcardsMatch(glob: string, s: string)
    requires |glob| == 1
    ensures GlobMatches(glob, s, ERE) <==> glob[0] == '*' || (|s| == 1 && (glob[0] == '?' || s[0] == glob[0]))
  {
    assert glob[1..] == "";
    if glob[0] == '*' {
      assert s[|s|..] == "" && AllDots(s[..|s|], ERE);
      assert GlobMatches("", s[|s|..], ERE);
    } else if s != "" {
      assert GlobMatches("", s[1..], ERE) <==> s[1..] == "";
    }
  }
}
