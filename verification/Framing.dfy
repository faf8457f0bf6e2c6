// Newline-delimited frames on the bridge's local socket: the agent's reader, the
// bridge's writer, and the fact that the one inverts the other.

module Framing {
  import opened Common

  const DELIMITER := '\n'

  /** White space and line terminators, as String.prototype.trim strips them (ECMA-262). */
  predicate WhiteSpace(c: char) {
    var n := c as int;
    9 <= n <= 13 || 0x2000 <= n <= 0x200A
    || n in {0x20, 0xA0, 0x1680, 0x2028, 0x2029, 0x202F, 0x205F, 0x3000, 0xFEFF}
  }


  /** `line.trim() === ""`. */
  predicate Blank(line: string) {
    forall i | 0 <= i < |line| :: WhiteSpace(line[i])
  }

  /** The white space and line terminators of ECMA-262, one by one. */
  const BLANKS: set<int> := {
    0x09, 0x0A, 0x0B, 0x0C, 0x0D, 0x20, 0xA0, 0x1680, 0x2000, 0x2001, 0x2002, 0x2003, 0x2004, 0x2005, 0x2006, 0x2007,
    0x2008, 0x2009, 0x200A, 0x2028, 0x2029, 0x202F, 0x205F, 0x3000, 0xFEFF}

  /** A line is blank exactly when it has no character but these, wherever in it. */
  lemma BlankExactly(line: string)
    ensures Blank(line) <==> forall c | c in line :: c as int in BLANKS
  {
    if i :| 0 <= i < |line| && !WhiteSpace(line[i]) {
      assert line[i] in line;
    }
  }

  /** The position of the first delimiter, or -1. */
  function IndexOfDelimiter(s: string): (r: int)
    ensures -1 <= r < |s|
    ensures r >= 0 ==> s[r] == DELIMITER && DELIMITER !in s[..r]
    ensures r == -1 ==> DELIMITER !in s
  {
    if s == [] then -1
    else if s[0] == DELIMITER then 0
    else
      var rest := IndexOfDelimiter(s[1..]);
      assert s == [s[0]] + s[1..];
      assert rest >= 0 ==> s[..rest + 1] == [s[0]] + s[1..][..rest];
      if rest == -1 then -1 else rest + 1
  }

  // ----- the meaning of a character stream -----

  /** The complete lines of a text, without their delimiters. */
  function Lines(s: string): seq<string>
    decreases |s|
  {
    var i := IndexOfDelimiter(s);
    if i == -1 then [] else [s[..i]] + Lines(s[i + 1..])
  }

  /** What follows the last delimiter. */
  function Tail(s: string): string
    decreases |s|
  {
    var i := IndexOfDelimiter(s);
    if i == -1 then s else Tail(s[i + 1..])
  }

  function NonBlank(line: string): bool {
    !Blank(line)
  }

  /** The lines worth handling. */
  function FrameLines(s: string): seq<string> {
    Filter(NonBlank, Lines(s))
  }

  lemma IndexUnique(s: string, i: nat)
    requires i < |s| && s[i] == DELIMITER && DELIMITER !in s[..i]
    ensures IndexOfDelimiter(s) == i
  {
    assert DELIMITER in s;
  }

  lemma SplitsOff(s: string, i: nat)
    requires i < |s| && s[i] == DELIMITER && DELIMITER !in s[..i]
    ensures Lines(s) == [s[..i]] + Lines(s[i + 1..]) && Tail(s) == Tail(s[i + 1..])
  {
    hide IndexOfDelimiter;
    IndexUnique(s, i);
    assert IndexOfDelimiter(s) == i;
  }

  /** A text is its complete lines, each with its delimiter, and the tail. */
  lemma {:induction false} LinesAppend(s: string, t: string)
    ensures Lines(s + t) == Lines(s) + Lines(Tail(s) + t)
    ensures Tail(s + t) == Tail(Tail(s) + t)
    decreases |s|
  {
    hide IndexOfDelimiter, Lines, Tail;
    var i := IndexOfDelimiter(s);
    if i == -1 {
      NoLine(s);
      assert [] + Lines(s + t) == Lines(s + t);
    } else {
      var rest := s[i + 1..];
      assert (s + t)[..i] == s[..i] && (s + t)[i + 1..] == rest + t;
      SplitsOff(s, i);
      SplitsOff(s + t, i);
      LinesAppend(rest, t);
      assert [s[..i]] + (Lines(rest) + Lines(Tail(rest) + t)) == ([s[..i]] + Lines(rest)) + Lines(Tail(rest) + t);
    }
  }

  lemma NoLine(s: string)
    requires DELIMITER !in s
    ensures Lines(s) == [] && Tail(s) == s
  {
  }

  // ----- decoding -----

  /** The frames of some lines; an undecodable line is dropped. */
  function Decoded<F>(decode: string -> Option<F>, lines: seq<string>): seq<F> {
    if lines == [] then []
    else Decoded(decode, lines[..|lines| - 1])
         + if decode(lines[|lines| - 1]).Some? then [decode(lines[|lines| - 1]).value] else []
  }

  lemma {:induction false} DecodedConcat<F>(decode: string -> Option<F>, a: seq<string>, b: seq<string>)
    ensures Decoded(decode, a + b) == Decoded(decode, a) + Decoded(decode, b)
  {
    if b == [] {
      assert a + b == a;
    } else {
      var n := |b| - 1;
      assert (a + b)[..|a| + n] == a + b[..n];
      DecodedConcat(decode, a, b[..n]);
    }
  }

  /** A line that does not decode changes nothing for the lines around it. */
  lemma BadLineIsLocal<F>(decode: string -> Option<F>, before: seq<string>, bad: string, after: seq<string>)
    requires decode(bad).None?
    ensures Decoded(decode, before + [bad] + after) == Decoded(decode, before + after)
  {
    DecodedConcat(decode, before + [bad], after);
    DecodedConcat(decode, before, [bad]);
    DecodedConcat(decode, before, after);
    assert Decoded(decode, [bad]) == [] by {
      assert [bad][..0] == [];
    }
    assert Decoded(decode, before) + [] == Decoded(decode, before);
  }

  // ----- the reader -----

  /** Handled lines, then those still in the buffer, are the stream's; the rest of the buffer is its unfinished tail. */
  ghost predicate Owes(handled: seq<string>, buffer: string, stream: string) {
    handled + FrameLines(buffer) == FrameLines(stream) && Tail(buffer) == Tail(stream)
  }

  /** A connected agent: `stream` is everything received since it connected. */
  class AgentSocketClient<F(!new)> {
    const decode: string -> Option<F>
    const handlerThrows: F -> bool
    var buffer: string
    var events: seq<F>
    ghost var stream: string
    ghost var handled: seq<string>

    /** Nothing is lost or repeated. */
    ghost predicate Valid()
      reads this
    {
      && Owes(handled, buffer, stream)
      && events == Decoded(decode, handled)
    }

    constructor (decode: string -> Option<F>, handlerThrows: F -> bool)
      ensures Valid() && stream == "" && events == []
      ensures this.decode == decode && this.handlerThrows == handlerThrows
    {
      this.decode := decode;
      this.handlerThrows := handlerThrows;
      buffer, events, stream, handled := "", [], "", [];
    }

    /** A (re)connection starts a new stream with an empty buffer. */
    method Connect()
      modifies this
      ensures Valid() && stream == "" && events == []
    {
      buffer, events, stream, handled := "", [], "", [];
    }

    /**
     * Take in a chunk and handle every line it completes. A handler that throws stops
     * here, and the lines behind it stay in the buffer for the next chunk.
     */
    method OnData(chunk: string) returns (threw: bool)
      requires Valid()
      modifies this
      ensures Valid() && stream == old(stream) + chunk
      ensures !threw ==> buffer == Tail(stream) && DELIMITER !in buffer && handled == FrameLines(stream)
      ensures old(events) <= events
      ensures threw <==> exists i :: |old(events)| <= i < |events| && handlerThrows(events[i])
    {
      hide Owes, Decoded, FrameLines, Tail, Blank;
      TakeChunk(handled, buffer, stream, chunk);
      buffer := buffer + chunk;
      stream := stream + chunk;
      threw := false;
      var index := IndexOfDelimiter(buffer);
      while index != -1
        invariant Valid() && stream == old(stream) + chunk
        invariant index == IndexOfDelimiter(buffer)
        invariant old(events) <= events
        invariant forall i | |old(events)| <= i < |events| :: !handlerThrows(events[i])
        decreases |buffer|
      {
        var line := buffer[..index];
        TakeLine(handled, buffer, stream, index);
        buffer := buffer[index + 1..];
        if !Blank(line) {
          DecodedAppend(decode, handled, line);
          handled := handled + [line];
          var frame := decode(line);
          if frame.Some? {
            events := events + [frame.value];
            if handlerThrows(frame.value) {
              assert handlerThrows(events[|events| - 1]);
              return true;
            }
          }
        }
        index := IndexOfDelimiter(buffer);
      }
      AllTaken(handled, buffer, stream);
    }
  }

  lemma DecodedAppend<F>(decode: string -> Option<F>, lines: seq<string>, line: string)
    ensures Decoded(decode, lines + [line])
            == Decoded(decode, lines) + if decode(line).Some? then [decode(line).value] else []
  {
    assert (lines + [line])[..|lines|] == lines;
  }

  /** A chunk adds the same lines to what the buffer still owes and to the stream. */
  lemma TakeChunk(handled: seq<string>, buffer: string, stream: string, chunk: string)
    requires Owes(handled, buffer, stream)
    ensures Owes(handled, buffer + chunk, stream + chunk)
  {
    LinesAppend(buffer, chunk);
    LinesAppend(stream, chunk);
    var more := Lines(Tail(buffer) + chunk);
    FilterConcat(NonBlank, Lines(buffer), more);
    FilterConcat(NonBlank, Lines(stream), more);
    hide Lines, Tail, Filter;
    assert handled + (FrameLines(buffer) + Filter(NonBlank, more))
           == (handled + FrameLines(buffer)) + Filter(NonBlank, more);
  }

  lemma Regroup<T>(a: seq<T>, b: seq<T>, c: seq<T>)
    ensures a + (b + c) == (a + b) + c
  {
  }

  lemma FirstLine(buffer: string, index: nat)
    requires index == IndexOfDelimiter(buffer)
    ensures var line, rest := buffer[..index], buffer[index + 1..];
            FrameLines(buffer) == (if Blank(line) then [] else [line]) + FrameLines(rest) && Tail(buffer) == Tail(rest)
  {
    var line, rest := buffer[..index], buffer[index + 1..];
    assert Lines(buffer) == [line] + Lines(rest);
    hide Lines, Blank;
    FilterCons(NonBlank, line, Lines(rest));
  }

  lemma TakeLine(handled: seq<string>, buffer: string, stream: string, index: nat)
    requires Owes(handled, buffer, stream) && index == IndexOfDelimiter(buffer)
    ensures var line := buffer[..index];
            Owes(if Blank(line) then handled else handled + [line], buffer[index + 1..], stream)
  {
    var line, rest := buffer[..index], buffer[index + 1..];
    FirstLine(buffer, index);
    hide FrameLines, Tail, Blank, IndexOfDelimiter;
    Regroup(handled, [line], FrameLines(rest));
    Regroup(handled, [], FrameLines(rest));
    assert handled + [] == handled;
  }

  lemma AllTaken(handled: seq<string>, buffer: string, stream: string)
    requires Owes(handled, buffer, stream) && IndexOfDelimiter(buffer) == -1
    ensures buffer == Tail(stream) && handled == FrameLines(stream)
  {
    assert FrameLines(buffer) == [];
  }

  // ----- the writer, and the round trip -----

  /** Each frame as one line. */
  function Written<F>(encode: F -> string, frames: seq<F>): string {
    if frames == [] then ""
    else Written(encode, frames[..|frames| - 1]) + encode(frames[|frames| - 1]) + [DELIMITER]
  }

  lemma WrittenAppend<F>(encode: F -> string, frames: seq<F>, frame: F)
    ensures Written(encode, frames + [frame]) == Written(encode, frames) + (encode(frame) + [DELIMITER])
  {
    assert (frames + [frame])[..|frames|] == frames;
    Regroup(Written(encode, frames), encode(frame), [DELIMITER]);
  }

  /** JSON text holds no raw newline, is never blank, and decodes to the frame it encodes. */
  ghost predicate Codec<F(!new)>(encode: F -> string, decode: string -> Option<F>) {
    forall f :: DELIMITER !in encode(f) && !Blank(encode(f)) && decode(encode(f)) == Some(f)
  }

  lemma OneLine(line: string)
    requires DELIMITER !in line
    ensures Lines(line + [DELIMITER]) == [line] && Tail(line + [DELIMITER]) == ""
  {
    var s := line + [DELIMITER];
    assert s[..|line|] == line;
    IndexUnique(s, |line|);
    assert s[|line| + 1..] == "";
  }

  /** The frames written are the frames decoded from the text, each once and in order. */
  lemma {:induction false} WrittenDecodes<F(!new)>(encode: F -> string, decode: string -> Option<F>, frames: seq<F>)
    requires Codec(encode, decode)
    ensures Decoded(decode, FrameLines(Written(encode, frames))) == frames
    ensures Tail(Written(encode, frames)) == ""
  {
    if frames != [] {
      var n := |frames| - 1;
      var init, line := Written(encode, frames[..n]), encode(frames[n]);
      WrittenDecodes(encode, decode, frames[..n]);
      assert DELIMITER !in line && !Blank(line) && decode(line) == Some(frames[n]);
      hide Codec, FrameLines, Tail, Blank, Decoded;
      Regroup(init, line, [DELIMITER]);
      assert Written(encode, frames) == init + (line + [DELIMITER]);
      hide Written;
      LineAfterLines(init, line);
      DecodedAppend(decode, FrameLines(init), line);
    }
  }

  lemma LineAfterLines(text: string, line: string)
    requires Tail(text) == "" && DELIMITER !in line && !Blank(line)
    ensures FrameLines(text + (line + [DELIMITER])) == FrameLines(text) + [line]
    ensures Tail(text + (line + [DELIMITER])) == ""
  {
    OneLine(line);
    LinesAppend(text, line + [DELIMITER]);
    assert "" + (line + [DELIMITER]) == line + [DELIMITER];
    FilterConcat(NonBlank, Lines(text), [line]);
    assert [line][1..] == [];
  }

  /** The bridge: one local socket per supervised user, any number of attached agents. */
  class Dispatcher<F(!new)> {
    const encode: F -> string
    const userOf: F -> int
    var byUserId: map<int, set<int>>   // the attached connections of each mapped user
    var written: map<int, string>      // what each connection was sent so far
    ghost var sent: map<int, seq<F>>   // the frames each connection was sent

    ghost predicate Valid()
      reads this
    {
      && (forall user, c | user in byUserId && c in byUserId[user] :: c in written)
      && written.Keys == sent.Keys
      && forall c | c in written :: written[c] == Written(encode, sent[c])
    }

    constructor (users: set<int>, encode: F -> string, userOf: F -> int)
      ensures Valid() && byUserId.Keys == users && this.encode == encode && this.userOf == userOf
    {
      this.encode := encode;
      this.userOf := userOf;
      byUserId := map user | user in users :: {};
      written, sent := map[], map[];
    }

    method OnConnection(user: int, connection: int)
      requires Valid() && user in byUserId && connection !in written
      modifies this
      ensures Valid() && byUserId == old(byUserId)[user := old(byUserId)[user] + {connection}]
      ensures sent == old(sent)[connection := []]
    {
      byUserId := byUserId[user := byUserId[user] + {connection}];
      written := written[connection := ""];
      sent := sent[connection := []];
    }

    method OnDrop(user: int, connection: int)
      requires Valid() && user in byUserId
      modifies this`byUserId
      ensures Valid() && byUserId == old(byUserId)[user := old(byUserId)[user] - {connection}]
    {
      byUserId := byUserId[user := byUserId[user] - {connection}];
    }

    /** Route one frame to its user's attached agents, and to nobody else. */
    method Dispatch(frame: F) returns (delivered: nat)
      requires Valid()
      modifies this`written, this`sent
      ensures Valid()
      ensures var to := if userOf(frame) in byUserId then byUserId[userOf(frame)] else {};
              && delivered == |to|
              && sent == map c | c in old(sent) :: if c in to then old(sent)[c] + [frame] else old(sent)[c]
    {
      if userOf(frame) !in byUserId {
        return 0;
      }
      var line := encode(frame) + [DELIMITER];
      var connections := byUserId[userOf(frame)];
      delivered := |connections|;
      written := map c | c in written :: if c in connections then written[c] + line else written[c];
      sent := map c | c in sent :: if c in connections then sent[c] + [frame] else sent[c];
      hide Written;
      forall c | c in written ensures written[c] == Written(encode, sent[c]) {
        WrittenAppend(encode, old(sent)[c], frame);
      }
    }
  }

  function Joined(chunks: seq<string>): string {
    if chunks == [] then "" else Joined(chunks[..|chunks| - 1]) + chunks[|chunks| - 1]
  }

  /** However the written text is cut into chunks, the agent's handler gets the frames sent, once each and in order. */
  method Deliver<F(!new)>(encode: F -> string, decode: string -> Option<F>, frames: seq<F>, chunks: seq<string>)
    returns (received: seq<F>)
    requires Codec(encode, decode) && Joined(chunks) == Written(encode, frames)
    ensures received == frames
  {
    var client := new AgentSocketClient<F>(decode, (f: F) => false);
    for i := 0 to |chunks|
      invariant client.Valid() && client.decode == decode && fresh(client)
      invariant client.stream == Joined(chunks[..i]) && client.handled == FrameLines(client.stream)
    {
      assert chunks[..i + 1][..i] == chunks[..i];
      var threw := client.OnData(chunks[i]);
    }
    assert chunks[..|chunks|] == chunks;
    WrittenDecodes(encode, decode, frames);
    received := client.events;
  }
}
