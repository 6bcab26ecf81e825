/** The service's command socket: chunks of text accumulate per connection, and each CRLF-terminated
    line is a command that gets one reply. */
module CommandStream {
  import opened Wrappers
  import opened Sequences

  const CRLF: string := "\r\n"

  function FindCrLf(s: string, from: nat := 0): (i: int)
    requires from <= |s|
    ensures i == -1 ==> forall j :: from <= j < |s| - 1 ==> !(s[j] == '\r' && s[j + 1] == '\n')
    ensures i != -1 ==> from <= i < |s| - 1 && s[i] == '\r' && s[i + 1] == '\n'
    ensures i != -1 ==> forall j :: from <= j < i ==> !(s[j] == '\r' && s[j + 1] == '\n')
    decreases |s| - from
  {
    if |s| - from < 2 then -1
    else if s[from] == '\r' && s[from + 1] == '\n' then from
    else FindCrLf(s, from + 1)
  }

  // ---------------------------------------------------------------- lines of a text

  /** The complete lines of a text, and what follows the last of them. */
  function Lines(s: string): seq<string>
    decreases |s|
  {
    var i := FindCrLf(s);
    if i < 0 then [] else [s[..i]] + Lines(s[i + 2..])
  }

  function Residue(s: string): string
    decreases |s|
  {
    var i := FindCrLf(s);
    if i < 0 then s else Residue(s[i + 2..])
  }

  function Unlines(lines: seq<string>): string {
    if lines == [] then "" else lines[0] + CRLF + Unlines(lines[1..])
  }

  function NonEmpty(lines: seq<string>): seq<string> {
    if lines == [] then [] else (if lines[0] == "" then [] else [lines[0]]) + NonEmpty(lines[1..])
  }

  /** What one reading of the buffer serves: the lines up to the first empty one, which ends the
      reading but is consumed with its CRLF. */
  function Served(buffer: string): seq<string>
    decreases |buffer|
  {
    var i := FindCrLf(buffer);
    if i <= 0 then [] else [buffer[..i]] + Served(buffer[i + 2..])
  }

  function Left(buffer: string): string
    decreases |buffer|
  {
    var i := FindCrLf(buffer);
    if i < 0 then buffer else if i == 0 then buffer[2..] else Left(buffer[i + 2..])
  }

  lemma UnlinesCons(line: string, lines: seq<string>)
    ensures Unlines([line] + lines) == line + CRLF + Unlines(lines)
  {
    assert ([line] + lines)[1..] == lines;
  }

  lemma CutAtCrLf(s: string, i: nat)
    requires i < |s| - 1 && s[i] == '\r' && s[i + 1] == '\n'
    ensures s == s[..i] + CRLF + s[i + 2..]
  {
  }

  lemma {:induction false} LinesAndResidue(s: string)
    ensures Unlines(Lines(s)) + Residue(s) == s
    decreases |s|
  {
    var i := FindCrLf(s);
    if i >= 0 {
      var rest := s[i + 2..];
      LinesAndResidue(rest);
      UnlinesCons(s[..i], Lines(rest));
      Assoc(s[..i] + CRLF, Unlines(Lines(rest)), Residue(rest));
      CutAtCrLf(s, i);
    }
  }

  lemma FindInFront(a: string, b: string)
    requires FindCrLf(a) >= 0
    ensures FindCrLf(a + b) == FindCrLf(a)
  {
    var i := FindCrLf(a);
    var s := a + b;
    assert s[i] == a[i] && s[i + 1] == a[i + 1];
    forall j | 0 <= j < i ensures !(s[j] == '\r' && s[j + 1] == '\n') {
      assert s[j] == a[j] && s[j + 1] == a[j + 1];
    }
  }

  /** More text extends the lines, whatever the place where the text was cut. */
  lemma {:induction false} LinesExtend(a: string, b: string)
    ensures Lines(a + b) == Lines(a) + Lines(Residue(a) + b)
    ensures Residue(a + b) == Residue(Residue(a) + b)
    decreases |a|
  {
    var i := FindCrLf(a);
    if i >= 0 {
      FindInFront(a, b);
      var rest := a[i + 2..];
      assert (a + b)[i + 2..] == rest + b;
      assert (a + b)[..i] == a[..i];
      LinesExtend(rest, b);
      Assoc([a[..i]], Lines(rest), Lines(Residue(rest) + b));
    }
  }

  // ---------------------------------------------------------------- one connection

  /** The commands served while chunks arrive at a buffer, and the buffer afterwards. */
  function Commands(buffer: string, chunks: seq<string>): seq<string>
    decreases |chunks|
  {
    if chunks == [] then []
    else Served(buffer + chunks[0]) + Commands(Left(buffer + chunks[0]), chunks[1..])
  }

  function Remaining(buffer: string, chunks: seq<string>): string
    decreases |chunks|
  {
    if chunks == [] then buffer else Remaining(Left(buffer + chunks[0]), chunks[1..])
  }

  /** Only the last complete line may be empty. */
  predicate OnlyLastEmpty(lines: seq<string>) {
    forall i :: 0 <= i < |lines| - 1 ==> lines[i] != ""
  }

  /** A reading of the buffer serves all its lines unless an empty one has others behind it. */
  lemma {:induction false} ServedAll(s: string)
    requires OnlyLastEmpty(Lines(s))
    ensures Served(s) == NonEmpty(Lines(s)) && Left(s) == Residue(s)
    decreases |s|
  {
    var i := FindCrLf(s);
    if i >= 0 {
      var rest := s[i + 2..];
      FirstLineSplit(s[..i], Lines(rest));
      if i == 0 {
        assert FindCrLf(rest) < 0;
        assert Lines(s) == [""];
      } else {
        ServedAll(rest);
        NonEmptyCons(s[..i], Lines(rest));
      }
    }
  }

  lemma FirstLineSplit(line: string, lines: seq<string>)
    requires OnlyLastEmpty([line] + lines)
    ensures OnlyLastEmpty(lines) && (line == "" ==> lines == [])
  {
    forall k | 0 <= k < |lines| - 1 ensures lines[k] != "" {
      assert lines[k] == ([line] + lines)[k + 1];
    }
    assert |lines| > 0 ==> ([line] + lines)[0] != "";
  }

  lemma NonEmptyCons(line: string, lines: seq<string>)
    ensures NonEmpty([line] + lines) == (if line == "" then [] else [line]) + NonEmpty(lines)
  {
    assert ([line] + lines)[1..] == lines;
  }

  lemma NotOnlyLast(line: string, lines: seq<string>)
    requires !OnlyLastEmpty([line] + lines)
    ensures lines != [] && (line != "" ==> !OnlyLastEmpty(lines))
  {
    var k :| 0 <= k < |lines| && ([line] + lines)[k] == "";
    if k > 0 {
      assert lines[k - 1] == "";
    }
  }

  /** An empty line with another behind it leaves a complete line in the buffer. */
  lemma {:induction false} ServedNotAll(s: string)
    requires !OnlyLastEmpty(Lines(s))
    ensures Left(s) != Residue(s)
    decreases |s|
  {
    var i := FindCrLf(s);
    var rest := s[i + 2..];
    NotOnlyLast(s[..i], Lines(rest));
    if i == 0 {
      ResidueShorter(rest);
    } else {
      ServedNotAll(rest);
    }
  }

  lemma {:induction false} ResidueShorter(s: string)
    ensures Lines(s) != [] ==> |Residue(s)| < |s|
    decreases |s|
  {
    var i := FindCrLf(s);
    if i >= 0 {
      ResidueShorter(s[i + 2..]);
    }
  }

  lemma {:induction false} NonEmptyConcat(a: seq<string>, b: seq<string>)
    ensures NonEmpty(a + b) == NonEmpty(a) + NonEmpty(b)
    decreases |a|
  {
    if a == [] {
      assert a + b == b;
    } else {
      assert (a + b)[1..] == a[1..] + b;
      NonEmptyConcat(a[1..], b);
    }
  }

  lemma ResidueHasNoLine(s: string)
    ensures Lines(Residue(s)) == [] && Residue(Residue(s)) == Residue(s)
    decreases |s|
  {
    var i := FindCrLf(s);
    if i >= 0 {
      ResidueHasNoLine(s[i + 2..]);
    }
  }

  lemma {:induction false} AnySplit(buffer: string, chunks: seq<string>)
    requires Lines(buffer) == [] && OnlyLastEmpty(Lines(buffer + Concat(chunks)))
    ensures Commands(buffer, chunks) == NonEmpty(Lines(buffer + Concat(chunks)))
    ensures Remaining(buffer, chunks) == Residue(buffer + Concat(chunks))
    decreases |chunks|
  {
    if chunks == [] {
      assert buffer + Concat(chunks) == buffer;
    } else {
      var now, later := buffer + chunks[0], Concat(chunks[1..]);
      assert buffer + Concat(chunks) == now + later;
      LinesExtend(now, later);
      var behind := Lines(Residue(now) + later);
      assert OnlyLastEmpty(Lines(now)) by {
        assert forall i :: 0 <= i < |Lines(now)| ==> (Lines(now) + behind)[i] == Lines(now)[i];
      }
      assert OnlyLastEmpty(behind) by {
        assert forall i :: 0 <= i < |behind| ==> (Lines(now) + behind)[|Lines(now)| + i] == behind[i];
      }
      ServedAll(now);
      ResidueHasNoLine(now);
      AnySplit(Residue(now), chunks[1..]);
      NonEmptyConcat(Lines(now), behind);
    }
  }

  ghost predicate ServesLines(stream: string, chunks: seq<string>) {
    Commands("", chunks) == NonEmpty(Lines(stream)) && Remaining("", chunks) == Residue(stream)
  }

  /** Chunk independence: every way to cut a stream into chunks, even inside a CRLF, serves exactly its
      non-empty lines in order and leaves exactly what follows its last line, if and only if no line
      but the last is empty. */
  lemma ChunkIndependentIff(stream: string)
    ensures (forall chunks :: Concat(chunks) == stream ==> ServesLines(stream, chunks))
            <==> OnlyLastEmpty(Lines(stream))
  {
    if OnlyLastEmpty(Lines(stream)) {
      forall chunks | Concat(chunks) == stream ensures ServesLines(stream, chunks) {
        assert "" + Concat(chunks) == stream;
        AnySplit("", chunks);
      }
    } else {
      OneChunkFails(stream);
    }
  }

  lemma OneChunkFails(stream: string)
    requires !OnlyLastEmpty(Lines(stream))
    ensures Concat([stream]) == stream && !ServesLines(stream, [stream])
  {
    assert [stream][1..] == [] && stream + "" == stream;
    RemainingOnce("", stream);
    assert "" + stream == stream;
    ServedNotAll(stream);
  }

  lemma RemainingOnce(buffer: string, chunk: string)
    ensures Remaining(buffer, [chunk]) == Left(buffer + chunk)
  {
    assert [chunk][1..] == [];
  }

  /** What clients send, command by command with CRLF, is what gets served. */
  lemma {:induction false} LinesUnlines(commands: seq<string>)
    requires forall i :: 0 <= i < |commands| ==> FindCrLf(commands[i]) == -1
    ensures Lines(Unlines(commands)) == commands && Residue(Unlines(commands)) == ""
  {
    if commands != [] {
      var c, rest := commands[0], Unlines(commands[1..]);
      var s := Unlines(commands);
      assert FindCrLf(s) == |c| by {
        assert s == c + CRLF + rest;
        assert s[|c|] == '\r' && s[|c| + 1] == '\n';
        assert forall j :: 0 <= j < |c| ==> s[j] == c[j];
      }
      assert s[..|c|] == c && s[|c| + 2..] == rest;
      LinesUnlines(commands[1..]);
      assert commands == [c] + commands[1..];
    }
  }

  // ---------------------------------------------------------------- nothing lost, for every stream

  /** The lines one reading takes out of the buffer, the empty one that ends it included. */
  function Eaten(buffer: string): seq<string>
    decreases |buffer|
  {
    var i := FindCrLf(buffer);
    if i < 0 then [] else if i == 0 then [""] else [buffer[..i]] + Eaten(buffer[i + 2..])
  }

  function EatenAll(buffer: string, chunks: seq<string>): seq<string>
    decreases |chunks|
  {
    if chunks == [] then []
    else Eaten(buffer + chunks[0]) + EatenAll(Left(buffer + chunks[0]), chunks[1..])
  }

  lemma {:induction false} EatenOnce(s: string)
    ensures Unlines(Eaten(s)) + Left(s) == s
    ensures NonEmpty(Eaten(s)) == Served(s)
    decreases |s|
  {
    var i := FindCrLf(s);
    if i >= 0 {
      var rest := s[i + 2..];
      CutAtCrLf(s, i);
      if i == 0 {
        UnlinesCons("", []);
        assert [""] + [] == [""] && s[..0] == "";
      } else {
        EatenOnce(rest);
        UnlinesCons(s[..i], Eaten(rest));
        Assoc(s[..i] + CRLF, Unlines(Eaten(rest)), Left(rest));
        NonEmptyConcat([s[..i]], Eaten(rest));
      }
    }
  }

  lemma {:induction false} UnlinesConcat(a: seq<string>, b: seq<string>)
    ensures Unlines(a + b) == Unlines(a) + Unlines(b)
    decreases |a|
  {
    if a == [] {
      assert a + b == b;
    } else {
      assert a + b == [a[0]] + (a[1..] + b) && a == [a[0]] + a[1..];
      UnlinesConcat(a[1..], b);
      UnlinesCons(a[0], a[1..] + b);
      UnlinesCons(a[0], a[1..]);
      Assoc(a[0] + CRLF, Unlines(a[1..]), Unlines(b));
    }
  }

  /** For every stream and every way to cut it: the commands served are the non-empty ones among the
      lines taken, and those lines, each with its CRLF, and the buffer left are all that was received. */
  lemma {:induction false} NothingLost(buffer: string, chunks: seq<string>)
    ensures Commands(buffer, chunks) == NonEmpty(EatenAll(buffer, chunks))
    ensures Unlines(EatenAll(buffer, chunks)) + Remaining(buffer, chunks) == buffer + Concat(chunks)
    decreases |chunks|
  {
    if chunks != [] {
      var now, later := buffer + chunks[0], chunks[1..];
      EatenOnce(now);
      NothingLost(Left(now), later);
      NonEmptyConcat(Eaten(now), EatenAll(Left(now), later));
      UnlinesConcat(Eaten(now), EatenAll(Left(now), later));
      Assoc(Unlines(Eaten(now)), Unlines(EatenAll(Left(now), later)), Remaining(Left(now), later));
      Assoc(Unlines(Eaten(now)), Left(now), Concat(later));
      Assoc(buffer, chunks[0], Concat(later));
    }
  }

  // ---------------------------------------------------------------- many connections

  datatype Arrival = Arrival(socket: int, chunk: string)

  function Buffer(cache: map<int, string>, socket: int): string {
    if socket in cache then cache[socket] else ""
  }

  function Arrived(cache: map<int, string>, a: Arrival): map<int, string> {
    cache[a.socket := Left(Buffer(cache, a.socket) + a.chunk)]
  }

  function CacheAfter(cache: map<int, string>, arrivals: seq<Arrival>): map<int, string>
    decreases |arrivals|
  {
    if arrivals == [] then cache else CacheAfter(Arrived(cache, arrivals[0]), arrivals[1..])
  }

  /** The commands of one connection, served while chunks arrive on many. */
  function CommandsOf(cache: map<int, string>, arrivals: seq<Arrival>, socket: int): seq<string>
    decreases |arrivals|
  {
    if arrivals == [] then []
    else
      var a := arrivals[0];
      (if a.socket == socket then Served(Buffer(cache, socket) + a.chunk) else [])
      + CommandsOf(Arrived(cache, a), arrivals[1..], socket)
  }

  function ChunksOf(arrivals: seq<Arrival>, socket: int): seq<string>
    decreases |arrivals|
  {
    if arrivals == [] then []
    else (if arrivals[0].socket == socket then [arrivals[0].chunk] else []) + ChunksOf(arrivals[1..], socket)
  }

  /** Sockets do not disturb each other: each address is served as if its chunks were the only ones. A
      connection that is closed keeps its buffer, so a later one at the same address goes on with it. */
  lemma {:induction false} ConnectionsAreSeparate(cache: map<int, string>, arrivals: seq<Arrival>, socket: int)
    ensures CommandsOf(cache, arrivals, socket) == Commands(Buffer(cache, socket), ChunksOf(arrivals, socket))
    ensures Buffer(CacheAfter(cache, arrivals), socket) == Remaining(Buffer(cache, socket), ChunksOf(arrivals, socket))
    decreases |arrivals|
  {
    if arrivals != [] {
      var a := arrivals[0];
      ConnectionsAreSeparate(Arrived(cache, a), arrivals[1..], socket);
      if a.socket == socket {
        assert ChunksOf(arrivals, socket)[1..] == ChunksOf(arrivals[1..], socket);
      } else {
        assert ChunksOf(arrivals, socket) == ChunksOf(arrivals[1..], socket);
        assert Buffer(Arrived(cache, a), socket) == Buffer(cache, socket);
      }
    }
  }

  /** A connection that inherits a buffer is served like a new one, whatever it sends, if and only if that
      buffer is empty. */
  lemma InheritedBufferIff(buffer: string)
    ensures (forall chunks :: Commands(buffer, chunks) == Commands("", chunks)) <==> buffer == ""
  {
    var i := FindCrLf(buffer);
    if i > 0 {
      CommandsOnce(buffer, "");
      CommandsOnce("", "");
      assert buffer + "" == buffer;
      assert Served(buffer)[0] == buffer[..i] && Served("") == [];
    } else if buffer != "" {
      CommandBehind("");
      if i == 0 {
        CommandsOnce(buffer, "x\r\n");
        FindInFront(buffer, "x\r\n");
        assert Served(buffer + "x\r\n") == [];
      } else {
        CommandBehind(buffer);
        assert |buffer + "x"| != |"" + "x"|;
        assert Commands(buffer, ["x\r\n"])[0] != Commands("", ["x\r\n"])[0];
      }
    }
  }

  lemma CommandsOnce(buffer: string, chunk: string)
    ensures Commands(buffer, [chunk]) == Served(buffer + chunk)
  {
    assert [chunk][1..] == [];
  }

  lemma CommandBehind(buffer: string)
    requires FindCrLf(buffer) < 0
    ensures Commands(buffer, ["x\r\n"]) == [buffer + "x"]
  {
    var s := buffer + "x\r\n";
    var n := |buffer| + 1;
    assert s[n] == '\r' && s[n + 1] == '\n' && s[n - 1] == 'x';
    assert forall j :: 0 <= j < |buffer| ==> s[j] == buffer[j];
    assert FindCrLf(s) == n;
    assert s[..n] == buffer + "x" && s[n + 2..] == "";
    assert Served(s) == [buffer + "x"] + Served("");
    CommandsOnce(buffer, "x\r\n");
  }

  // ---------------------------------------------------------------- the server object

  datatype Call = CallStop | CallPause | CallResume | CallProcess(argument: string)

  predicate HasNumber(command: string) {
    |command| > 4 && command[..4] == "num:"
  }

  /** Unknown, or one the service's flags do not allow. */
  predicate Refused(command: string, canStop: bool, canSuspend: bool) {
    && (command == "terminate" ==> !canStop)
    && (command == "pause" || command == "resume" ==> !canSuspend)
    && command != "alive" && !(|command| > 4 && command[..4] == "num:")
  }

  /** What a command makes the service do, and whether the reply is "true". */
  function Effect(command: string, canStop: bool, canSuspend: bool): (Option<Call>, bool) {
    if command == "terminate" then (if canStop then (Some(CallStop), true) else (None, false))
    else if command == "pause" then (if canSuspend then (Some(CallPause), true) else (None, false))
    else if command == "resume" then (if canSuspend then (Some(CallResume), true) else (None, false))
    else if command == "alive" then (None, true)
    else if HasNumber(command) then (Some(CallProcess(command[4..])), true)
    else (None, false)
  }

  lemma Reassigned(cache: map<int, string>, socket: int, once: string, again: string)
    ensures cache[socket := once][socket := again] == cache[socket := again]
  {
  }

  /** Where the loop over the commands of `buffer` stands: `done` are served, `command` is cut off,
      `rest` is left. */
  predicate Progress(buffer: string, done: seq<string>, command: string, rest: string) {
    && Served(buffer) == done + Ahead(command, rest)
    && Left(buffer) == if command == "" then rest else Left(rest)
  }

  /** `getCommand` on a buffer: what it returns and what it leaves. */
  function Head(buffer: string): string {
    var i := FindCrLf(buffer);
    if i < 0 then "" else buffer[..i]
  }

  function Behind(buffer: string): (rest: string)
    ensures |rest| + |Head(buffer)| <= |buffer|
  {
    var i := FindCrLf(buffer);
    if i < 0 then buffer else buffer[i + 2..]
  }

  /** The commands still to come when `command` has been cut off and `rest` is left. */
  function Ahead(command: string, rest: string): seq<string> {
    if command == "" then [] else [command] + Served(rest)
  }

  lemma FirstCut(buffer: string)
    ensures Progress(buffer, [], Head(buffer), Behind(buffer))
  {
  }

  lemma ProgressEnds(buffer: string, done: seq<string>, rest: string)
    requires Progress(buffer, done, "", rest)
    ensures Served(buffer) == done && Left(buffer) == rest
  {
    assert done + [] == done;
  }

  lemma ProgressStep(buffer: string, done: seq<string>, command: string, rest: string)
    requires Progress(buffer, done, command, rest) && command != ""
    ensures Progress(buffer, done + [command], Head(rest), Behind(rest))
  {
    FirstCut(rest);
    Assoc(done, [command], Served(rest));
  }

  function CallsOf(command: string, canStop: bool, canSuspend: bool): seq<Call> {
    match Effect(command, canStop, canSuspend).0
    case None => []
    case Some(call) => [call]
  }

  function Reply(command: string, canStop: bool, canSuspend: bool): string {
    if Effect(command, canStop, canSuspend).1 then "true" else "false"
  }

  function Calls(commands: seq<string>, canStop: bool, canSuspend: bool): seq<Call> {
    if commands == [] then []
    else Calls(commands[..|commands| - 1], canStop, canSuspend) + CallsOf(commands[|commands| - 1], canStop, canSuspend)
  }

  function Replies(commands: seq<string>, canStop: bool, canSuspend: bool): (replies: seq<string>)
    ensures |replies| == |commands|
    ensures forall i :: 0 <= i < |commands| ==> replies[i] == Reply(commands[i], canStop, canSuspend)
  {
    seq(|commands|, i requires 0 <= i < |commands| => Reply(commands[i], canStop, canSuspend))
  }

  lemma OneMore(done: seq<string>, command: string, canStop: bool, canSuspend: bool)
    ensures Replies(done + [command], canStop, canSuspend)
            == Replies(done, canStop, canSuspend) + [Reply(command, canStop, canSuspend)]
    ensures Calls(done + [command], canStop, canSuspend)
            == Calls(done, canStop, canSuspend) + CallsOf(command, canStop, canSuspend)
  {
    assert (done + [command])[..|done|] == done;
  }

  class CommandServer {
    const canStop: bool
    const canSuspend: bool
    var cache: map<int, string>
    var calls: seq<Call>           // service functions called, in order

    constructor (canStop: bool, canSuspend: bool)
      ensures this.canStop == canStop && this.canSuspend == canSuspend && cache == map[] && calls == []
    {
      this.canStop, this.canSuspend, cache, calls := canStop, canSuspend, map[], [];
    }

    /** The next complete line, cut off the buffer; "" also when there is none. */
    method GetCommand(socket: int) returns (line: string)
      requires socket in cache
      modifies this`cache
      ensures line == Head(old(cache[socket]))
      ensures cache == old(cache)[socket := Behind(old(cache[socket]))]
    {
      var pos := FindCrLf(cache[socket]);
      if pos >= 0 {
        line := cache[socket][..pos];
        cache := cache[socket := cache[socket][pos + 2..]];
      } else {
        line := "";
      }
    }

    /** One command is carried out and answered. */
    method Serve(command: string) returns (reply: string)
      modifies this`calls
      ensures command == "terminate" && canStop ==> calls == old(calls) + [CallStop] && reply == "true"
      ensures command == "pause" && canSuspend ==> calls == old(calls) + [CallPause] && reply == "true"
      ensures command == "resume" && canSuspend ==> calls == old(calls) + [CallResume] && reply == "true"
      ensures command == "alive" ==> calls == old(calls) && reply == "true"
      ensures |command| > 4 && command[..4] == "num:" ==>
                calls == old(calls) + [CallProcess(command[4..])] && reply == "true"
      ensures Refused(command, canStop, canSuspend) ==> calls == old(calls) && reply == "false"
      ensures reply == Reply(command, canStop, canSuspend)
      ensures calls == old(calls) + CallsOf(command, canStop, canSuspend)
    {
      assert HasNumber(command) ==> command[0] == command[..4][0] == 'n';
      var retValue := false;
      if command == "terminate" {
        if canStop {
          calls := calls + [CallStop];
          retValue := true;
        }
      } else if command == "pause" {
        if canSuspend {
          calls := calls + [CallPause];
          retValue := true;
        }
      } else if command == "resume" {
        if canSuspend {
          calls := calls + [CallResume];
          retValue := true;
        }
      } else if command == "alive" {
        retValue := true;
      } else if HasNumber(command) {
        calls := calls + [CallProcess(command[4..])];
        retValue := true;
      }
      reply := if retValue then "true" else "false";
    }

    method Answer(command: string) returns (reply: string)
      modifies this`calls
      ensures reply == Reply(command, canStop, canSuspend)
      ensures calls == old(calls) + CallsOf(command, canStop, canSuspend)
    {
      reply := Serve(command);
    }

    /** The same inside the loop over the commands of one chunk. */
    method ServeNext(command: string, replies: seq<string>, ghost done: seq<string>, ghost before: seq<Call>)
      returns (replies': seq<string>)
      requires replies == Replies(done, canStop, canSuspend)
      requires calls == before + Calls(done, canStop, canSuspend)
      modifies this`calls
      ensures replies' == Replies(done + [command], canStop, canSuspend)
      ensures calls == before + Calls(done + [command], canStop, canSuspend)
    {
      var reply := Answer(command);
      replies' := replies + [reply];
      OneMore(done, command, canStop, canSuspend);
    }

    /** The loop over the commands in the buffer of a connection. */
    method ServeBuffer(socket: int, ghost buffer: string) returns (replies: seq<string>)
      requires socket in cache && cache[socket] == buffer
      modifies this`cache, this`calls
      ensures cache == old(cache)[socket := Left(buffer)]
      ensures replies == Replies(Served(buffer), canStop, canSuspend)
      ensures calls == old(calls) + Calls(Served(buffer), canStop, canSuspend)
    {
      replies := [];
      ghost var done: seq<string>, rest := [], Behind(buffer);
      FirstCut(buffer);
      Reassigned(cache, socket, buffer, rest);
      var command := GetCommand(socket);
      while command != ""
        invariant cache == old(cache)[socket := rest]
        invariant Progress(buffer, done, command, rest)
        invariant replies == Replies(done, canStop, canSuspend)
        invariant calls == old(calls) + Calls(done, canStop, canSuspend)
        decreases |rest| + |command|
      {
        replies := ServeNext(command, replies, done, old(calls));
        ProgressStep(buffer, done, command, rest);
        Reassigned(old(cache), socket, rest, Behind(rest));
        done, rest := done + [command], Behind(rest);
        command := GetCommand(socket);
      }
      ProgressEnds(buffer, done, rest);
    }

    /** A chunk arrives: every line up to the first empty one is a command with one reply. */
    method SlotReady(socket: int, chunk: string) returns (replies: seq<string>)
      modifies this`cache, this`calls
      ensures cache == Arrived(old(cache), Arrival(socket, chunk))
      ensures var served := Served(Buffer(old(cache), socket) + chunk);
              && replies == Replies(served, canStop, canSuspend)
              && calls == old(calls) + Calls(served, canStop, canSuspend)
    {
      var buffer := Buffer(cache, socket) + chunk;
      cache := cache[socket := buffer];
      replies := ServeBuffer(socket, buffer);
    }
  }
}
