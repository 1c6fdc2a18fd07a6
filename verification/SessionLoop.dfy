/** The command table and the session loop (src/session.c, src/builtins.c): which
    lines end a session. */
module SessionLoop {
  import opened Tokenizer
  import opened Pipelines
  import opened CommandLine

  // ---------------------------------------------------------------- the table

  const BUILTINS: seq<string> :=
    ["help", "exit", "ls", "ll", "rm", "cp", "mv", "mkdir", "pwd", "cd",
     "cat", "ps", "put", "get", "install", "klogtail", "execelf", "debugelf", "kill", "serverctl"]

  predicate IsBuiltin(name: string) {
    name in BUILTINS
  }

  /** The lookup of build_pipeline, which also takes the alias ll for ls. */
  method MarkBuiltin(name: string) returns (found: bool)
    ensures found <==> IsBuiltin(name)
  {
    found := false;
    var b := 0;
    while b < |BUILTINS|
      invariant 0 <= b <= |BUILTINS| && !found
      invariant name !in BUILTINS[..b]
    {
      if BUILTINS[b] == name || (name == "ll" && BUILTINS[b] == "ls") {
        assert BUILTINS[3] == "ll";
        return true;
      }
      b := b + 1;
    }
  }

  /** The lookup of run_builtin_in_current: the first entry of that name, -1 if
      there is none. It finds an entry exactly when MarkBuiltin did. */
  method FindBuiltin(name: string) returns (index: int)
    ensures index == -1 <==> !IsBuiltin(name)
    ensures index != -1 ==> 0 <= index < |BUILTINS| && BUILTINS[index] == name && name !in BUILTINS[..index]
  {
    index := 0;
    while index < |BUILTINS|
      invariant 0 <= index <= |BUILTINS| && name !in BUILTINS[..index]
    {
      if name == BUILTINS[index] {
        return;
      }
      index := index + 1;
    }
    index := -1;
  }

  /** The values the command functions return, by name; cmd_exit is `return 255`. */
  predicate MayReturn(name: string, rc: int) {
    if name == "exit" then rc == 255
    else if name == "serverctl" then -1 <= rc <= 2
    else rc == 0 || rc == -1
  }

  /** run_builtin_in_current: -2 if the name is not in the table. */
  predicate BuiltinReturns(name: string, rc: int) {
    if IsBuiltin(name) then MayReturn(name, rc) else rc == -2
  }

  /** The values execute_pipeline can return for a pipeline. */
  predicate MayResult(p: Pipeline, rc: int) {
    if p.cmds == [] then rc == 0
    else if |p.cmds| == 1 && p.cmds[0] != [] && IsBuiltin(p.cmds[0][0]) && p.redirect.NoRedirect? then
      if rc == -2 then BuiltinReturns(p.cmds[0][0], 255) || BuiltinReturns(p.cmds[0][0], -2)
      else rc != 255 && BuiltinReturns(p.cmds[0][0], rc)
    else -1 <= rc <= 255
  }

  // ---------------------------------------------------------------- what ends a session

  /** A line that parses to a single `exit` without redirect, arguments or not. */
  predicate IsExit(p: Pipeline) {
    |p.cmds| == 1 && p.cmds[0] != [] && p.cmds[0][0] == "exit" && p.redirect.NoRedirect?
  }

  /** Of all pipelines, whatever the commands return, only `exit` yields the value
      that ends the loop, and it always does. */
  lemma OnlyExitEnds(p: Pipeline, rc: int)
    requires MayResult(p, rc)
    ensures rc == -2 <==> IsExit(p)
  {
    assert BUILTINS[1] == "exit";
  }

  predicate EndsSession(line: string) {
    ParseLine(line).Parsed? && IsExit(ParseLine(line).p)
  }

  /** Exactly the printed pipelines of one un-redirected `exit` do. */
  lemma PrintedExitEnds(p: Pipeline)
    requires Printable(p) && NulFree(p) && PlainCommands(p.cmds) && |Tokens(p)| < 256
    ensures EndsSession(Print(p)) <==> p.redirect == NoRedirect && |p.cmds| == 1 && ["exit"] <= p.cmds[0]
  {
    hide ParseLine, Print, Tokens;
    ParseUndoesPrint(p);
    assert p.cmds[0] in p.cmds;
  }

  /** The pipelines handed to execute_pipeline for a line: none if it is empty or
      does not parse. */
  function Runs(line: string): seq<Pipeline> {
    if Lex(Trim(CString(line))) == [] || ParseLine(line).ParseError? then [] else [ParseLine(line).p]
  }

  function RunsOf(lines: seq<string>): seq<Pipeline> {
    if lines == [] then [] else RunsOf(lines[..|lines| - 1]) + Runs(lines[|lines| - 1])
  }

  lemma RunsSnoc(lines: seq<string>, line: string)
    ensures RunsOf(lines + [line]) == RunsOf(lines) + Runs(line)
  {
    assert (lines + [line])[..|lines|] == lines;
  }

  /** A printed pipeline is run as it is. */
  lemma PrintedIsRun(p: Pipeline)
    requires Printable(p) && NulFree(p) && PlainCommands(p.cmds) && |Tokens(p)| < 256
    ensures Runs(Print(p)) == [p]
  {
    hide ParseLine, Print, Lex, Trim, CString;
    ParseUndoesPrint(p);
    EmptyLineHasNoCommands(Print(p));
  }

  lemma EmptyLineHasNoCommands(line: string)
    ensures Lex(Trim(CString(line))) == [] ==> ParseLine(line) == Parsed(Pipeline([], NoRedirect))
  {
    hide Lex, Trim, CString;
    assert Segments([]) == Split([]);
  }

  datatype Ending = LineReadFailed | Exited

  lemma {:induction false} ReadLineConsumes(input: string, off: nat)
    requires off + 1 < MAX_LINE
    ensures ReadLineFrom(input, off).Line? ==> |ReadLineFrom(input, off).rest| < |input|
    decreases |input|
  {
    if input != "" && input[0] != '\n' {
      if input[0] == '\r' {
        ReadLineConsumes(input[1..], off);
      } else if off + 2 < MAX_LINE {
        ReadLineConsumes(input[1..], off + 1);
      }
    }
  }

  /** A result the given pipeline may have, chosen by the world. */
  method Execute(p: Pipeline) returns (rc: int)
    ensures MayResult(p, rc)
  {
    rc := *;
    if !MayResult(p, rc) {
      assert BUILTINS[1] == "exit";
      rc := if IsExit(p) then -2 else 0;
    }
  }

  /** A whole session: how it ended and the lines it read, when the k-th line's
      commands consume skips[k] characters of the input behind it. */
  datatype Session = Session(end: Ending, lines: seq<string>)

  function After(rest: string, skips: seq<nat>): string {
    if skips == [] then rest else if skips[0] <= |rest| then rest[skips[0]..] else ""
  }

  function SessionOf(input: string, skips: seq<nat>): Session
    decreases |input|
  {
    var r := ReadLine(input);
    if r.ReadFailed? then Session(LineReadFailed, [])
    else if EndsSession(r.text) then Session(Exited, [r.text])
    else
      ReadLineConsumes(input, 0);
      Following(r.text, SessionOf(After(r.rest, skips), if skips == [] then [] else skips[1..]))
  }

  function Following(line: string, s: Session): Session {
    s.(lines := [line] + s.lines)
  }

  /** It exited exactly if it read an `exit` line, and that was its last. */
  ghost predicate EndsAtFirstExit(s: Session) {
    && (s.end == Exited <==> exists k :: 0 <= k < |s.lines| && EndsSession(s.lines[k]))
    && (forall k :: 0 <= k < |s.lines| - 1 ==> !EndsSession(s.lines[k]))
  }

  lemma FollowingKeepsEnd(line: string, s: Session)
    requires !EndsSession(line) && EndsAtFirstExit(s)
    ensures EndsAtFirstExit(Following(line, s))
  {
    hide EndsSession;
    var t := Following(line, s);
    assert forall k :: 0 <= k < |s.lines| ==> t.lines[k + 1] == s.lines[k];
    if s.end == Exited {
      var k :| 0 <= k < |s.lines| && EndsSession(s.lines[k]);
      assert EndsSession(t.lines[k + 1]);
    }
  }

  lemma BriefSession(text: string)
    ensures EndsAtFirstExit(Session(LineReadFailed, []))
    ensures EndsSession(text) ==> EndsAtFirstExit(Session(Exited, [text]))
  {
    hide EndsSession;
    assert [text][0] == text;
  }

  /** A session ends at its first `exit` line, if it reads one, and otherwise only
      because a line could not be read. */
  lemma {:induction false} SessionEndsAtFirstExit(input: string, skips: seq<nat>)
    ensures EndsAtFirstExit(SessionOf(input, skips))
    decreases |input|
  {
    SessionUnfold(input, skips);
    hide EndsSession, ReadLine, SessionOf, EndsAtFirstExit, After;
    var r := ReadLine(input);
    if r.ReadFailed? {
      BriefSession("");
    } else if EndsSession(r.text) {
      BriefSession(r.text);
    } else {
      var rest, more := After(r.rest, skips), if skips == [] then [] else skips[1..];
      SessionEndsAtFirstExit(rest, more);
      FollowingKeepsEnd(r.text, SessionOf(rest, more));
    }
  }

  lemma SessionUnfold(input: string, skips: seq<nat>)
    ensures var r := ReadLine(input);
      if r.ReadFailed? then SessionOf(input, skips) == Session(LineReadFailed, [])
      else if EndsSession(r.text) then SessionOf(input, skips) == Session(Exited, [r.text])
      else
        |After(r.rest, skips)| < |input|
        && SessionOf(input, skips)
             == Following(r.text, SessionOf(After(r.rest, skips), if skips == [] then [] else skips[1..]))
  {
    hide EndsSession, ReadLineFrom;
    ReadLineConsumes(input, 0);
  }

  /** The session so far: `lines` read, `skips` consumed, `rest` to come. */
  ghost predicate Reached(input: string, skips: seq<nat>, lines: seq<string>, rest: string) {
    forall future: seq<nat> :: SessionOf(input, skips + future) == Continue(lines, SessionOf(rest, future))
  }

  function Continue(lines: seq<string>, s: Session): Session {
    s.(lines := lines + s.lines)
  }

  lemma ReachedStart(input: string)
    ensures Reached(input, [], [], input)
  {
    hide SessionOf;
    forall future: seq<nat> ensures SessionOf(input, [] + future) == Continue([], SessionOf(input, future)) {
      assert [] + future == future && [] + SessionOf(input, future).lines == SessionOf(input, future).lines;
    }
  }

  /** A line that does not end the session, `used` characters behind it consumed. */
  predicate GoesOn(rest: string, used: int) {
    ReadLine(rest).Line? && !EndsSession(ReadLine(rest).text) && 0 <= used <= |ReadLine(rest).rest|
  }

  /** One more such line. */
  lemma ReachedStep(input: string, skips: seq<nat>, lines: seq<string>, rest: string, used: nat)
    ensures GoesOn(rest, used) && Reached(input, skips, lines, rest) ==>
      Reached(input, skips + [used], lines + [ReadLine(rest).text], ReadLine(rest).rest[used..])
  {
    hide EndsSession, ReadLine, SessionOf;
    forall future: seq<nat> | GoesOn(rest, used) && Reached(input, skips, lines, rest)
      ensures SessionOf(input, (skips + [used]) + future)
        == Continue(lines + [ReadLine(rest).text], SessionOf(ReadLine(rest).rest[used..], future))
    {
      Assoc(skips, [used], future);
      StepOf(rest, used, future);
      Assoc(lines, [ReadLine(rest).text], SessionOf(ReadLine(rest).rest[used..], future).lines);
    }
  }

  lemma StepOf(rest: string, used: nat, future: seq<nat>)
    ensures GoesOn(rest, used) ==>
      SessionOf(rest, [used] + future)
        == Following(ReadLine(rest).text, SessionOf(ReadLine(rest).rest[used..], future))
  {
    hide EndsSession, ReadLine, SessionOf;
    SessionUnfold(rest, [used] + future);
    assert ([used] + future)[1..] == future;
  }

  /** The loop stops: at an `exit` line or a failed read. */
  lemma ReachedEnd(input: string, skips: seq<nat>, lines: seq<string>, rest: string)
    requires Reached(input, skips, lines, rest)
    ensures ReadLine(rest).ReadFailed? ==> SessionOf(input, skips) == Session(LineReadFailed, lines)
    ensures ReadLine(rest).Line? && EndsSession(ReadLine(rest).text) ==>
      SessionOf(input, skips) == Session(Exited, lines + [ReadLine(rest).text])
  {
    hide EndsSession, ReadLine, SessionOf;
    SessionUnfold(rest, []);
    assert skips + [] == skips && lines + [] == lines;
    assert SessionOf(input, skips + []) == Continue(lines, SessionOf(rest, []));
  }

  /** session_handle. Commands may fail or succeed in any way MayResult admits and
      consume any amount of the input behind their line. */
  method SessionHandle(input: string) returns (end: Ending, lines: seq<string>, ran: seq<Pipeline>)
    ensures exists skips :: Session(end, lines) == SessionOf(input, skips)
    ensures EndsAtFirstExit(Session(end, lines))
    // the commands run are those of the lines, in their order
    ensures ran == RunsOf(lines)
  {
    hide RunsOf, ReadLineFrom, Lex, Build, Trim, Take, CString, SessionOf, Reached, EndsAtFirstExit;
    lines, ran := [], [];
    ghost var skips: seq<nat> := [];
    var rest := input;
    ReachedStart(input);
    RunsNothing();
    while true
      invariant Reached(input, skips, lines, rest) && ran == RunsOf(lines)
      decreases |rest|
    {
      ReachedEnd(input, skips, lines, rest);
      SessionEndsAtFirstExit(input, skips);
      var r := ReadLineLoop(rest);
      if r.ReadFailed? {
        end := LineReadFailed;
        return;
      }
      ReadLineConsumes(rest, 0);
      RunsSnoc(lines, r.text);
      var ln := TrimLoop(CString(r.text));
      var toks := Tokenize(ln);
      TakesNothing(Lex(ln));
      EmptyLineHasNoCommands(r.text);
      var parse, _ := BuildPipeline(toks);
      var used: int := 0;
      if |toks| > 0 && parse.Parsed? {
        ran := ran + [parse.p];
        var rc := Execute(parse.p);
        OnlyExitEnds(parse.p, rc);
        if rc == -2 {
          end, lines := Exited, lines + [r.text];
          return;
        }
        used := *;
        if !(0 <= used <= |r.rest|) {
          used := 0;
        }
      }
      ReachedStep(input, skips, lines, rest, used);
      lines, skips := lines + [r.text], skips + [used];
      rest := r.rest[used..];
    }
  }

  lemma RunsNothing()
    ensures RunsOf([]) == []
  {
  }

  lemma TakesNothing(toks: seq<string>)
    ensures Take(toks, MAX_TOKS) == [] <==> toks == []
  {
  }

  // ---------------------------------------------------------------- the lines of a session

  /** A session goes through its input line by line: a line that ends it is the last,
      behind any other it goes on where that line's commands stopped reading. */
  lemma SessionOfLine(text: string, more: string, used: nat, skips: seq<nat>)
    requires '\n' !in text && '\r' !in text && |text| < 2047 && used <= |more|
    ensures EndsSession(text) ==> SessionOf(text + "\n" + more, [used] + skips) == Session(Exited, [text])
    ensures !EndsSession(text) ==>
      var next := SessionOf(more[used..], skips);
      SessionOf(text + "\n" + more, [used] + skips) == Session(next.end, [text] + next.lines)
  {
    hide EndsSession, ReadLine, SessionOf;
    NoCarriageReturns(text);
    ReadLineOf(text, more);
    SessionUnfold(text + "\n" + more, [used] + skips);
    assert ([used] + skips)[1..] == skips;
  }
}
