/** klog_wait_install (src/builtins.c): reassembling the KLOG stream into lines
    and waiting for the one that ends an installation. */
module Klog {
  import opened Options
  import opened Text

  // ---------------------------------------------------------------- lines

  const LINE_MAX: nat := 1023

  function Cut(s: string): string {
    if |s| <= LINE_MAX then s else s[..LINE_MAX]
  }

  /** The first 1023 characters, or all of them. */
  lemma CutIsPrefix(s: string)
    ensures Cut(s) <= s && |Cut(s)| == if |s| <= 1023 then |s| else 1023
  {
  }

  /** The reference: the newline-terminated lines of a text, each cut to 1023. */
  function Lines(s: string): seq<string>
    decreases |s|
  {
    var i := NewlineAt(s);
    if i == |s| then [] else [Cut(s[..i])] + Lines(s[i + 1..])
  }

  /** What follows the last newline. */
  function Tail(s: string): string
    decreases |s|
  {
    var i := NewlineAt(s);
    if i == |s| then s else Tail(s[i + 1..])
  }

  lemma NewlineAtOf(s: string, seg: string)
    requires '\n' !in seg
    ensures NewlineAt(s + seg) == if NewlineAt(s) < |s| then NewlineAt(s) else |s + seg|
    ensures NewlineAt(s + seg + "\n") == if NewlineAt(s) < |s| then NewlineAt(s) else |s + seg|
  {
    var i := NewlineAt(s);
    var t := s + seg;
    assert t + "\n" == t + "\n" && (t + "\n")[|t|] == '\n';
    assert forall k :: 0 <= k < |s| ==> t[k] == s[k];
    assert forall k :: |s| <= k < |t| ==> t[k] == seg[k - |s|] && t[k] in seg;
    assert forall k :: 0 <= k < |t| ==> (t + "\n")[k] == t[k];
    assert i < |s| ==> t[i] == '\n';
  }

  lemma Unfold(s: string, i: nat)
    requires i == NewlineAt(s)
    ensures i == |s| ==> Lines(s) == [] && Tail(s) == s
    ensures i < |s| ==> Lines(s) == [Cut(s[..i])] + Lines(s[i + 1..]) && Tail(s) == Tail(s[i + 1..])
  {
    hide Cut, NewlineAt;
  }

  /** Text without newlines only lengthens the unfinished line. */
  lemma {:induction false} PlainText(s: string, seg: string)
    requires '\n' !in seg
    ensures Lines(s + seg) == Lines(s) && Tail(s + seg) == Tail(s) + seg
    decreases |s|
  {
    hide Lines, Tail, Cut, NewlineAt;
    NewlineAtOf(s, seg);
    var i := NewlineAt(s);
    Unfold(s, i);
    if i < |s| {
      Unfold(s + seg, i);
      assert (s + seg)[..i] == s[..i] && (s + seg)[i + 1..] == s[i + 1..] + seg;
      PlainText(s[i + 1..], seg);
    } else {
      Unfold(s + seg, |s + seg|);
    }
  }

  /** A newline finishes it. */
  lemma {:induction false} NewLine(s: string)
    ensures Lines(s + "\n") == Lines(s) + [Cut(Tail(s))] && Tail(s + "\n") == ""
    decreases |s|
  {
    hide Lines, Tail, Cut, NewlineAt;
    NewlineAtOf(s, "");
    assert s + "" + "\n" == s + "\n" && s + "" == s;
    var i := NewlineAt(s);
    var t := s + "\n";
    Unfold(s, i);
    Unfold(t, i);
    if i < |s| {
      assert t[..i] == s[..i] && t[i + 1..] == s[i + 1..] + "\n";
      NewLine(s[i + 1..]);
    } else {
      assert t[..|s|] == s && t[|s| + 1..] == "";
      NothingHeard();
    }
  }

  lemma NothingHeard()
    ensures Lines("") == [] && Tail("") == "" && Cut("") == ""
  {
  }

  lemma CutAppend(u: string, seg: string)
    ensures Cut(Cut(u) + seg) == Cut(u + seg)
  {
  }

  lemma {:induction false} LinesGrow(s: string, t: string)
    ensures Lines(s) <= Lines(s + t)
    decreases |t|
  {
    if t == "" {
      assert s + t == s;
    } else {
      var front, c := t[..|t| - 1], t[|t| - 1];
      LinesGrow(s, front);
      assert s + t == (s + front) + [c];
      if c == '\n' {
        NewLine(s + front);
      } else {
        PlainText(s + front, [c]);
      }
    }
  }

  // ---------------------------------------------------------------- the first verdict

  type Judge = string -> Option<int>

  function FirstVerdict(judge: Judge, lines: seq<string>): Option<int> {
    if lines == [] then None
    else if judge(lines[0]).Some? then judge(lines[0])
    else FirstVerdict(judge, lines[1..])
  }

  lemma {:induction false} VerdictOfPrefix(judge: Judge, a: seq<string>, b: seq<string>)
    ensures FirstVerdict(judge, a + b)
      == if FirstVerdict(judge, a).Some? then FirstVerdict(judge, a) else FirstVerdict(judge, b)
    decreases |a|
  {
    if a == [] {
      assert a + b == b;
    } else {
      assert (a + b)[0] == a[0] && (a + b)[1..] == a[1..] + b;
      VerdictOfPrefix(judge, a[1..], b);
    }
  }

  lemma VerdictSnoc(judge: Judge, lines: seq<string>, line: string)
    requires FirstVerdict(judge, lines) == None
    ensures FirstVerdict(judge, lines + [line]) == judge(line)
  {
    VerdictOfPrefix(judge, lines, [line]);
    assert [line][1..] == [];
  }

  // ---------------------------------------------------------------- the assembler

  /** The inner loop over one read. The stream before it was `seen`, without a
      terminal line; `line` holds the unfinished line, cut. */
  method FeedChunk(judge: Judge, line0: string, chunk: string, ghost seen: string)
    returns (line: string, verdict: Option<int>)
    requires line0 == Cut(Tail(seen)) && FirstVerdict(judge, Lines(seen)) == None
    ensures verdict == FirstVerdict(judge, Lines(seen + chunk))
    ensures verdict == None ==> line == Cut(Tail(seen + chunk))
  {
    hide Lines, Tail, Cut, FirstVerdict;
    line := line0;
    var p := 0;
    assert seen + chunk[..0] == seen;
    while p < |chunk|
      invariant 0 <= p <= |chunk|
      invariant line == Cut(Tail(seen + chunk[..p])) && FirstVerdict(judge, Lines(seen + chunk[..p])) == None
    {
      ghost var here := seen + chunk[..p];
      var nl := p + NewlineAt(chunk[p..]);
      var seg := chunk[p..nl];
      assert '\n' !in seg && here + seg == seen + chunk[..nl];
      PlainText(here, seg);
      CutAppend(Tail(here), seg);
      line := Cut(line + seg);
      p := nl;
      if nl < |chunk| {
        NewLine(seen + chunk[..nl]);
        VerdictSnoc(judge, Lines(seen + chunk[..nl]), line);
        assert chunk[nl] == '\n';
        assert (seen + chunk[..nl]) + "\n" == seen + chunk[..nl + 1];
        verdict := judge(line);
        if verdict.Some? {
          assert seen + chunk == (seen + chunk[..nl + 1]) + chunk[nl + 1..];
          VerdictSettled(judge, seen + chunk[..nl + 1], chunk[nl + 1..]);
          return;
        }
        line := "";
        NothingHeard();
        p := p + 1;
      }
    }
    assert chunk[..p] == chunk;
    verdict := None;
  }

  lemma VerdictSettled(judge: Judge, s: string, t: string)
    requires FirstVerdict(judge, Lines(s)).Some?
    ensures FirstVerdict(judge, Lines(s + t)) == FirstVerdict(judge, Lines(s))
  {
    LinesGrow(s, t);
    var a, b := Lines(s), Lines(s + t);
    assert b == a + b[|a|..];
    VerdictOfPrefix(judge, a, b[|a|..]);
  }

  // ---------------------------------------------------------------- waiting

  /** What one turn of the select loop meets. A connection that ends is Closed. */
  datatype Event = Tick | Data(chunk: string) | Closed | SelectError

  /** The stream that arrives before the connection ends or `ticks` idle seconds
      have passed. */
  function Heard(events: seq<Event>, ticks: int): string {
    if events == [] then ""
    else match events[0]
      case Tick => if ticks <= 1 then "" else Heard(events[1..], ticks - 1)
      case Data(chunk) => chunk + Heard(events[1..], ticks)
      case Closed => ""
      case SelectError => ""
  }

  /** The text of the reads among the events. */
  function TextOf(events: seq<Event>): string {
    if events == [] then "" else (if events[0].Data? then events[0].chunk else "") + TextOf(events[1..])
  }

  function Ticks(events: seq<Event>): nat {
    if events == [] then 0 else (if events[0].Tick? then 1 else 0) + Ticks(events[1..])
  }

  lemma HeardOne(e: Event, rest: seq<Event>, timeout: int)
    ensures e.Tick? ==> TextOf([e] + rest) == TextOf(rest) && Ticks([e] + rest) == Ticks(rest) + 1
    ensures e.Data? ==> TextOf([e] + rest) == e.chunk + TextOf(rest) && Ticks([e] + rest) == Ticks(rest)
    ensures e.Tick? && timeout > 1 ==> Heard([e] + rest, timeout) == Heard(rest, timeout - 1)
    ensures e.Data? ==> Heard([e] + rest, timeout) == e.chunk + Heard(rest, timeout)
  {
    assert ([e] + rest)[1..] == rest;
    assert e.Tick? ==> "" + TextOf(rest) == TextOf(rest);
  }

  lemma HeardNothing()
    ensures TextOf([]) == "" && Ticks([]) == 0
  {
  }

  lemma {:induction false} HeardBefore(before: seq<Event>, after: seq<Event>, timeout: int)
    requires forall e :: e in before ==> e.Tick? || e.Data?
    requires Ticks(before) == 0 || Ticks(before) < timeout
    ensures Heard(before + after, timeout) == TextOf(before) + Heard(after, timeout - Ticks(before))
    decreases |before|
  {
    hide Heard, TextOf, Ticks;
    if before == [] {
      HeardNothing();
      assert before + after == after && "" + Heard(after, timeout) == Heard(after, timeout);
    } else {
      var e, more := before[0], before[1..];
      assert e in before && forall d :: d in more ==> d in before;
      assert before == [e] + more && before + after == [e] + (more + after);
      HeardOne(e, more + after, timeout);
      HeardOne(e, more, timeout);
      if e.Tick? {
        HeardBefore(more, after, timeout - 1);
      } else {
        HeardBefore(more, after, timeout);
        assert e.chunk + (TextOf(more) + Heard(after, timeout - Ticks(more)))
          == (e.chunk + TextOf(more)) + Heard(after, timeout - Ticks(more));
      }
    }
  }

  /** Data resets nothing: the wait ends with the connection, with an error of select
      or with the idle second that fills the timeout, and has heard every read up
      to there. */
  lemma HeardUpToEnd(before: seq<Event>, end: Event, after: seq<Event>, timeout: int)
    requires forall e :: e in before ==> e.Tick? || e.Data?
    requires Ticks(before) == 0 || Ticks(before) < timeout
    requires end.Closed? || end.SelectError? || (end.Tick? && Ticks(before) + 1 >= timeout)
    ensures Heard(before + [end] + after, timeout) == TextOf(before)
  {
    var rest := [end] + after;
    assert before + [end] + after == before + rest && rest[0] == end;
    HeardBefore(before, rest, timeout);
    assert TextOf(before) + "" == TextOf(before);
  }

  function Outcome(v: Option<int>): int {
    if v.Some? then v.value else -1
  }

  /** The waiting loop once connected. Reads are NUL-free. The result depends on
      the text heard and on nothing else: not on how it was cut into reads. */
  method KlogWait(judge: Judge, events: seq<Event>, timeout: int) returns (result: int, ghost ticks: nat)
    ensures result == Outcome(FirstVerdict(judge, Lines(Heard(events, timeout))))
    ensures ticks <= if timeout <= 1 then 1 else timeout
  {
    hide Lines, Tail, Cut, FirstVerdict;
    var line := "";
    var elapsed := 0;
    ticks := 0;
    var i := 0;
    ghost var seen := "";
    StartOfStream(judge);
    assert events[0..] == events && "" + Heard(events, timeout) == Heard(events, timeout);
    while i < |events|
      invariant 0 <= i <= |events| && ticks == elapsed && (elapsed == 0 || elapsed < timeout)
      invariant line == Cut(Tail(seen)) && FirstVerdict(judge, Lines(seen)) == None
      invariant seen + Heard(events[i..], timeout - elapsed) == Heard(events, timeout)
    {
      assert events[i..][1..] == events[i + 1..];
      match events[i] {
      case SelectError =>
        break;
      case Closed =>
        break;
      case Tick =>
        elapsed := elapsed + 1;
        ticks := ticks + 1;
        if elapsed >= timeout {
          break;
        }
      case Data(chunk) =>
        ghost var rest := Heard(events[i + 1..], timeout - elapsed);
        assert seen + (chunk + rest) == (seen + chunk) + rest;
        var verdict;
        line, verdict := FeedChunk(judge, line, chunk, seen);
        seen := seen + chunk;
        if verdict.Some? {
          VerdictSettled(judge, seen, rest);
          return verdict.value, ticks;
        }
      }
      i := i + 1;
    }
    assert seen + "" == seen;
    return -1, ticks;
  }

  lemma StartOfStream(judge: Judge)
    ensures Cut(Tail("")) == "" && FirstVerdict(judge, Lines("")) == None
  {
  }

  function Reads(chunks: seq<string>): seq<Event> {
    if chunks == [] then [Closed] else [Data(chunks[0])] + Reads(chunks[1..])
  }

  function Flatten(chunks: seq<string>): string {
    if chunks == [] then "" else chunks[0] + Flatten(chunks[1..])
  }

  /** However a stream is cut into reads, what is judged is the newline split of
      the whole. */
  lemma {:induction false} ChunkingIsIrrelevant(chunks: seq<string>, timeout: int)
    ensures Heard(Reads(chunks), timeout) == Flatten(chunks)
  {
    if chunks != [] {
      assert Reads(chunks)[1..] == Reads(chunks[1..]);
      ChunkingIsIrrelevant(chunks[1..], timeout);
    }
  }

  // ---------------------------------------------------------------- judging a line

  /** strstr: the first occurrence. */
  function Find(s: string, pat: string): (r: Option<nat>)
    ensures r.Some? ==> r.value + |pat| <= |s| && s[r.value..r.value + |pat|] == pat
  {
    if |pat| > |s| then None
    else if s[..|pat|] == pat then Some(0)
    else match Find(s[1..], pat)
      case None => None
      case Some(i) => Some(i + 1)
  }

  predicate Has(s: string, pat: string) {
    Find(s, pat).Some?
  }

  predicate IsBlank(c: char) {
    c == ' ' || c == '\t' || c == '\n' || c == 11 as char || c == 12 as char || c == '\r'
  }

  function SkipBlanks(s: string): string {
    if s != "" && IsBlank(s[0]) then SkipBlanks(s[1..]) else s
  }

  function SkipSign(s: string): string {
    if s != "" && (s[0] == '-' || s[0] == '+') then s[1..] else s
  }

  function Digit(c: char): int {
    if '0' <= c <= '9' then c as int - '0' as int
    else if 'a' <= c <= 'f' then c as int - 'a' as int + 10
    else if 'A' <= c <= 'F' then c as int - 'A' as int + 10
    else 99
  }

  /** Value of the leading digits in a base, continuing from `acc`. */
  function Digits(s: string, base: nat, acc: int): int {
    if s == "" || Digit(s[0]) >= base then acc else Digits(s[1..], base, acc * base + Digit(s[0]))
  }

  /** sscanf("%d"). */
  function ScanInt(s: string): Option<int> {
    var t := SkipBlanks(s);
    var u := SkipSign(t);
    if u == "" || Digit(u[0]) >= 10 then None
    else Some(if t[0] == '-' then -Digits(u, 10, 0) else Digits(u, 10, 0))
  }

  /** atoi. */
  function Atoi(s: string): int {
    match ScanInt(s) case None => 0 case Some(v) => v
  }

  /** sscanf("%x") into an unsigned that keeps 0xFFFFFFFF when nothing matches. */
  function ScanHex(s: string): Option<int> {
    var t := SkipSign(SkipBlanks(s));
    var u := if |t| >= 2 && t[0] == '0' && (t[1] == 'x' || t[1] == 'X') then t[2..] else t;
    if u == "" || Digit(u[0]) >= 16 then None else Some(Digits(u, 16, 0) % 0x1_0000_0000)
  }

  function ErrorAt(s: string): int {
    match ScanHex(s) case None => 0xFFFF_FFFF case Some(v) => v
  }

  /** Blanks at the end are cut, but not before position `from`. */
  function CutBlanks(s: string, from: nat): string {
    if |s| > from && (s[|s| - 1] == '\n' || s[|s| - 1] == ' ') then CutBlanks(s[..|s| - 1], from) else s
  }

  function StripLead(s: string): string {
    if s != "" && (s[0] == ' ' || s[0] == '\t') then StripLead(s[1..]) else s
  }

  const WHOLE: string := "Whole Process    : "

  /** The text the status checks see. */
  function Prepared(line: string): string {
    var s := StripLead(line);
    match Find(s, WHOLE) case None => s case Some(i) => CutBlanks(s, i + 19)
  }

  function Ended(state: int, error: int): Option<int> {
    Some(if state == 7 && error == 0 then 0 else -1)
  }

  /** The verdict of one complete line, nothing if it is not a final one. */
  function Verdict(line: string): Option<int> {
    var s := Prepared(line);
    var err, st := Find(s, "error = 0x"), Find(s, "state = ");
    if Has(s, "request ended") && Has(s, "state =") && err.Some? && st.Some? then
      Ended(Atoi(s[st.value + 8..]), ErrorAt(s[err.value + 9..]))
    else
      var sp, code := Find(s, "state="), Find(s, "error_code=0x");
      if Has(s, "playgo.progress.state=") && sp.Some? && ScanInt(s[sp.value + 6..]).Some? && code.Some? then
        Ended(ScanInt(s[sp.value + 6..]).value, ErrorAt(s[code.value + 12..]))
      else None
  }

  lemma LetterXIsNotScanned(s: string)
    requires s != "" && s[0] == 'x'
    ensures ErrorAt(s) == 0xFFFF_FFFF
  {
    assert SkipBlanks(s) == s && SkipSign(s) == s;
  }

  /** Both scans start at the x of 0x, where %x matches nothing: the error value
      stays 0xFFFFFFFF and no line is ever taken for success. */
  lemma NoLineIsSuccess(line: string)
    ensures Verdict(line) == None || Verdict(line) == Some(-1)
  {
    hide Prepared, ScanInt, Atoi, ErrorAt;
    var s := Prepared(line);
    var err, code := Find(s, "error = 0x"), Find(s, "error_code=0x");
    if err.Some? {
      assert s[err.value..err.value + 10][9] == 'x';
      LetterXIsNotScanned(s[err.value + 9..]);
    }
    if code.Some? {
      assert s[code.value..code.value + 13][12] == 'x';
      LetterXIsNotScanned(s[code.value + 12..]);
    }
    hide Find;
  }

  /** A line that reports state 7 and, read from its 0x on, error 0. */
  predicate ReportsSuccess(line: string) {
    var s := Prepared(line);
    var err, st := Find(s, "error = 0x"), Find(s, "state = ");
    Has(s, "request ended") && Has(s, "state =") && err.Some? && st.Some?
    && Atoi(s[st.value + 8..]) == 7 && ErrorAt(s[err.value + 8..]) == 0
  }

  /** Every such line is judged a failure, and there are such lines. */
  lemma SuccessIsJudgedFailure(line: string)
    requires ReportsSuccess(line)
    ensures Verdict(line) == Some(-1)
  {
    NoLineIsSuccess(line);
    hide Prepared, Atoi, ErrorAt, Find;
  }

  const FINAL_LINE: string := "request ended state = 7 error = 0x0"

  lemma FinalLineReportsSuccess()
    ensures ReportsSuccess(FINAL_LINE)
  {
    hide Prepared, Find, Atoi, ErrorAt, FINAL_LINE;
    FinalLinePrepared();
    FinalLineEnded();
    FinalLineState();
    FinalLineError();
    HasPrefix(FINAL_LINE, "state =", "state = ");
    ScanSeven();
    ScanZero();
  }

  lemma FinalLinePrepared()
    ensures Prepared(FINAL_LINE) == FINAL_LINE
  {
    hide Find;
    assert 'W' !in FINAL_LINE && WHOLE[0] == 'W';
    FindMissing(FINAL_LINE, WHOLE);
  }

  lemma FinalLineEnded()
    ensures Has(FINAL_LINE, "request ended")
  {
    hide Find;
    assert FINAL_LINE == "" + "request ended" + " state = 7 error = 0x0";
    FindUnique("", "request ended", " state = 7 error = 0x0", 2);
  }

  lemma FinalLineState()
    ensures Find(FINAL_LINE, "state = ") == Some(14) && FINAL_LINE[22..] == "7 error = 0x0"
  {
    hide Find;
    assert FINAL_LINE == "request ended " + "state = " + "7 error = 0x0";
    FindUnique("request ended ", "state = ", "7 error = 0x0", 2);
  }

  lemma FinalLineError()
    ensures Find(FINAL_LINE, "error = 0x") == Some(24) && FINAL_LINE[32..] == "0x0"
  {
    hide Find;
    assert FINAL_LINE == "request ended state = 7 " + "error = 0x" + "0";
    FindUnique("request ended state = 7 ", "error = 0x", "0", 9);
  }

  lemma HasPrefix(s: string, pat: string, longer: string)
    requires pat <= longer && Has(s, longer)
    ensures Has(s, pat)
  {
    hide Find;
    var k := Find(s, longer).value;
    assert s[k..k + |pat|] == s[k..k + |longer|][..|pat|];
    FindsWhatIsThere(s, pat, k);
  }

  lemma {:induction false} FindMissing(s: string, pat: string)
    requires pat != "" && pat[0] !in s
    ensures Find(s, pat) == None
  {
    if |pat| <= |s| {
      assert s[..|pat|][0] == s[0];
      FindMissing(s[1..], pat);
    }
  }

  /** A pattern with a character that occurs nowhere else is found where it is. */
  lemma FindUnique(a: string, pat: string, b: string, j: nat)
    requires j < |pat| && pat[j] !in a && pat[j] !in b && forall i :: 0 <= i < |pat| && i != j ==> pat[i] != pat[j]
    ensures Find(a + pat + b, pat) == Some(|a|)
  {
    hide Find;
    var s := a + pat + b;
    assert s[|a|..|a| + |pat|] == pat;
    OnlyPlace(a, pat, b, j);
    FindsWhatIsThere(s, pat, |a|);
    var k := Find(s, pat).value;
    assert s[k..k + |pat|][j] == s[k + j];
  }

  lemma OnlyPlace(a: string, pat: string, b: string, j: nat)
    requires j < |pat| && pat[j] !in a && pat[j] !in b && forall i :: 0 <= i < |pat| && i != j ==> pat[i] != pat[j]
    ensures forall i :: 0 <= i < |a + pat + b| && (a + pat + b)[i] == pat[j] ==> i == |a| + j
  {
    var s := a + pat + b;
    assert forall i :: 0 <= i < |a| ==> s[i] == a[i] && a[i] in a;
    assert forall i :: |a| + |pat| <= i < |s| ==> s[i] == b[i - |a| - |pat|] && s[i] in b;
  }

  lemma {:induction false} FindsWhatIsThere(s: string, pat: string, k: nat)
    requires k + |pat| <= |s| && s[k..k + |pat|] == pat
    ensures Find(s, pat).Some?
    decreases k
  {
    if k == 0 {
      assert s[..|pat|] == pat;
    } else if s[..|pat|] != pat {
      assert s[1..][k - 1..k - 1 + |pat|] == s[k..k + |pat|];
      FindsWhatIsThere(s[1..], pat, k - 1);
    }
  }

  lemma ScanSeven()
    ensures Atoi("7 error = 0x0") == 7
  {
    var s := "7 error = 0x0";
    assert SkipBlanks(s) == s && SkipSign(s) == s;
    assert Digits(s[1..], 10, 7) == 7;
  }

  lemma ScanZero()
    ensures ErrorAt("0x0") == 0
  {
    var s := "0x0";
    assert SkipBlanks(s) == s && SkipSign(s) == s && s[2..] == "0";
    assert Digits("0"[1..], 16, 0) == 0;
  }

  ghost predicate Contains(s: string, pat: string) {
    exists k: nat :: OccursAt(s, pat, k)
  }

  ghost predicate OccursAt(s: string, pat: string, k: nat) {
    k + |pat| <= |s| && s[k..k + |pat|] == pat
  }

  lemma HasIsContains(s: string, pat: string)
    ensures Has(s, pat) <==> Contains(s, pat)
  {
    hide Find;
    if Has(s, pat) {
      assert OccursAt(s, pat, Find(s, pat).value);
    }
    if Contains(s, pat) {
      var k: nat :| OccursAt(s, pat, k);
      FindsWhatIsThere(s, pat, k);
    }
  }

  lemma OccursBehind(s: string, pat: string, j: nat)
    requires s != "" && j > 0
    ensures OccursAt(s, pat, j) <==> OccursAt(s[1..], pat, j - 1)
  {
    if j + |pat| <= |s| {
      assert s[1..][j - 1..j - 1 + |pat|] == s[j..j + |pat|];
    }
  }

  /** strstr finds the first occurrence. */
  lemma {:induction false} FindIsFirst(s: string, pat: string, k: nat)
    ensures Find(s, pat) == Some(k) ==> OccursAt(s, pat, k) && forall j: nat :: j < k ==> !OccursAt(s, pat, j)
    decreases |s|
  {
    if Find(s, pat) == Some(k) && k > 0 {
      FindIsFirst(s[1..], pat, k - 1);
      forall j: nat | j < k ensures !OccursAt(s, pat, j) {
        if j > 0 {
          OccursBehind(s, pat, j);
        }
      }
    }
  }

  lemma {:induction false} StripLeadOf(lead: string, s: string)
    requires (forall c :: c in lead ==> c == ' ' || c == '\t') && (s == "" || (s[0] != ' ' && s[0] != '\t'))
    ensures StripLead(lead + s) == s
  {
    if lead == "" {
      assert lead + s == s;
    } else {
      assert (lead + s)[0] == lead[0] && lead[0] in lead && (lead + s)[1..] == lead[1..] + s;
      assert forall c :: c in lead[1..] ==> c in lead;
      StripLeadOf(lead[1..], s);
    }
  }

  lemma {:induction false} CutBlanksOf(s: string, trail: string, from: nat)
    requires forall c :: c in trail ==> c == ' ' || c == '\n'
    requires from == |s| || (from < |s| && s[|s| - 1] != ' ' && s[|s| - 1] != '\n')
    ensures CutBlanks(s + trail, from) == s
    decreases |trail|
  {
    var u := s + trail;
    if trail == "" {
      assert u == s;
    } else {
      var n := |trail| - 1;
      assert trail[n] in trail && u[|u| - 1] == trail[n] && u[..|u| - 1] == s + trail[..n];
      assert forall c :: c in trail[..n] ==> c in trail;
      CutBlanksOf(s, trail[..n], from);
    }
  }

  /** The status checks see the line without its leading blanks; only behind the
      total time are blanks cut at the end. */
  lemma PreparedOf(lead: string, s: string)
    requires (forall c :: c in lead ==> c == ' ' || c == '\t') && (s == "" || (s[0] != ' ' && s[0] != '\t'))
    requires !Contains(s, WHOLE)
    ensures Prepared(lead + s) == s
  {
    hide Find, Contains, WHOLE;
    StripLeadOf(lead, s);
    HasIsContains(s, WHOLE);
  }

  lemma PreparedWithTime(lead: string, s: string, trail: string, k: nat)
    requires (forall c :: c in lead ==> c == ' ' || c == '\t') && s != "" && s[0] != ' ' && s[0] != '\t'
    requires forall c :: c in trail ==> c == ' ' || c == '\n'
    requires Find(s + trail, WHOLE) == Some(k) && k + 19 <= |s|
    requires k + 19 < |s| ==> s[|s| - 1] != ' ' && s[|s| - 1] != '\n'
    ensures Prepared(lead + s + trail) == s
  {
    hide Find, WHOLE;
    assert lead + s + trail == lead + (s + trail) && (s + trail)[0] == s[0];
    StripLeadOf(lead, s + trail);
    CutBlanksOf(s, trail, k + 19);
  }

  /** A line that ends the wait: an ended request with state and error, or progress
      with a number behind its first `state=` and an error code. */
  ghost predicate IsFinal(s: string) {
    || (Contains(s, "request ended") && Contains(s, "state = ") && Contains(s, "error = 0x"))
    || (Contains(s, "playgo.progress.state=") && Contains(s, "error_code=0x")
        && exists k: nat :: FirstNumber(s, k))
  }

  ghost predicate FirstNumber(s: string, k: nat) {
    OccursAt(s, "state=", k) && (forall j: nat :: j < k ==> !OccursAt(s, "state=", j)) && ScanInt(s[k + 6..]).Some?
  }

  /** Exactly those lines are judged. */
  lemma JudgedIffFinal(line: string)
    ensures Verdict(line) == if IsFinal(Prepared(line)) then Some(-1) else None
  {
    NoLineIsSuccess(line);
    hide Prepared, ScanInt, Atoi, ErrorAt, Find, OccursAt, Contains;
    var s := Prepared(line);
    HasIsContains(s, "request ended");
    HasIsContains(s, "state = ");
    HasIsContains(s, "error = 0x");
    HasIsContains(s, "playgo.progress.state=");
    HasIsContains(s, "error_code=0x");
    if Has(s, "state = ") {
      HasPrefix(s, "state =", "state = ");
    }
    NumberAtFirst(s);
  }

  lemma NumberAtFirst(s: string)
    ensures var sp := Find(s, "state=");
      (sp.Some? && ScanInt(s[sp.value + 6..]).Some?) <==> exists k: nat :: FirstNumber(s, k)
  {
    hide Find, ScanInt;
    var sp := Find(s, "state=");
    if sp.Some? {
      FindIsFirst(s, "state=", sp.value);
      assert ScanInt(s[sp.value + 6..]).Some? ==> FirstNumber(s, sp.value);
    }
    if k: nat :| FirstNumber(s, k) {
      FindsWhatIsThere(s, "state=", k);
      assert k == sp.value;
    }
  }

  lemma {:induction false} NoSuccessInLines(lines: seq<string>)
    ensures FirstVerdict(Verdict, lines) == None || FirstVerdict(Verdict, lines) == Some(-1)
  {
    hide Verdict;
    if lines != [] {
      NoLineIsSuccess(lines[0]);
      NoSuccessInLines(lines[1..]);
    }
  }

  /** Hence the wait never reports success: over every stream, every chunking and
      every timeout its result is a failure. */
  lemma InstallNeverReportedComplete(events: seq<Event>, timeout: int)
    ensures Outcome(FirstVerdict(Verdict, Lines(Heard(events, timeout)))) == -1
  {
    hide Verdict, Lines, Heard;
    NoSuccessInLines(Lines(Heard(events, timeout)));
  }
}
