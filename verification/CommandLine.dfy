/** From the bytes of a session to a pipeline: read_line, trim, tokenize and
    build_pipeline in sequence, and the printer they undo. */
module CommandLine {
  import opened Tokenizer
  import opened Pipelines

  const MAX_LINE: nat := 2048

  // ---------------------------------------------------------------- reading a line

  datatype LineRead = ReadFailed | Line(text: string, rest: string)

  /** read_line with `off` characters stored: carriage returns are dropped, a full
      buffer ends the line early, the end of input loses it. */
  function ReadLineFrom(input: string, off: nat): LineRead
    decreases |input|
  {
    if off + 1 >= MAX_LINE then Line("", input)
    else if input == "" then ReadFailed
    else if input[0] == '\r' then ReadLineFrom(input[1..], off)
    else if input[0] == '\n' then Line("", input[1..])
    else match ReadLineFrom(input[1..], off + 1)
      case ReadFailed => ReadFailed
      case Line(text, rest) => Line([input[0]] + text, rest)
  }

  function ReadLine(input: string): LineRead {
    ReadLineFrom(input, 0)
  }

  function Before(text: string, r: LineRead): LineRead {
    if r.ReadFailed? then ReadFailed else Line(text + r.text, r.rest)
  }

  method ReadLineLoop(input: string) returns (r: LineRead)
    ensures r == ReadLine(input)
  {
    var buf := "";
    var i := 0;
    assert input[0..] == input;
    BeforeNothing(ReadLine(input));
    hide ReadLineFrom, Before;
    while |buf| + 1 < MAX_LINE
      invariant 0 <= i <= |input|
      invariant ReadLine(input) == Before(buf, ReadLineFrom(input[i..], |buf|))
      decreases |input| - i
    {
      ReadLineAt(input, i, buf);
      if i == |input| {
        return ReadFailed;
      }
      var c := input[i];
      i := i + 1;
      if c == '\r' {
        continue;
      }
      if c == '\n' {
        return Line(buf, input[i..]);
      }
      buf := buf + [c];
    }
    ReadLineAt(input, i, buf);
    return Line(buf, input[i..]);
  }

  lemma BeforeNothing(r: LineRead)
    ensures Before("", r) == r
  {
    if r.Line? {
      assert "" + r.text == r.text;
    }
  }

  /** One step of ReadLineFrom in terms of positions. */
  lemma ReadLineAt(input: string, i: nat, buf: string)
    requires i <= |input|
    ensures var here := Before(buf, ReadLineFrom(input[i..], |buf|));
      if |buf| + 1 >= MAX_LINE then here == Line(buf, input[i..])
      else if i == |input| then here == ReadFailed
      else if input[i] == '\r' then here == Before(buf, ReadLineFrom(input[i + 1..], |buf|))
      else if input[i] == '\n' then here == Line(buf, input[i + 1..])
      else here == Before(buf + [input[i]], ReadLineFrom(input[i + 1..], |buf| + 1))
  {
    assert buf + "" == buf;
    if i < |input| {
      assert input[i..][1..] == input[i + 1..];
      BeforeSnoc(buf, input[i], ReadLineFrom(input[i + 1..], |buf| + 1));
    }
  }

  lemma BeforeSnoc(buf: string, c: char, r: LineRead)
    ensures Before(buf, Before([c], r)) == Before(buf + [c], r)
  {
    if r.Line? {
      assert buf + ([c] + r.text) == (buf + [c]) + r.text;
    }
  }

  /** The text without its carriage returns. */
  function DropCr(text: string): string {
    if text == "" then "" else (if text[0] == '\r' then "" else [text[0]]) + DropCr(text[1..])
  }

  lemma {:induction false} NoCarriageReturns(text: string)
    requires '\r' !in text
    ensures DropCr(text) == text
  {
    if text != "" {
      NoCarriageReturns(text[1..]);
    }
  }

  lemma {:induction false} DropCrKeepsLast(text: string)
    requires text != "" && text[|text| - 1] != '\r'
    ensures DropCr(text) != ""
  {
    if |text| > 1 {
      DropCrKeepsLast(text[1..]);
    }
  }

  lemma {:induction false} ReadLineUpTo(text: string, rest: string, off: nat)
    requires '\n' !in text && off + |DropCr(text)| + 1 < MAX_LINE
    ensures ReadLineFrom(text + rest, off) == Before(DropCr(text), ReadLineFrom(rest, off + |DropCr(text)|))
    decreases |text|
  {
    var input := text + rest;
    if text == "" {
      assert input == rest;
      BeforeNothing(ReadLineFrom(rest, off));
    } else {
      assert input[0] == text[0] && text[0] in text && input[1..] == text[1..] + rest;
      if text[0] == '\r' {
        ReadLineUpTo(text[1..], rest, off);
      } else {
        ReadLineUpTo(text[1..], rest, off + 1);
        BeforeCons(text[0], DropCr(text[1..]), ReadLineFrom(rest, off + |DropCr(text)|));
      }
    }
  }

  lemma BeforeCons(c: char, text: string, r: LineRead)
    ensures Before([c], Before(text, r)) == Before([c] + text, r)
  {
    if r.Line? {
      assert [c] + (text + r.text) == ([c] + text) + r.text;
    }
  }

  /** A line shorter than the buffer: its carriage returns go, its newline is
      consumed, the input behind it is left. */
  lemma ReadLineOf(text: string, more: string)
    requires '\n' !in text && |DropCr(text)| < 2047
    ensures ReadLine(text + "\n" + more) == Line(DropCr(text), more)
  {
    var rest := "\n" + more;
    assert text + "\n" + more == text + rest && rest[1..] == more;
    ReadLineUpTo(text, rest, 0);
    assert DropCr(text) + "" == DropCr(text);
  }

  /** Without a newline the text is lost at the end of input ... */
  lemma ReadLineOfUnfinished(text: string)
    requires '\n' !in text && |DropCr(text)| < 2047
    ensures ReadLine(text) == ReadFailed
  {
    assert text + "" == text;
    ReadLineUpTo(text, "", 0);
  }

  /** ... and a longer line is cut after 2047 characters, the rest of it being the
      next line. */
  lemma ReadLineOfLong(text: string, c: char, more: string)
    requires '\n' !in text && |DropCr(text)| == 2046 && c != '\r' && c != '\n'
    ensures ReadLine(text + [c] + more) == Line(DropCr(text) + [c], more)
  {
    var rest := [c] + more;
    assert text + [c] + more == text + rest && rest[1..] == more;
    ReadLineUpTo(text, rest, 0);
    assert [c] + "" == [c];
    assert ReadLineFrom(more, 2047) == Line("", more);
  }

  // ---------------------------------------------------------------- trim

  function TrimLeft(s: string): string {
    if s != "" && IsSpace(s[0]) then TrimLeft(s[1..]) else s
  }

  function TrimRight(s: string): string {
    if s != "" && IsSpace(s[|s| - 1]) then TrimRight(s[..|s| - 1]) else s
  }

  function Trim(s: string): string {
    TrimRight(TrimLeft(s))
  }

  /** trim: the start moves over leading blanks, the end back over trailing ones. */
  method TrimLoop(s: string) returns (t: string)
    ensures t == Trim(s)
  {
    var b := 0;
    assert s[0..] == s;
    while b < |s| && IsSpace(s[b])
      invariant 0 <= b <= |s| && TrimLeft(s[b..]) == TrimLeft(s)
    {
      assert s[b..][1..] == s[b + 1..];
      b := b + 1;
    }
    var e := |s|;
    assert s[b..e] == s[b..];
    while e > b && IsSpace(s[e - 1])
      invariant b <= e <= |s| && TrimRight(s[b..e]) == TrimRight(s[b..])
    {
      TrimRightStep(s[b..e - 1], s[e - 1]);
      assert s[b..e] == s[b..e - 1] + [s[e - 1]];
      e := e - 1;
    }
    t := s[b..e];
  }

  lemma TrimRightStep(u: string, c: char)
    requires IsSpace(c)
    ensures TrimRight(u + [c]) == TrimRight(u)
  {
    assert (u + [c])[..|u|] == u;
  }

  /** Exactly the blanks at both ends go. */
  lemma TrimExact(pre: string, mid: string, post: string)
    requires forall c :: c in pre || c in post ==> c in [' ', '\t', '\n', 11 as char, 12 as char, '\r']
    requires mid != "" ==> mid[0] !in [' ', '\t', '\n', 11 as char, 12 as char, '\r']
    requires mid != "" ==> mid[|mid| - 1] !in [' ', '\t', '\n', 11 as char, 12 as char, '\r']
    ensures Trim(pre + mid + post) == mid
  {
    if mid == "" {
      assert pre + mid + post == (pre + post) + "";
      TrimLeftBlanks(pre + post, "");
    } else {
      assert pre + mid + post == pre + (mid + post);
      TrimLeftBlanks(pre, mid + post);
      assert (mid + post)[0] == mid[0];
      TrimRightBlanks(mid, post);
    }
  }

  lemma {:induction false} TrimLeftBlanks(pre: string, s: string)
    requires forall c :: c in pre ==> IsSpace(c)
    ensures TrimLeft(pre + s) == TrimLeft(s)
    decreases |pre|
  {
    if pre == "" {
      assert pre + s == s;
    } else {
      assert (pre + s)[0] == pre[0] && pre[0] in pre && (pre + s)[1..] == pre[1..] + s;
      assert forall c :: c in pre[1..] ==> c in pre;
      TrimLeftBlanks(pre[1..], s);
    }
  }

  lemma {:induction false} TrimRightBlanks(s: string, post: string)
    requires forall c :: c in post ==> IsSpace(c)
    ensures TrimRight(s + post) == TrimRight(s)
    decreases |post|
  {
    if post == "" {
      assert s + post == s;
    } else {
      var n := |post| - 1;
      assert post[n] in post && s + post == (s + post[..n]) + [post[n]];
      TrimRightStep(s + post[..n], post[n]);
      assert forall c :: c in post[..n] ==> c in post;
      TrimRightBlanks(s, post[..n]);
    }
  }

  /** What trim leaves: the text between the first and the last character that is
      not blank. */
  lemma {:induction false} TrimmedHasNoBlankEnds(s: string)
    ensures Trim(s) != "" ==> !IsSpace(Trim(s)[0]) && !IsSpace(Trim(s)[|Trim(s)| - 1])
    decreases |s|
  {
    if s != "" && IsSpace(s[0]) {
      TrimmedHasNoBlankEnds(s[1..]);
    } else {
      TrimRightPrefix(s);
    }
  }

  lemma {:induction false} TrimRightPrefix(s: string)
    ensures TrimRight(s) <= s && (TrimRight(s) != "" ==> !IsSpace(TrimRight(s)[|TrimRight(s)| - 1]))
    decreases |s|
  {
    if s != "" && IsSpace(s[|s| - 1]) {
      TrimRightPrefix(s[..|s| - 1]);
    }
  }

  // ---------------------------------------------------------------- the line as a C string

  const NUL: char := 0 as char

  /** What string functions see of a buffer: the text before its first NUL. */
  function CString(s: string): string {
    if s == "" || s[0] == NUL then "" else [s[0]] + CString(s[1..])
  }

  lemma {:induction false} CStringHasNoNul(s: string)
    ensures NUL !in CString(s) && (NUL !in s ==> CString(s) == s)
    decreases |s|
  {
    if s != "" && s[0] != NUL {
      CStringHasNoNul(s[1..]);
      assert s == [s[0]] + s[1..];
    }
  }

  lemma {:induction false} TrimLeftSuffix(s: string)
    ensures forall c :: c in TrimLeft(s) ==> c in s
    decreases |s|
  {
    if s != "" && IsSpace(s[0]) {
      TrimLeftSuffix(s[1..]);
    }
  }

  /** What the session makes of one line. */
  function ParseLine(line: string): Parse {
    Build(Take(Lex(Trim(CString(line))), MAX_TOKS))
  }

  lemma {:induction false} CStringStops(text: string, junk: string)
    ensures CString(text + [NUL] + junk) == CString(text)
    decreases |text|
  {
    var s := text + [NUL] + junk;
    if text != "" {
      assert s[0] == text[0] && s[1..] == text[1..] + [NUL] + junk;
      CStringStops(text[1..], junk);
    }
  }

  /** What follows a NUL in a line is not looked at. */
  lemma NulEndsLine(text: string, junk: string)
    ensures ParseLine(text + [NUL] + junk) == ParseLine(text)
  {
    hide Build, Lex, Trim, CString, Take;
    CStringStops(text, junk);
  }

  /** No NUL gets into a token. */
  lemma TokensHaveNoNul(line: string, t: string)
    requires t in Take(Lex(Trim(CString(line))), MAX_TOKS)
    ensures NUL !in t
  {
    hide Lex, CString, TrimLeft, TrimRight;
    var s := CString(line);
    CStringHasNoNul(line);
    TrimLeftSuffix(s);
    TrimRightPrefix(TrimLeft(s));
    LexKeepsChars(Trim(s));
  }

  // ---------------------------------------------------------------- printing

  function PrintWords(words: seq<string>): string {
    if words == [] then ""
    else if |words| == 1 then Quoted(words[0])
    else Quoted(words[0]) + (" " + PrintWords(words[1..]))
  }

  function PrintCommands(cmds: seq<seq<string>>): string {
    if cmds == [] then ""
    else if |cmds| == 1 then PrintWords(cmds[0])
    else PrintWords(cmds[0]) + (" | " + PrintCommands(cmds[1..]))
  }

  function OperatorOf(append: bool): string {
    if append then ">>" else ">"
  }

  function PrintRedirect(r: Redirect): string {
    if r.NoRedirect? then "" else " " + OperatorOf(r.append) + " " + Quoted(r.file)
  }

  function Print(p: Pipeline): string {
    PrintCommands(p.cmds) + PrintRedirect(p.redirect)
  }

  function CommandTokens(cmds: seq<seq<string>>): seq<string> {
    if cmds == [] then []
    else if |cmds| == 1 then cmds[0]
    else cmds[0] + (["|"] + CommandTokens(cmds[1..]))
  }

  function RedirectTokens(r: Redirect): seq<string> {
    if r.NoRedirect? then [] else [OperatorOf(r.append), r.file]
  }

  function Tokens(p: Pipeline): seq<string> {
    CommandTokens(p.cmds) + RedirectTokens(p.redirect)
  }

  ghost predicate PrintableWords(words: seq<string>) {
    words != [] && forall w :: w in words ==> '"' !in w
  }

  ghost predicate PrintableCommands(cmds: seq<seq<string>>) {
    forall c :: c in cmds ==> PrintableWords(c)
  }

  ghost predicate PlainCommands(cmds: seq<seq<string>>) {
    forall c, w :: c in cmds && w in c ==> IsPlain(w)
  }

  /** 1 to 16 non-empty commands of words without double quotes; an optional final
      redirect to a name without double quotes. */
  ghost predicate Printable(p: Pipeline) {
    && 1 <= |p.cmds| <= 16 && PrintableCommands(p.cmds)
    && (p.redirect.ToFile? ==> '"' !in p.redirect.file)
  }

  /** No word and no file name holds a NUL. */
  ghost predicate NulFree(p: Pipeline) {
    && (forall c, w :: c in p.cmds && w in c ==> NUL !in w)
    && (p.redirect.ToFile? ==> NUL !in p.redirect.file)
  }

  lemma {:induction false} PrintedWordsNulFree(words: seq<string>)
    requires forall w :: w in words ==> NUL !in w
    ensures NUL !in PrintWords(words)
    decreases |words|
  {
    if words != [] {
      assert words[0] in words;
      PrintedWordsNulFree(words[1..]);
    }
  }

  lemma {:induction false} PrintedCommandsNulFree(cmds: seq<seq<string>>)
    requires forall c, w :: c in cmds && w in c ==> NUL !in w
    ensures NUL !in PrintCommands(cmds)
    decreases |cmds|
  {
    hide PrintWords;
    if cmds != [] {
      assert cmds[0] in cmds;
      PrintedWordsNulFree(cmds[0]);
      assert forall c :: c in cmds[1..] ==> c in cmds;
      PrintedCommandsNulFree(cmds[1..]);
    }
  }

  lemma PrintedNulFree(p: Pipeline)
    requires NulFree(p)
    ensures NUL !in Print(p)
  {
    hide PrintCommands;
    PrintedCommandsNulFree(p.cmds);
  }

  /** What is parsed from a line never holds one. */
  lemma ParsedIsNulFree(line: string)
    requires ParseLine(line).Parsed?
    ensures NulFree(ParseLine(line).p)
  {
    hide Build, Lex, Trim, CString, Take, RedirectIn, IsPlain, Words, Flatten, EndsInRedirect, Overfull;
    var toks := Take(Lex(Trim(CString(line))), MAX_TOKS);
    var p := ParseLine(line).p;
    forall c, w | c in p.cmds && w in c ensures NUL !in w {
      CommandWords(toks, c);
      TokensHaveNoNul(line, w);
    }
    BuildKeepsWords(toks);
    RedirectFileIsToken(toks, NoRedirect);
    if p.redirect.ToFile? {
      TokensHaveNoNul(line, p.redirect.file);
    }
  }

  // ---------------------------------------------------------------- the lexer undoes it

  lemma {:induction false} LexWords(words: seq<string>, rest: string)
    requires PrintableWords(words) && Separates(rest)
    ensures Lex(PrintWords(words) + rest) == words + Lex(rest)
    decreases |words|
  {
    hide Lex, Quoted;
    var w, more := words[0], words[1..];
    assert w in words;
    if |words| == 1 {
      LexQuoted(w, rest);
      assert words == [w];
    } else {
      var tail := PrintWords(more) + rest;
      assert PrintWords(words) + rest == Quoted(w) + (" " + tail);
      LexQuoted(w, " " + tail);
      LexBlank(' ', tail);
      assert forall v :: v in more ==> v in words;
      LexWords(more, rest);
      assert words == [w] + more;
    }
  }

  lemma {:induction false} LexCommands(cmds: seq<seq<string>>, rest: string)
    requires cmds != [] && PrintableCommands(cmds) && Separates(rest)
    ensures Lex(PrintCommands(cmds) + rest) == CommandTokens(cmds) + Lex(rest)
    decreases |cmds|
  {
    hide Lex, PrintWords;
    var c, more := cmds[0], cmds[1..];
    assert c in cmds;
    if |cmds| == 1 {
      LexWords(c, rest);
    } else {
      var tail := PrintCommands(more) + rest;
      assert PrintCommands(cmds) + rest == PrintWords(c) + (" | " + tail);
      LexWords(c, " | " + tail);
      assert " | " + tail == " " + "|" + " " + tail;
      LexSpacedOperator("|", tail);
      assert forall d :: d in more ==> d in cmds;
      LexCommands(more, rest);
      assert c + (["|"] + (CommandTokens(more) + Lex(rest))) == (c + (["|"] + CommandTokens(more))) + Lex(rest);
    }
  }

  lemma LexPrinted(p: Pipeline)
    requires Printable(p)
    ensures Lex(Print(p)) == Tokens(p)
  {
    var tail := PrintRedirect(p.redirect);
    LexCommands(p.cmds, tail);
    assert Lex("") == [];
    if p.redirect.ToFile? {
      var op, file := OperatorOf(p.redirect.append), p.redirect.file;
      LexSpacedOperator(op, Quoted(file));
      LexQuoted(file, "");
      assert Quoted(file) + "" == Quoted(file);
    }
    hide Lex;
  }

  // ---------------------------------------------------------------- the parser undoes it

  /** The segments of a printed pipeline. */
  function SegmentsOf(cmds: seq<seq<string>>, r: Redirect): seq<Segment> {
    if cmds == [] then []
    else if |cmds| == 1 then [Segment(cmds[0], if r.NoRedirect? then AtEnd else AtRedirect(r))]
    else [Segment(cmds[0], AtPipe)] + SegmentsOf(cmds[1..], r)
  }

  /** A run of plain words is the first segment of whatever follows it. */
  lemma FirstSegmentOfWords(c: seq<string>, tail: seq<string>)
    requires c != [] && (forall w :: w in c ==> IsPlain(w)) && (tail != [] ==> !IsPlain(tail[0]))
    ensures tail == [] ==> FirstSegment(c + tail) == First(Segment(c, AtEnd), |c|)
    ensures tail != [] && tail[0] == "|" ==> FirstSegment(c + tail) == First(Segment(c, AtPipe), |c| + 1)
    ensures |tail| > 1 && tail[0] != "|" ==>
      FirstSegment(c + tail) == First(Segment(c, AtRedirect(ToFile(tail[1], tail[0] == ">>"))), |c| + 2)
  {
    hide FirstSegment;
    var toks := c + tail;
    assert forall k :: 0 <= k < |c| ==> toks[k] == c[k] && c[k] in c;
    FirstSegmentIs(toks, 0, |c|);
    assert toks[0..] == toks && toks[0..|c|] == c;
  }

  /** A command, a pipe and what follows. */
  lemma SplitPipe(c: seq<string>, rest: seq<string>, segs: seq<Segment>)
    requires c != [] && (forall w :: w in c ==> IsPlain(w)) && Segments(rest) == Split(segs)
    ensures Segments(c + (["|"] + rest)) == Split([Segment(c, AtPipe)] + segs)
  {
    hide FirstSegment, Segments;
    var toks := c + (["|"] + rest);
    FirstSegmentOfWords(c, ["|"] + rest);
    assert toks[|c| + 1..] == rest;
    SegmentsUnfold(toks, Segment(c, AtPipe), |c| + 1, segs);
  }

  lemma FirstOfPlain(cmds: seq<seq<string>>)
    requires cmds != [] && PrintableCommands(cmds) && PlainCommands(cmds)
    ensures cmds[0] != [] && forall w :: w in cmds[0] ==> IsPlain(w)
    ensures PrintableCommands(cmds[1..]) && PlainCommands(cmds[1..])
  {
    hide IsPlain;
    assert cmds[0] in cmds;
    assert forall d :: d in cmds[1..] ==> d in cmds;
  }

  lemma {:induction false} SplitTokens(cmds: seq<seq<string>>, r: Redirect)
    requires cmds != [] && PrintableCommands(cmds) && PlainCommands(cmds)
    ensures Segments(CommandTokens(cmds) + RedirectTokens(r)) == Split(SegmentsOf(cmds, r))
    decreases |cmds|
  {
    hide Segments, PrintableCommands, PlainCommands, IsPlain, RedirectTokens;
    FirstOfPlain(cmds);
    if |cmds| > 1 {
      var more := cmds[1..];
      SplitTokens(more, r);
      var rest := CommandTokens(more) + RedirectTokens(r);
      SplitPipe(cmds[0], rest, SegmentsOf(more, r));
      Assoc(["|"], CommandTokens(more), RedirectTokens(r));
      Assoc(cmds[0], ["|"] + CommandTokens(more), RedirectTokens(r));
    } else {
      SplitLast(cmds[0], r);
    }
  }

  lemma SplitLast(c: seq<string>, r: Redirect)
    requires c != [] && forall w :: w in c ==> IsPlain(w)
    ensures Segments(c + RedirectTokens(r)) == Split(SegmentsOf([c], r))
  {
    assert Segments([]) == Split([]);
    hide FirstSegment, Segments;
    var toks := c + RedirectTokens(r);
    FirstSegmentOfWords(c, RedirectTokens(r));
    assert toks[|toks|..] == [];
    var seg := SegmentsOf([c], r)[0];
    SegmentsUnfold(toks, seg, |toks|, []);
    assert [seg] + [] == [seg];
  }

  lemma OneSegment(seg: Segment)
    requires seg.argv != []
    ensures Commands([seg]) == [seg.argv] && Commands([]) == []
    ensures LastRedirect([seg]) == (if seg.end.AtRedirect? then seg.end.to else NoRedirect) && LastRedirect([]) == NoRedirect
  {
    assert [] + [seg] == [seg];
    SnocCommands([], seg);
  }

  /** Commands and LastRedirect read from the front. */
  lemma {:induction false} ConsCommands(seg: Segment, segs: seq<Segment>)
    requires seg.argv != []
    ensures Commands([seg] + segs) == [seg.argv] + Commands(segs)
    ensures seg.end.AtPipe? ==> LastRedirect([seg] + segs) == LastRedirect(segs)
    decreases |segs|
  {
    hide Commands, LastRedirect;
    if segs == [] {
      OneSegment(seg);
      assert [seg] + segs == [seg] && [seg.argv] + [] == [seg.argv];
    } else {
      var front, last := segs[..|segs| - 1], segs[|segs| - 1];
      assert segs == front + [last];
      ConsCommands(seg, front);
      SnocCommands(front, last);
      SnocCommands([seg] + front, last);
      Assoc([seg], front, [last]);
      Assoc([seg.argv], Commands(front), [last.argv]);
    }
  }

  lemma {:induction false} CommandsOfSegments(cmds: seq<seq<string>>, r: Redirect)
    requires cmds != [] && PrintableCommands(cmds)
    ensures Commands(SegmentsOf(cmds, r)) == cmds && LastRedirect(SegmentsOf(cmds, r)) == r
    decreases |cmds|
  {
    hide Commands, LastRedirect;
    assert cmds[0] in cmds && PrintableWords(cmds[0]);
    if |cmds| > 1 {
      var more := cmds[1..];
      assert forall d :: d in more ==> d in cmds;
      CommandsOfSegments(more, r);
      ConsCommands(Segment(cmds[0], AtPipe), SegmentsOf(more, r));
      assert cmds == [cmds[0]] + more;
    } else {
      OneSegment(SegmentsOf(cmds, r)[0]);
      assert cmds == [cmds[0]];
    }
  }

  lemma {:induction false} LastSegmentOf(cmds: seq<seq<string>>, r: Redirect)
    requires cmds != []
    ensures var segs := SegmentsOf(cmds, r);
      segs != [] && segs[|segs| - 1].argv == cmds[|cmds| - 1]
    decreases |cmds|
  {
    if |cmds| > 1 {
      LastSegmentOf(cmds[1..], r);
    }
  }

  lemma BuildTokens(p: Pipeline)
    requires Printable(p) && PlainCommands(p.cmds)
    ensures Build(Tokens(p)) == Parsed(p)
  {
    SplitTokens(p.cmds, p.redirect);
    CommandsOfSegments(p.cmds, p.redirect);
    LastSegmentOf(p.cmds, p.redirect);
    NotTooLong(p.cmds, SegmentsOf(p.cmds, p.redirect));
    hide Segments, Commands, LastRedirect, SegmentsOf, CommandTokens, RedirectTokens, PrintableWords, TooLong;
  }

  lemma NotTooLong(cmds: seq<seq<string>>, segs: seq<Segment>)
    requires cmds != [] && |cmds| <= MAX_PIPE && PrintableCommands(cmds)
    requires segs != [] && Commands(segs) == cmds && segs[|segs| - 1].argv == cmds[|cmds| - 1]
    ensures !TooLong(segs, 0)
  {
    assert cmds[|cmds| - 1] in cmds;
  }

  // ---------------------------------------------------------------- round trip

  lemma {:induction false} PrintedCommandsQuoted(cmds: seq<seq<string>>)
    requires cmds != [] && PrintableCommands(cmds)
    ensures var s := PrintCommands(cmds); |s| >= 2 && s[0] == '"' && s[|s| - 1] == '"'
    decreases |cmds|
  {
    hide PrintWords;
    assert cmds[0] in cmds;
    PrintedWordsQuoted(cmds[0]);
    if |cmds| > 1 {
      assert forall d :: d in cmds[1..] ==> d in cmds;
      PrintedCommandsQuoted(cmds[1..]);
    }
  }

  lemma {:induction false} PrintedWordsQuoted(words: seq<string>)
    requires words != []
    ensures var s := PrintWords(words); |s| >= 2 && s[0] == '"' && s[|s| - 1] == '"'
    decreases |words|
  {
    if |words| > 1 {
      PrintedWordsQuoted(words[1..]);
    }
  }

  lemma TrimPrinted(p: Pipeline)
    requires Printable(p)
    ensures Trim(Print(p)) == Print(p)
  {
    hide PrintCommands;
    PrintedCommandsQuoted(p.cmds);
    var s := Print(p);
    assert s[0] == '"' && s[|s| - 1] == '"';
  }

  /** What the session makes of a printed pipeline is what its tokens parse to. */
  lemma ParsePrinted(p: Pipeline)
    requires Printable(p) && NulFree(p) && |Tokens(p)| < 256
    ensures ParseLine(Print(p)) == Build(Tokens(p))
  {
    hide Lex, Build, Print, Tokens, Trim, CString;
    PrintedNulFree(p);
    CStringHasNoNul(Print(p));
    TrimPrinted(p);
    LexPrinted(p);
  }

  /** No word of a command is an operator. */
  lemma ParsedIsPlain(toks: seq<string>)
    requires Build(toks).Parsed?
    ensures PlainCommands(Build(toks).p.cmds)
  {
    hide Build, IsPlain;
    forall c, w | c in Build(toks).p.cmds && w in c ensures IsPlain(w) {
      CommandWords(toks, c);
    }
  }

  /** Parsing undoes printing exactly when no word of a command is an operator and
      nothing holds a NUL: quotes protect blanks and operators inside a word, not a
      whole operator, and a NUL ends the line. */
  lemma ParseUndoesPrint(p: Pipeline)
    requires Printable(p) && |Tokens(p)| < 256
    ensures ParseLine(Print(p)) == Parsed(p)
      <==> NulFree(p) && forall c, w :: c in p.cmds && w in c ==> IsPlain(w)
  {
    hide ParseLine, Build, Print, Tokens, IsPlain, NulFree;
    if ParseLine(Print(p)) == Parsed(p) {
      ParsedIsNulFree(Print(p));
    }
    if NulFree(p) {
      ParsePrinted(p);
      if PlainCommands(p.cmds) {
        BuildTokens(p);
      }
      if Build(Tokens(p)) == Parsed(p) {
        ParsedIsPlain(Tokens(p));
      }
    }
  }

  /** The same from the bytes of the session: a printed line that fits the buffer
      is read whole, comes back as the pipeline under the same condition, and the
      input behind it is untouched. */
  lemma SessionReadsPrintedLine(p: Pipeline, more: string)
    requires Printable(p) && |Tokens(p)| < 256
    requires '\r' !in Print(p) && '\n' !in Print(p) && |Print(p)| + 1 < MAX_LINE
    ensures ReadLine(Print(p) + "\n" + more) == Line(Print(p), more)
    ensures ParseLine(Print(p)) == Parsed(p)
      <==> NulFree(p) && forall c, w :: c in p.cmds && w in c ==> IsPlain(w)
  {
    hide Print, ParseLine;
    NoCarriageReturns(Print(p));
    ReadLineOf(Print(p), more);
    ParseUndoesPrint(p);
  }

  /** Two adjacent words with an operator word between them: `a "|" b`, for any
      plain a and b, is two commands. */
  lemma QuotedOperatorStillSplits(a: string, b: string)
    requires '"' !in a && '"' !in b && NUL !in a && NUL !in b && IsPlain(a) && IsPlain(b)
    ensures ParseLine(Print(Pipeline([[a, "|", b]], NoRedirect))) == Parsed(Pipeline([[a], [b]], NoRedirect))
  {
    var p, q := Pipeline([[a, "|", b]], NoRedirect), Pipeline([[a], [b]], NoRedirect);
    SplitTokensAgree(a, b);
    hide ParseLine, Build, Print, Tokens;
    assert PrintableWords([a, "|", b]) && PrintableWords([a]) && PrintableWords([b]);
    ParsePrinted(p);
    BuildTokens(q);
  }

  lemma SplitTokensAgree(a: string, b: string)
    ensures Tokens(Pipeline([[a, "|", b]], NoRedirect)) == [a, "|", b] == Tokens(Pipeline([[a], [b]], NoRedirect))
  {
    var cmds := [[a], [b]];
    assert cmds[1..] == [[b]] && CommandTokens([[b]]) == [b];
    assert CommandTokens(cmds) == [a] + (["|"] + [b]) == [a, "|", b];
  }
}
