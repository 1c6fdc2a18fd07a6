/** The pipeline parser of src/session.c and what it keeps of its tokens. */
module Pipelines {
  import opened Tokenizer

  const MAX_PIPE: nat := 16

  datatype Redirect = NoRedirect | ToFile(file: string, append: bool)
  datatype Pipeline = Pipeline(cmds: seq<seq<string>>, redirect: Redirect)
  /** A return value of build_pipeline: -1, or 0 with the parsed pipeline. */
  datatype Parse = ParseError | Parsed(p: Pipeline)

  predicate IsRedirect(t: string) {
    t == ">" || t == ">>"
  }

  predicate IsPlain(t: string) {
    t != "|" && !IsRedirect(t)
  }

  // ---------------------------------------------------------------- segments

  /** A run of plain tokens and what ended it. */
  datatype Segment = Segment(argv: seq<string>, end: End)
  datatype End = AtEnd | AtPipe | AtRedirect(to: Redirect)

  /** How many plain tokens the list starts with. */
  function PlainCount(toks: seq<string>): (n: nat)
    ensures n <= |toks| && (n < |toks| ==> !IsPlain(toks[n]))
    ensures forall k :: 0 <= k < n ==> IsPlain(toks[k])
  {
    if toks == [] || !IsPlain(toks[0]) then 0 else 1 + PlainCount(toks[1..])
  }

  /** The first segment of a non-empty list and the tokens it takes, nothing for
      a redirect without a file name. */
  datatype First = Dangling | First(seg: Segment, taken: nat)

  function FirstSegment(toks: seq<string>): (f: First)
    requires toks != []
    ensures f.First? ==> 0 < f.taken <= |toks|
  {
    var n := PlainCount(toks);
    if n == |toks| then First(Segment(toks, AtEnd), n)
    else if toks[n] == "|" then First(Segment(toks[..n], AtPipe), n + 1)
    else if n + 1 == |toks| then Dangling
    else First(Segment(toks[..n], AtRedirect(ToFile(toks[n + 1], toks[n] == ">>"))), n + 2)
  }

  datatype Split = NoSplit | Split(segs: seq<Segment>)

  /** The whole list as segments, unless a redirect dangles. */
  function Segments(toks: seq<string>): Split
    decreases |toks|
  {
    if toks == [] then Split([])
    else match FirstSegment(toks)
      case Dangling => NoSplit
      case First(seg, taken) =>
        match Segments(toks[taken..])
        case NoSplit => NoSplit
        case Split(segs) => Split([seg] + segs)
  }

  function Commands(segs: seq<Segment>): seq<seq<string>> {
    if segs == [] then []
    else
      var s := segs[|segs| - 1];
      Commands(segs[..|segs| - 1]) + (if s.argv == [] then [] else [s.argv])
  }

  function LastRedirect(segs: seq<Segment>): Redirect {
    if segs == [] then NoRedirect
    else
      var s := segs[|segs| - 1];
      if s.end.AtRedirect? then s.end.to else LastRedirect(segs[..|segs| - 1])
  }

  /** Tokens remain once sixteen commands have been collected, n of them earlier. */
  predicate TooLong(segs: seq<Segment>, n: nat) {
    segs != [] && n + |Commands(segs[..|segs| - 1])| >= MAX_PIPE
  }

  /** The segment specification of build_pipeline. */
  function Build(toks: seq<string>): Parse {
    match Segments(toks)
    case NoSplit => ParseError
    case Split(segs) =>
      if TooLong(segs, 0) then ParseError else Parsed(Pipeline(Commands(segs), LastRedirect(segs)))
  }

  // ---------------------------------------------------------------- unfolding

  lemma Assoc<T>(a: seq<T>, b: seq<T>, c: seq<T>)
    ensures a + (b + c) == (a + b) + c
  {
  }

  lemma SegmentsUnfold(toks: seq<string>, seg: Segment, taken: nat, segs: seq<Segment>)
    requires toks != [] && FirstSegment(toks) == First(seg, taken) && taken <= |toks|
    requires Segments(toks[taken..]) == Split(segs)
    ensures Segments(toks) == Split([seg] + segs)
  {
  }

  lemma SegmentsHead(toks: seq<string>)
    requires toks != [] && Segments(toks).Split?
    ensures FirstSegment(toks).First?
    ensures var f := FirstSegment(toks);
      Segments(toks[f.taken..]).Split? && Segments(toks).segs == [f.seg] + Segments(toks[f.taken..]).segs
  {
    hide FirstSegment;
  }

  // ---------------------------------------------------------------- the loops

  function Prepend(done: seq<Segment>, rest: Split): Split {
    if rest.NoSplit? then NoSplit else Split(done + rest.segs)
  }

  /** The first i tokens make the segments `done`. */
  ghost predicate Progress(done: seq<Segment>, toks: seq<string>, i: nat)
    requires i <= |toks|
  {
    Segments(toks) == Prepend(done, Segments(toks[i..]))
  }

  lemma ProgressStep(done: seq<Segment>, toks: seq<string>, i: nat)
    requires i < |toks| && Progress(done, toks, i)
    ensures FirstSegment(toks[i..]).Dangling? ==> Segments(toks) == NoSplit
    ensures FirstSegment(toks[i..]).First? ==>
      var f := FirstSegment(toks[i..]);
      Progress(done + [f.seg], toks, i + f.taken)
  {
    hide FirstSegment;
    match FirstSegment(toks[i..])
    case Dangling =>
    case First(seg, taken) =>
      assert toks[i..][taken..] == toks[i + taken..];
      var rest := Segments(toks[i + taken..]);
      if rest.Split? {
        assert done + ([seg] + rest.segs) == (done + [seg]) + rest.segs;
      }
  }

  /** Sixteen commands and tokens left is a parse error whatever follows. */
  lemma FullMeansError(done: seq<Segment>, toks: seq<string>, i: nat)
    requires i < |toks| && Progress(done, toks, i) && |Commands(done)| >= MAX_PIPE
    ensures Build(toks) == ParseError
  {
    hide FirstSegment, LastRedirect, Commands;
    var rest := Segments(toks[i..]);
    if rest.Split? {
      SegmentsHead(toks[i..]);
      var segs, front := done + rest.segs, rest.segs[..|rest.segs| - 1];
      assert segs[..|segs| - 1] == done + front;
      CommandsMonotone(done, front);
    }
  }

  lemma {:induction false} CommandsMonotone(a: seq<Segment>, b: seq<Segment>)
    ensures |Commands(a + b)| >= |Commands(a)|
    decreases |b|
  {
    if b == [] {
      assert a + b == a;
    } else {
      assert (a + b)[..|a + b| - 1] == a + b[..|b| - 1];
      CommandsMonotone(a, b[..|b| - 1]);
    }
  }

  lemma SnocCommands(done: seq<Segment>, seg: Segment)
    ensures Commands(done + [seg]) == if seg.argv == [] then Commands(done) else Commands(done) + [seg.argv]
    ensures LastRedirect(done + [seg]) == if seg.end.AtRedirect? then seg.end.to else LastRedirect(done)
  {
    assert (done + [seg])[..|done|] == done;
  }

  lemma {:induction false} PlainCountIs(toks: seq<string>, n: nat)
    requires n <= |toks| && (n < |toks| ==> !IsPlain(toks[n]))
    requires forall k :: 0 <= k < n ==> IsPlain(toks[k])
    ensures PlainCount(toks) == n
    decreases n
  {
    if n > 0 {
      PlainCountIs(toks[1..], n - 1);
    }
  }

  /** The first segment of the tokens from `start` when the plain ones end at i. */
  lemma FirstSegmentIs(toks: seq<string>, start: nat, i: nat)
    requires start < |toks| && start <= i <= |toks| && (i < |toks| ==> !IsPlain(toks[i]))
    requires forall k :: start <= k < i ==> IsPlain(toks[k])
    ensures var f := FirstSegment(toks[start..]);
      if i == |toks| then f == First(Segment(toks[start..i], AtEnd), i - start)
      else if toks[i] == "|" then f == First(Segment(toks[start..i], AtPipe), i + 1 - start)
      else if i + 1 == |toks| then f == Dangling
      else f == First(Segment(toks[start..i], AtRedirect(ToFile(toks[i + 1], toks[i] == ">>"))), i + 2 - start)
  {
    var rest := toks[start..];
    PlainCountIs(rest, i - start);
    assert rest[..i - start] == toks[start..i];
  }

  lemma PlainIs(t: string)
    ensures IsPlain(t) <==> t != "|" && t != ">" && t != ">>"
  {
  }

  /** The inner loop: plain tokens into argv until `|`, a redirect or the end. */
  method ReadSegment(toks: seq<string>, start: nat, redirect: Redirect)
    returns (ok: bool, argv: seq<string>, i: nat, redirect': Redirect)
    requires start < |toks|
    ensures ok <==> FirstSegment(toks[start..]).First?
    ensures ok ==>
      var f := FirstSegment(toks[start..]);
      argv == f.seg.argv && i == start + f.taken <= |toks|
      && redirect' == if f.seg.end.AtRedirect? then f.seg.end.to else redirect
  {
    hide FirstSegment, IsPlain, IsRedirect;
    i, argv, redirect' := start, [], redirect;
    while i < |toks|
      invariant start <= i <= |toks| && argv == toks[start..i]
      invariant forall k :: start <= k < i ==> IsPlain(toks[k])
    {
      PlainIs(toks[i]);
      if toks[i] == "|" {
        FirstSegmentIs(toks, start, i);
        return true, argv, i + 1, redirect';
      }
      if toks[i] == ">" || toks[i] == ">>" {
        FirstSegmentIs(toks, start, i);
        var append := toks[i] == ">>";
        i := i + 1;
        if i >= |toks| {
          return false, argv, i, redirect';
        }
        return true, argv, i + 1, ToFile(toks[i], append);
      }
      argv := argv + [toks[i]];
      i := i + 1;
    }
    FirstSegmentIs(toks, start, i);
    return true, argv, i, redirect';
  }

  /** build_pipeline; inBounds says whether every argv[argc] = NULL it stored was
      inside its array of MAX_TOKS pointers. */
  method BuildPipeline(toks: seq<string>) returns (r: Parse, inBounds: bool)
    ensures r == Build(toks)
    ensures r.Parsed? ==> (inBounds <==> forall c :: c in r.p.cmds ==> |c| < MAX_TOKS)
    ensures r.Parsed? && |toks| < MAX_TOKS ==> inBounds
  {
    var cmds: seq<seq<string>> := [];
    var redirect := NoRedirect;
    var i := 0;
    inBounds := true;
    ghost var done: seq<Segment> := [];
    ProgressStart(toks);
    hide Segments, FirstSegment, Build, Progress, Commands, LastRedirect;
    while i < |toks|
      invariant 0 <= i <= |toks| && Progress(done, toks, i)
      invariant cmds == Commands(done) && redirect == LastRedirect(done)
      invariant |cmds| <= MAX_PIPE && (i == |toks| || |cmds| == |Commands(done)|)
      invariant inBounds <==> forall c :: c in cmds ==> |c| < MAX_TOKS
      invariant done != [] ==> |Commands(done[..|done| - 1])| < MAX_PIPE
    {
      if |cmds| >= MAX_PIPE {
        FullMeansError(done, toks, i);
        return ParseError, inBounds;
      }
      ProgressStep(done, toks, i);
      var ok, argv, next, redirect' := ReadSegment(toks, i, redirect);
      if !ok {
        DanglingMeansError(toks);
        return ParseError, inBounds;
      }
      ghost var seg := FirstSegment(toks[i..]).seg;
      SnocCommands(done, seg);
      assert (done + [seg])[..|done|] == done;
      done := done + [seg];
      i, redirect := next, redirect';
      if |argv| == 0 {
        continue;
      }
      inBounds := inBounds && |argv| < MAX_TOKS;
      cmds := cmds + [argv];
    }
    ProgressEnd(done, toks);
    r := Parsed(Pipeline(cmds, redirect));
    CommandsFit(toks);
  }

  lemma ProgressStart(toks: seq<string>)
    ensures Progress([], toks, 0) && Commands([]) == [] && LastRedirect([]) == NoRedirect
  {
    hide FirstSegment;
    assert toks[0..] == toks;
    if Segments(toks).Split? {
      assert [] + Segments(toks).segs == Segments(toks).segs;
    }
  }

  lemma DanglingMeansError(toks: seq<string>)
    requires Segments(toks) == NoSplit
    ensures Build(toks) == ParseError
  {
  }

  lemma ProgressEnd(done: seq<Segment>, toks: seq<string>)
    requires Progress(done, toks, |toks|)
    requires done != [] ==> |Commands(done[..|done| - 1])| < MAX_PIPE
    ensures Build(toks) == Parsed(Pipeline(Commands(done), LastRedirect(done)))
  {
    assert toks[|toks|..] == [] && done + [] == done;
  }

  // ---------------------------------------------------------------- what parsing keeps

  function Flatten(cmds: seq<seq<string>>): seq<string> {
    if cmds == [] then [] else Flatten(cmds[..|cmds| - 1]) + cmds[|cmds| - 1]
  }

  /** The tokens without pipes and without redirects and their files. */
  function Words(toks: seq<string>): seq<string> {
    if toks == [] then []
    else if toks[0] == "|" then Words(toks[1..])
    else if IsRedirect(toks[0]) then (if |toks| == 1 then [] else Words(toks[2..]))
    else [toks[0]] + Words(toks[1..])
  }

  /** Reading pairs from the left, the last token is a redirect without a file. */
  predicate EndsInRedirect(toks: seq<string>) {
    if toks == [] then false
    else if IsRedirect(toks[0]) then |toks| == 1 || EndsInRedirect(toks[2..])
    else EndsInRedirect(toks[1..])
  }

  /** The last redirect pair, `before` if there is none. */
  function RedirectIn(toks: seq<string>, before: Redirect): Redirect {
    if toks == [] then before
    else if IsRedirect(toks[0]) then
      (if |toks| == 1 then before else RedirectIn(toks[2..], ToFile(toks[1], toks[0] == ">>")))
    else RedirectIn(toks[1..], before)
  }

  lemma {:induction false} PlainPrefix(toks: seq<string>, n: nat, before: Redirect)
    requires n <= |toks| && forall k :: 0 <= k < n ==> IsPlain(toks[k])
    ensures Words(toks) == toks[..n] + Words(toks[n..])
    ensures RedirectIn(toks, before) == RedirectIn(toks[n..], before)
    ensures EndsInRedirect(toks) == EndsInRedirect(toks[n..])
    decreases n
  {
    if n == 0 {
      assert toks[0..] == toks;
    } else {
      PlainPrefix(toks[1..], n - 1, before);
      assert toks[1..][n - 1..] == toks[n..];
      assert toks[..n] == [toks[0]] + toks[1..][..n - 1];
    }
  }

  /** How the first segment splits off the words. */
  lemma FirstSegmentWords(toks: seq<string>, before: Redirect)
    requires toks != []
    ensures FirstSegment(toks).Dangling? ==> EndsInRedirect(toks)
    ensures FirstSegment(toks).First? ==>
      var f := FirstSegment(toks);
      && Words(toks) == f.seg.argv + Words(toks[f.taken..])
      && EndsInRedirect(toks) == EndsInRedirect(toks[f.taken..])
      && RedirectIn(toks, before) == RedirectIn(toks[f.taken..], if f.seg.end.AtRedirect? then f.seg.end.to else before)
  {
    var n := PlainCount(toks);
    PlainPrefix(toks, n, before);
    var rest := toks[n..];
    if n == |toks| {
      assert toks[..n] == toks;
    } else if toks[n] == "|" {
      assert rest[1..] == toks[n + 1..];
    } else if n + 1 < |toks| {
      assert rest[2..] == toks[n + 2..];
    }
  }

  lemma FlattenSnoc(cmds: seq<seq<string>>, argv: seq<string>)
    ensures Flatten(if argv == [] then cmds else cmds + [argv]) == Flatten(cmds) + argv
  {
    if argv == [] {
      assert Flatten(cmds) + argv == Flatten(cmds);
    } else {
      assert (cmds + [argv])[..|cmds|] == cmds;
    }
  }

  lemma FlattenOne(seg: Segment)
    ensures Flatten(Commands([seg])) == seg.argv && Flatten(Commands([])) == []
  {
    SnocCommands([], seg);
    assert [] + [seg] == [seg];
    FlattenSnoc([], seg.argv);
  }

  lemma {:induction false} FlattenCommands(segs: seq<Segment>, seg: Segment)
    ensures Flatten(Commands([seg] + segs)) == seg.argv + Flatten(Commands(segs))
    decreases |segs|
  {
    hide Commands, Flatten;
    if segs == [] {
      assert [seg] + segs == [seg];
      FlattenOne(seg);
    } else {
      var front, last := segs[..|segs| - 1], segs[|segs| - 1];
      FlattenCommands(front, seg);
      FlattenLast(front, last);
      FlattenLast([seg] + front, last);
      assert segs == front + [last] && [seg] + segs == ([seg] + front) + [last];
      var f := Flatten(Commands(front));
      assert seg.argv + (f + last.argv) == (seg.argv + f) + last.argv;
    }
  }

  lemma FlattenLast(front: seq<Segment>, last: Segment)
    ensures Flatten(Commands(front + [last])) == Flatten(Commands(front)) + last.argv
  {
    hide Commands, Flatten;
    SnocCommands(front, last);
    FlattenSnoc(Commands(front), last.argv);
  }

  lemma {:induction false} SegmentsKeepWords(toks: seq<string>)
    ensures Segments(toks) == NoSplit <==> EndsInRedirect(toks)
    ensures Segments(toks).Split? ==> Flatten(Commands(Segments(toks).segs)) == Words(toks)
    decreases |toks|
  {
    if toks != [] {
      FirstSegmentWords(toks, NoRedirect);
      hide FirstSegment, Words, EndsInRedirect, Commands, Flatten;
      match FirstSegment(toks)
      case Dangling =>
      case First(seg, taken) =>
        SegmentsKeepWords(toks[taken..]);
        if Segments(toks[taken..]).Split? {
          FlattenCommands(Segments(toks[taken..]).segs, seg);
        }
    }
  }

  /** The redirect of the segments, read from the front. */
  lemma {:induction false} SegmentsKeepRedirect(toks: seq<string>, done: seq<Segment>)
    requires Segments(toks).Split?
    ensures LastRedirect(done + Segments(toks).segs) == RedirectIn(toks, LastRedirect(done))
    decreases |toks|
  {
    if toks == [] {
      assert done + [] == done;
    } else {
      FirstSegmentWords(toks, LastRedirect(done));
      SegmentsHead(toks);
      hide FirstSegment, Segments, Words, EndsInRedirect, LastRedirect, RedirectIn;
      var f := FirstSegment(toks);
      SegmentsKeepRedirect(toks[f.taken..], done + [f.seg]);
      SnocCommands(done, f.seg);
      Assoc(done, [f.seg], Segments(toks[f.taken..]).segs);
    }
  }

  lemma {:induction false} CommandsAreNonEmpty(segs: seq<Segment>)
    ensures forall c :: c in Commands(segs) ==> c != []
    decreases |segs|
  {
    if segs != [] {
      CommandsAreNonEmpty(segs[..|segs| - 1]);
    }
  }

  lemma BuildCases(toks: seq<string>)
    ensures Build(toks) == ParseError <==> Segments(toks) == NoSplit || TooLong(Segments(toks).segs, 0)
    ensures Build(toks).Parsed? ==>
      Segments(toks).Split?
      && Build(toks).p == Pipeline(Commands(Segments(toks).segs), LastRedirect(Segments(toks).segs))
  {
    hide Segments, TooLong, Commands, LastRedirect;
  }

  lemma CommandsWithinLimit(segs: seq<Segment>)
    requires !TooLong(segs, 0)
    ensures |Commands(segs)| <= MAX_PIPE
  {
  }

  /** Reading from the left with n commands finished, `open` if the next one already
      has a word: a command would have to begin after the sixteenth. */
  predicate Overfull(toks: seq<string>, n: nat, open: bool) {
    toks != [] &&
    if !open && n >= MAX_PIPE then true
    else if toks[0] == "|" then Overfull(toks[1..], if open then n + 1 else n, false)
    else if IsRedirect(toks[0]) then |toks| > 1 && Overfull(toks[2..], if open then n + 1 else n, false)
    else Overfull(toks[1..], n, true)
  }

  lemma {:induction false} OverfullPlain(toks: seq<string>, k: nat, n: nat, open: bool)
    requires k <= |toks| && (forall i :: 0 <= i < k ==> IsPlain(toks[i])) && (open || n < MAX_PIPE)
    ensures Overfull(toks, n, open) == Overfull(toks[k..], n, open || k > 0)
    decreases k
  {
    if k == 0 {
      assert toks[0..] == toks;
    } else {
      OverfullPlain(toks[1..], k - 1, n, true);
      assert toks[1..][k - 1..] == toks[k..];
    }
  }

  function Count(seg: Segment): nat {
    if seg.argv == [] then 0 else 1
  }

  lemma OverfullFirst(toks: seq<string>, n: nat)
    requires toks != [] && FirstSegment(toks).First? && n < MAX_PIPE
    ensures var f := FirstSegment(toks);
      Overfull(toks, n, false) == Overfull(toks[f.taken..], n + Count(f.seg), false)
  {
    var k := PlainCount(toks);
    OverfullPlain(toks, k, n, false);
    var rest := toks[k..];
    if k == |toks| {
    } else if toks[k] == "|" {
      assert rest[1..] == toks[k + 1..];
    } else {
      assert rest[2..] == toks[k + 2..];
    }
  }

  lemma {:induction false} CountCons(seg: Segment, segs: seq<Segment>)
    ensures |Commands([seg] + segs)| == Count(seg) + |Commands(segs)|
    decreases |segs|
  {
    if segs == [] {
      SnocCommands([], seg);
      assert [seg] + segs == [] + [seg];
    } else {
      var front, last := segs[..|segs| - 1], segs[|segs| - 1];
      hide Commands;
      CountCons(seg, front);
      SnocCommands(front, last);
      SnocCommands([seg] + front, last);
      Assoc([seg], front, [last]);
      assert segs == front + [last];
    }
  }

  lemma SegmentsEmpty(toks: seq<string>)
    ensures Segments(toks) == Split([]) <==> toks == []
  {
    hide FirstSegment;
  }

  lemma TooLongCons(seg: Segment, rest: seq<Segment>, n: nat)
    requires n < MAX_PIPE
    ensures TooLong([seg] + rest, n) == TooLong(rest, n + Count(seg))
  {
    var segs := [seg] + rest;
    hide Count;
    if rest == [] {
      assert segs[..|segs| - 1] == [];
    } else {
      assert segs[..|segs| - 1] == [seg] + rest[..|rest| - 1];
      hide Commands;
      CountCons(seg, rest[..|rest| - 1]);
    }
  }

  lemma {:induction false} OverfullCounts(toks: seq<string>, n: nat)
    requires Segments(toks).Split?
    ensures Overfull(toks, n, false) == TooLong(Segments(toks).segs, n)
    decreases |toks|
  {
    SegmentsEmpty(toks);
    hide FirstSegment, Segments, Count, Commands;
    if toks != [] && n < MAX_PIPE {
      hide Overfull, TooLong;
      SegmentsHead(toks);
      OverfullFirst(toks, n);
      var f := FirstSegment(toks);
      OverfullCounts(toks[f.taken..], n + Count(f.seg));
      TooLongCons(f.seg, Segments(toks[f.taken..]).segs, n);
    }
  }

  /** What a successful parse says about its tokens, and when there is none. */
  lemma BuildKeepsWords(toks: seq<string>)
    ensures Build(toks) == ParseError <==> EndsInRedirect(toks) || Overfull(toks, 0, false)
    ensures Build(toks).Parsed? ==> Build(toks).p.redirect == RedirectIn(toks, NoRedirect)
    ensures Build(toks).Parsed? ==> Flatten(Build(toks).p.cmds) == Words(toks)
    ensures Build(toks).Parsed? ==> forall c :: c in Build(toks).p.cmds ==> c != []
    ensures Build(toks).Parsed? ==> |Build(toks).p.cmds| <= MAX_PIPE
  {
    assert LastRedirect([]) == NoRedirect;
    hide Build, Segments, EndsInRedirect, Words, Flatten, RedirectIn, Commands, LastRedirect, Overfull;
    SegmentsKeepWords(toks);
    BuildCases(toks);
    if Segments(toks).Split? {
      OverfullCounts(toks, 0);
    }
    hide TooLong;
    if Build(toks).Parsed? {
      var segs := Segments(toks).segs;
      CommandsAreNonEmpty(segs);
      CommandsWithinLimit(segs);
      SegmentsKeepRedirect(toks, []);
      assert [] + segs == segs;
    }
  }

  // ---------------------------------------------------------------- words of commands

  lemma {:induction false} WordsArePlain(toks: seq<string>)
    ensures |Words(toks)| <= |toks| && forall w :: w in Words(toks) ==> IsPlain(w) && w in toks
    decreases |toks|
  {
    if toks != [] {
      WordsArePlain(toks[1..]);
      if |toks| > 1 {
        WordsArePlain(toks[2..]);
      }
    }
  }

  lemma {:induction false} FlattenHolds(cmds: seq<seq<string>>, c: seq<string>)
    requires c in cmds
    ensures |c| <= |Flatten(cmds)| && forall w :: w in c ==> w in Flatten(cmds)
    decreases |cmds|
  {
    var front := cmds[..|cmds| - 1];
    if c != cmds[|cmds| - 1] {
      assert cmds == front + [cmds[|cmds| - 1]];
      FlattenHolds(front, c);
    }
  }

  lemma {:induction false} RedirectFileIsToken(toks: seq<string>, before: Redirect)
    ensures var r := RedirectIn(toks, before);
      r == before || (r.ToFile? && r.file in toks)
    decreases |toks|
  {
    if toks != [] {
      if !IsRedirect(toks[0]) {
        RedirectFileIsToken(toks[1..], before);
      } else if |toks| > 1 {
        RedirectFileIsToken(toks[2..], ToFile(toks[1], toks[0] == ">>"));
      }
    }
  }

  /** The words of a command are tokens of the line and no operators, and there are
      no more of them than tokens. */
  lemma CommandWords(toks: seq<string>, c: seq<string>)
    requires Build(toks).Parsed? && c in Build(toks).p.cmds
    ensures |c| <= |toks| && forall w :: w in c ==> IsPlain(w) && w in toks
  {
    hide Build, Words, Flatten, IsPlain, EndsInRedirect, Overfull;
    BuildKeepsWords(toks);
    WordsArePlain(toks);
    FlattenHolds(Build(toks).p.cmds, c);
  }

  lemma CommandsFit(toks: seq<string>)
    ensures Build(toks).Parsed? && |toks| < MAX_TOKS ==> forall c :: c in Build(toks).p.cmds ==> |c| < MAX_TOKS
  {
    hide Build;
    if Build(toks).Parsed? {
      forall c | c in Build(toks).p.cmds ensures |c| <= |toks| {
        CommandWords(toks, c);
      }
    }
  }

  // ---------------------------------------------------------------- the grammar

  /** Prefixing a segment: what is parsed behind it follows, its command comes
      first if it has words, its redirect counts if no later one does. */
  lemma BuildSegment(toks: seq<string>)
    requires toks != [] && Build(toks).Parsed? && FirstSegment(toks).First?
    ensures var f := FirstSegment(toks);
      var rest := Build(toks[f.taken..]);
      && rest.Parsed?
      && Build(toks).p.cmds == Own(f.seg) + rest.p.cmds
      && Build(toks).p.redirect
           == RedirectIn(toks[f.taken..], if f.seg.end.AtRedirect? then f.seg.end.to else NoRedirect)
  {
    var f := FirstSegment(toks);
    BuildCases(toks);
    SegmentsHead(toks);
    FirstSegmentWords(toks, NoRedirect);
    BuildKeepsWords(toks);
    var segs := Segments(toks[f.taken..]).segs;
    CommandsCons(f.seg, segs);
    BuildCases(toks[f.taken..]);
    hide Build, Segments, FirstSegment, Commands, LastRedirect, Words, Flatten, EndsInRedirect, RedirectIn, Overfull, Count;
    FewerBehind(f.seg, segs);
  }

  lemma FewerBehind(seg: Segment, segs: seq<Segment>)
    requires !TooLong([seg] + segs, 0)
    ensures !TooLong(segs, 0)
  {
    hide Commands;
    TooLongCons(seg, segs, 0);
  }

  /** The command a segment makes. */
  function Own(seg: Segment): seq<seq<string>> {
    if seg.argv == [] then [] else [seg.argv]
  }

  lemma SnocOwn(done: seq<Segment>, seg: Segment)
    ensures Commands(done + [seg]) == Commands(done) + Own(seg)
  {
    SnocCommands(done, seg);
    assert Commands(done) + [] == Commands(done);
    hide Commands;
  }

  lemma CommandsOfOne(seg: Segment)
    ensures Commands([seg] + []) == Own(seg) + Commands([])
  {
    SnocOwn([], seg);
    assert [seg] + [] == [] + [seg] && Commands([]) == [] && [] + Own(seg) == Own(seg) + [];
  }

  lemma {:induction false} CommandsCons(seg: Segment, segs: seq<Segment>)
    ensures Commands([seg] + segs) == Own(seg) + Commands(segs)
    decreases |segs|
  {
    hide Commands, Own;
    if segs == [] {
      CommandsOfOne(seg);
    } else {
      var front, last := segs[..|segs| - 1], segs[|segs| - 1];
      assert segs == front + [last];
      CommandsCons(seg, front);
      SnocOwn(front, last);
      SnocOwn([seg] + front, last);
      Assoc([seg], front, [last]);
      Assoc(Own(seg), Commands(front), Own(last));
    }
  }

  // For plain words c, what is parsed from ...

  /** ... just c: one command; */
  lemma BuildWords(c: seq<string>)
    requires c != [] && forall w :: w in c ==> w != "|" && w != ">" && w != ">>"
    ensures Build(c) == Parsed(Pipeline([c], NoRedirect))
  {
    assert c[0..] == c && c[0..|c|] == c && c[|c|..] == [];
    assert forall k :: 0 <= k < |c| ==> c[k] in c;
    FirstSegmentIs(c, 0, |c|);
    assert Segments([]) == Split([]);
    SegmentsUnfold(c, Segment(c, AtEnd), |c|, []);
    assert [Segment(c, AtEnd)] + [] == [Segment(c, AtEnd)];
    SnocCommands([], Segment(c, AtEnd));
    assert [] + [Segment(c, AtEnd)] == [Segment(c, AtEnd)];
    assert !TooLong([Segment(c, AtEnd)], 0);
    hide Segments, FirstSegment, Commands, LastRedirect, TooLong;
    assert [] + [c] == [c];
  }

  /** ... c, a pipe sign and more: c, if there are words, in front of the rest; */
  lemma BuildPipe(c: seq<string>, rest: seq<string>)
    requires forall w :: w in c ==> w != "|" && w != ">" && w != ">>"
    requires Build(c + ["|"] + rest).Parsed?
    ensures Build(rest).Parsed?
    ensures Build(c + ["|"] + rest)
      == Parsed(Pipeline((if c == [] then [] else [c]) + Build(rest).p.cmds, Build(rest).p.redirect))
  {
    var toks := c + ["|"] + rest;
    assert toks[0..] == toks && toks[0..|c|] == c && toks[|c| + 1..] == rest;
    assert forall k :: 0 <= k < |c| ==> toks[k] == c[k] && c[k] in c;
    FirstSegmentIs(toks, 0, |c|);
    hide Build, FirstSegment, EndsInRedirect, Overfull, Words, Flatten, RedirectIn;
    BuildSegment(toks);
    BuildKeepsWords(rest);
  }

  /** ... c, a redirect pair and more: the same, and the file is the output unless
      a later pair names another. Words behind the pair are a new command. */
  lemma BuildRedirect(c: seq<string>, op: string, file: string, rest: seq<string>)
    requires forall w :: w in c ==> w != "|" && w != ">" && w != ">>"
    requires (op == ">" || op == ">>") && Build(c + [op, file] + rest).Parsed?
    ensures Build(rest).Parsed?
    ensures Build(c + [op, file] + rest)
      == Parsed(Pipeline((if c == [] then [] else [c]) + Build(rest).p.cmds,
                         if Build(rest).p.redirect.NoRedirect? then ToFile(file, op == ">>") else Build(rest).p.redirect))
  {
    var toks := c + [op, file] + rest;
    assert toks[0..] == toks && toks[0..|c|] == c && toks[|c| + 2..] == rest && toks[|c|] == op && toks[|c| + 1] == file;
    assert forall k :: 0 <= k < |c| ==> toks[k] == c[k] && c[k] in c;
    FirstSegmentIs(toks, 0, |c|);
    RedirectDefault(rest, ToFile(file, op == ">>"));
    hide Build, FirstSegment, EndsInRedirect, Overfull, Words, Flatten, RedirectIn;
    BuildSegment(toks);
    BuildKeepsWords(rest);
  }

  lemma {:induction false} RedirectDefault(toks: seq<string>, before: Redirect)
    requires before.ToFile?
    ensures var r := RedirectIn(toks, NoRedirect);
      RedirectIn(toks, before) == if r.NoRedirect? then before else r
    decreases |toks|
  {
    if toks != [] {
      if !IsRedirect(toks[0]) {
        RedirectDefault(toks[1..], before);
      } else if |toks| > 1 {
        var here := ToFile(toks[1], toks[0] == ">>");
        RedirectDefault(toks[2..], here);
      }
    }
  }
}
