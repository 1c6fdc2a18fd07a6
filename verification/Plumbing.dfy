/** execute_pipeline: pipes, forked children and their descriptor tables. Every
    pipe, fork and open may fail. */
module Plumbing {
  import opened Options
  import opened Words
  import opened Pipelines

  /** What a descriptor refers to. Pipe k is the k-th one made by this call;
      descriptors open before the call are Session ones. */
  datatype Desc = Session(id: nat) | PipeRead(k: nat) | PipeWrite(k: nat) | FileDesc(file: string, append: bool)
  type Table = map<int, Desc>
  type Pipe = (int, int)

  /** A child that was not forked, or has exited, holds nothing. */
  datatype Child = Gone | Running(table: Table)

  /** The table of the session process before the call. */
  ghost predicate IsSession(base: Table) {
    && 0 in base && 1 in base && 2 in base
    && forall d :: d in base ==> base[d].Session?
  }

  // ---------------------------------------------------------------- pipes

  /** The descriptors of the first n pipes. */
  function Fds(pipes: seq<Pipe>, n: nat): set<int>
    requires n <= |pipes|
  {
    if n == 0 then {} else Fds(pipes, n - 1) + {pipes[n - 1].0, pipes[n - 1].1}
  }

  lemma {:induction false} FdsMember(pipes: seq<Pipe>, n: nat, k: nat)
    requires k < n <= |pipes|
    ensures pipes[k].0 in Fds(pipes, n) && pipes[k].1 in Fds(pipes, n)
  {
    if k < n - 1 {
      FdsMember(pipes, n - 1, k);
    }
  }

  lemma {:induction false} FdsPrefix(pipes: seq<Pipe>, p: Pipe, n: nat)
    requires n <= |pipes|
    ensures Fds(pipes + [p], n) == Fds(pipes, n)
  {
    if n > 0 {
      FdsPrefix(pipes, p, n - 1);
    }
  }

  /** `t` is `base` with the pipes ok on descriptors base did not use. */
  ghost predicate HasPipes(t: Table, base: Table, pipes: seq<Pipe>) {
    && base.Keys !! Fds(pipes, |pipes|)
    && t.Keys == base.Keys + Fds(pipes, |pipes|)
    && (forall d :: d in base ==> t[d] == base[d])
    && forall k :: 0 <= k < |pipes| ==> EndsAt(t, pipes[k], k)
  }

  ghost predicate EndsAt(t: Table, p: Pipe, k: nat) {
    p.0 in t && p.1 in t && t[p.0] == PipeRead(k) && t[p.1] == PipeWrite(k)
  }

  /** Opening one more pipe on two unused descriptors. */
  lemma HasPipesSnoc(t: Table, base: Table, pipes: seq<Pipe>, p: Pipe)
    requires HasPipes(t, base, pipes) && p.0 !in t && p.1 !in t && p.0 != p.1
    ensures HasPipes(t[p.0 := PipeRead(|pipes|)][p.1 := PipeWrite(|pipes|)], base, pipes + [p])
  {
    var n := |pipes|;
    var t' := t[p.0 := PipeRead(n)][p.1 := PipeWrite(n)];
    FdsPrefix(pipes, p, n);
    forall k | 0 <= k < n + 1 ensures EndsAt(t', (pipes + [p])[k], k) {
      if k < n {
        assert EndsAt(t, pipes[k], k);
      }
    }
  }

  lemma ClosedPipesLeaveBase(t: Table, base: Table, pipes: seq<Pipe>)
    requires base.Keys !! Fds(pipes, |pipes|) && t.Keys == base.Keys + Fds(pipes, |pipes|)
    requires forall d :: d in base ==> t[d] == base[d]
    ensures t - Fds(pipes, |pipes|) == base
  {
    var u := t - Fds(pipes, |pipes|);
    assert u.Keys == base.Keys;
    forall d | d in base ensures u[d] == base[d] {
    }
  }

  // ---------------------------------------------------------------- one child

  /** The table child i of n should end with: its input from pipe i-1, its output
      to pipe i or, for the last child, to the redirect; everything else as in
      the session. */
  function Wired(base: Table, i: nat, n: nat, r: Redirect): Table
    requires 0 in base && 1 in base
  {
    base[0 := if i > 0 then PipeRead(i - 1) else base[0]]
        [1 := if i + 1 < n then PipeWrite(i) else if r.ToFile? then FileDesc(r.file, r.append) else base[1]]
  }

  method ClosePipes(t: Table, pipes: seq<Pipe>) returns (t': Table)
    ensures t' == t - Fds(pipes, |pipes|)
  {
    t' := t;
    var k := 0;
    while k < |pipes|
      invariant 0 <= k <= |pipes|
      invariant t' == t - Fds(pipes, k)
    {
      t' := t' - {pipes[k].0};
      t' := t' - {pipes[k].1};
      k := k + 1;
    }
  }

  lemma {:induction false} SomeDescriptorIsFree(used: set<int>)
    ensures exists fd: int :: fd !in used && forall d :: d in used ==> d < fd
    decreases |used|
  {
    if d :| d in used {
      SomeDescriptorIsFree(used - {d});
      var fd :| fd !in used - {d} && forall e :: e in used - {d} ==> e < fd;
      var top := if fd <= d then d + 1 else fd;
      assert forall e :: e in used ==> e == d || e in used - {d};
      assert top !in used;
    } else {
      assert 0 !in used;
    }
  }

  /** Any descriptor not in use. */
  method NewDescriptor(t: Table) returns (fd: int)
    ensures fd !in t
  {
    fd := *;
    if fd in t {
      SomeDescriptorIsFree(t.Keys);
      assert exists d: int :: d !in t;
      fd :| fd !in t;
    }
  }

  method NewPipe(t: Table) returns (p: Pipe)
    ensures p.0 !in t && p.1 !in t && p.0 != p.1
  {
    var p0 := NewDescriptor(t);
    var p1 := NewDescriptor(t[p0 := PipeRead(0)]);
    p := (p0, p1);
  }

  /** open, dup2 onto 1, close. */
  method RedirectOutput(t: Table, r: Redirect, opens: bool) returns (ok: bool, t': Table)
    requires 1 in t && r.ToFile?
    ensures ok == opens
    ensures ok ==> t' == t[1 := FileDesc(r.file, r.append)]
  {
    if !opens {
      return false, t;
    }
    t' := t;
    var fd := NewDescriptor(t);
    t' := t'[fd := FileDesc(r.file, r.append)];
    t' := t'[1 := t'[fd]];
    t' := t' - {fd};
    return true, t';
  }

  lemma ClosedChildIsWired(t: Table, parent: Table, pipes: seq<Pipe>, i: nat, n: nat, r: Redirect, base: Table)
    requires IsSession(base) && HasPipes(parent, base, pipes) && t.Keys == parent.Keys
    requires t[0] == if i > 0 then PipeRead(i - 1) else parent[0]
    requires t[1] == if i + 1 < n then PipeWrite(i) else if r.ToFile? then FileDesc(r.file, r.append) else parent[1]
    requires forall d :: d in parent && d != 0 && d != 1 ==> t[d] == parent[d]
    ensures t - Fds(pipes, |pipes|) == Wired(base, i, n, r)
  {
    var w := Wired(base, i, n, r);
    assert w.Keys == base.Keys;
    forall d | d in w ensures t[d] == w[d] {
    }
    ClosedPipesLeaveBase(t, w, pipes);
  }

  /** The child's code between fork and running its command. */
  method SetUpChild(parent: Table, pipes: seq<Pipe>, i: nat, n: nat, r: Redirect, opens: bool, ghost base: Table)
    returns (c: Child)
    requires i < n && |pipes| == n - 1 && IsSession(base) && HasPipes(parent, base, pipes)
    ensures c == Gone || c == Running(Wired(base, i, n, r))
    ensures c == Gone <==> i + 1 == n && r.ToFile? && !opens
  {
    hide Wired, Fds;
    var t := parent;
    if i > 0 {
      assert EndsAt(parent, pipes[i - 1], i - 1);
      t := t[0 := t[pipes[i - 1].0]];
    }
    if i < n - 1 {
      FdsMember(pipes, |pipes|, i);
      assert EndsAt(parent, pipes[i], i) && pipes[i].1 != 0;
      t := t[1 := t[pipes[i].1]];
    } else if r.ToFile? {
      var ok: bool;
      ok, t := RedirectOutput(t, r, opens);
      if !ok {
        return Gone; // the child exits with 1
      }
    }
    ClosedChildIsWired(t, parent, pipes, i, n, r, base);
    t := ClosePipes(t, pipes);
    return Running(t);
  }

  // ---------------------------------------------------------------- the call

  /** The processes after the call. */
  datatype System = System(parent: Table, children: seq<Child>)

  /** Every child that runs is wired as it should be, and the parent is back to
      the table it had. */
  ghost predicate Plumbed(s: System, base: Table, n: nat, r: Redirect)
    requires 0 in base && 1 in base
  {
    && s.parent == base && |s.children| == n
    && forall i :: 0 <= i < n ==> s.children[i] == Gone || s.children[i] == Running(Wired(base, i, n, r))
  }

  /** What the system lets happen: how many calls of pipe succeed, which forks do,
      and whether the redirect file opens. */
  datatype Luck = Luck(pipes: nat, forks: seq<bool>, opens: bool)

  predicate ChildRuns(luck: Luck, i: nat, n: nat, r: Redirect)
    requires i < |luck.forks|
  {
    luck.forks[i] && (i + 1 == n && r.ToFile? ==> luck.opens)
  }

  class Shell {
    var parent: Table
    var children: seq<Child>

    /** The pipe and fork part of execute_pipeline for n commands. */
    method ExecutePipeline(n: nat, r: Redirect, luck: Luck) returns (ok: bool, ghost pipes: seq<Pipe>)
      requires 1 <= n && IsSession(parent) && |luck.forks| == n
      modifies this
      ensures ok <==> n - 1 <= luck.pipes
      ensures ok ==> Plumbed(System(parent, children), old(parent), n, r)
      // every child whose fork and open succeed is there
      ensures ok ==> forall i :: 0 <= i < n ==> (children[i].Running? <==> ChildRuns(luck, i, n, r))
      // a failing pipe() returns at once: the pipes made so far stay open
      ensures !ok ==> children == [] && |pipes| == luck.pipes && HasPipes(parent, old(parent), pipes)
    {
      hide Wired, HasPipes, Fds;
      ghost var base := parent;
      children := [];
      var made: seq<Pipe> := [];
      pipes := [];
      NoPipesYet(parent);
      while |made| < n - 1
        invariant |made| <= n - 1 && |made| <= luck.pipes && pipes == made && children == []
        invariant HasPipes(parent, base, made)
      {
        if |made| == luck.pipes {
          return false, pipes;
        }
        var p := NewPipe(parent);
        HasPipesSnoc(parent, base, made, p);
        parent := parent[p.0 := PipeRead(|made|)][p.1 := PipeWrite(|made|)];
        made := made + [p];
        pipes := made;
      }
      var i := 0;
      while i < n
        invariant 0 <= i <= n && |children| == i
        invariant HasPipes(parent, base, made)
        invariant forall j :: 0 <= j < i ==> children[j] == Gone || children[j] == Running(Wired(base, j, n, r))
        invariant forall j :: 0 <= j < i ==> (children[j].Running? <==> ChildRuns(luck, j, n, r))
      {
        var c := Gone;
        if luck.forks[i] {
          c := SetUpChild(parent, made, i, n, r, luck.opens, base);
        }
        children := children + [c];
        i := i + 1;
      }
      PipesOverBase(parent, base, made);
      ClosedPipesLeaveBase(parent, base, made);
      parent := ClosePipes(parent, made);
      ok := true;
    }
  }

  lemma NoPipesYet(base: Table)
    ensures HasPipes(base, base, [])
  {
  }

  lemma PipesOverBase(t: Table, base: Table, pipes: seq<Pipe>)
    requires HasPipes(t, base, pipes)
    ensures base.Keys !! Fds(pipes, |pipes|) && t.Keys == base.Keys + Fds(pipes, |pipes|)
    ensures forall d :: d in base ==> t[d] == base[d]
  {
  }

  /** A failed pipe() leaves the session's table unchanged exactly when it was the
      first one. */
  lemma FailedPipeLeaksIffNotFirst(t: Table, base: Table, pipes: seq<Pipe>)
    requires HasPipes(t, base, pipes)
    ensures t == base <==> pipes == []
  {
    if pipes == [] {
      ClosedPipesLeaveBase(t, base, pipes);
      assert t - Fds(pipes, 0) == t;
    } else {
      FdsMember(pipes, |pipes|, 0);
    }
  }

  // ---------------------------------------------------------------- end of file

  ghost predicate Holds(t: Table, fd: int, d: Desc) {
    fd in t && t[fd] == d
  }

  /** Some process still has the write end of pipe k open. */
  ghost predicate WriteEndOpen(s: System, k: nat) {
    || (exists fd :: Holds(s.parent, fd, PipeWrite(k)))
    || (exists i, fd :: 0 <= i < |s.children| && s.children[i].Running? && Holds(s.children[i].table, fd, PipeWrite(k)))
  }

  /** The write end of pipe k is held as descriptor 1 of child k and nowhere else;
      its read end as descriptor 0 of child k+1 and nowhere else. */
  lemma PipeEndsAreExclusive(s: System, base: Table, n: nat, r: Redirect, k: nat)
    requires IsSession(base) && Plumbed(s, base, n, r) && k + 1 < n
    ensures forall fd :: !Holds(s.parent, fd, PipeWrite(k)) && !Holds(s.parent, fd, PipeRead(k))
    ensures forall i, fd :: 0 <= i < n && s.children[i].Running? ==>
              (Holds(s.children[i].table, fd, PipeWrite(k)) <==> i == k && fd == 1)
    ensures forall i, fd :: 0 <= i < n && s.children[i].Running? ==>
              (Holds(s.children[i].table, fd, PipeRead(k)) <==> i == k + 1 && fd == 0)
  {
    forall i, fd | 0 <= i < n && s.children[i].Running?
      ensures Holds(s.children[i].table, fd, PipeWrite(k)) <==> i == k && fd == 1
      ensures Holds(s.children[i].table, fd, PipeRead(k)) <==> i == k + 1 && fd == 0
    {
      assert s.children[i].table == Wired(base, i, n, r);
    }
  }

  /** The table of a running child, descriptor by descriptor. */
  lemma ChildTable(s: System, base: Table, n: nat, r: Redirect, i: nat)
    requires IsSession(base) && Plumbed(s, base, n, r) && i < n && s.children[i].Running?
    ensures var t := s.children[i].table;
      && t.Keys == base.Keys && (forall d :: d in base && d != 0 && d != 1 ==> t[d] == base[d])
      && t[0] == (if i == 0 then base[0] else PipeRead(i - 1))
      && (i + 1 < n ==> t[1] == PipeWrite(i))
      && (i + 1 == n ==> t[1] == match r case NoRedirect => base[1] case ToFile(file, append) => FileDesc(file, append))
  {
    assert s.children[i].table == Wired(base, i, n, r);
  }

  /** The output of the last command: the redirect if there is one, else what the
      session writes to. Its input and every other descriptor are as stated. */
  lemma LastChildOutput(s: System, base: Table, n: nat, r: Redirect)
    requires IsSession(base) && 1 <= n && Plumbed(s, base, n, r) && s.children[n - 1].Running?
    ensures Holds(s.children[n - 1].table, 1, if r.ToFile? then FileDesc(r.file, r.append) else base[1])
  {
    assert s.children[n - 1].table == Wired(base, n - 1, n, r);
  }

  function ExitChild(s: System, i: nat): System {
    if i < |s.children| then s.(children := s.children[i := Gone]) else s
  }

  /** The system after the children in `order` have exited, one after another. */
  function AfterExits(s: System, order: seq<nat>): System {
    if order == [] then s
    else ExitChild(AfterExits(s, order[..|order| - 1]), order[|order| - 1])
  }

  lemma {:induction false} ExitsKeepPlumbing(s: System, base: Table, n: nat, r: Redirect, order: seq<nat>)
    requires IsSession(base) && Plumbed(s, base, n, r)
    ensures var t := AfterExits(s, order);
      Plumbed(t, base, n, r)
      && forall i :: 0 <= i < n ==> (t.children[i].Running? <==> s.children[i].Running? && i !in order)
    decreases |order|
  {
    if order != [] {
      var m := |order| - 1;
      assert order == order[..m] + [order[m]];
      ExitsKeepPlumbing(s, base, n, r, order[..m]);
    }
  }

  /** End of file always propagates: once the children have set up their tables,
      in every state of every run, whichever forks failed and in whatever order
      children have exited, the reader of pipe k is at end of file exactly when
      child k is not running. */
  lemma EndOfFilePropagates(s: System, base: Table, n: nat, r: Redirect, order: seq<nat>, k: nat)
    requires IsSession(base) && Plumbed(s, base, n, r) && k + 1 < n
    ensures WriteEndOpen(AfterExits(s, order), k) <==> s.children[k].Running? && k !in order
  {
    ExitsKeepPlumbing(s, base, n, r, order);
    var t := AfterExits(s, order);
    PipeEndsAreExclusive(t, base, n, r, k);
    if t.children[k].Running? {
      assert Holds(t.children[k].table, 1, PipeWrite(k));
    }
  }

  // ---------------------------------------------------------------- waiting

  datatype Status = Exited(code: byte) | Signalled

  /** The code of the last status that is an exit, 0 if none is. */
  function LastExit(statuses: seq<Status>): byte {
    if statuses == [] then 0
    else
      var s := statuses[|statuses| - 1];
      if s.Exited? then s.code else LastExit(statuses[..|statuses| - 1])
  }

  /** What the calls of wait reaped; a call that fails, as it does when forks failed
      and no child is left, reaps nothing. */
  function Reaped(waits: seq<Option<Status>>): seq<Status> {
    if waits == [] then []
    else
      var w := waits[|waits| - 1];
      Reaped(waits[..|waits| - 1]) + (if w.Some? then [w.value] else [])
  }

  /** The statuses the loop judges: a failing first wait leaves the variable as it
      was declared, a later one repeats a status already judged. */
  function Judged(waits: seq<Option<Status>>, garbage: Status): seq<Status> {
    (if waits != [] && waits[0] == None then [garbage] else []) + Reaped(waits)
  }

  lemma ReapedSnoc(waits: seq<Option<Status>>, w: Option<Status>)
    ensures Reaped(waits + [w]) == Reaped(waits) + (if w.Some? then [w.value] else [])
  {
    assert (waits + [w])[..|waits|] == waits;
  }

  lemma JudgedSnoc(waits: seq<Option<Status>>, garbage: Status, w: Option<Status>)
    ensures w.Some? ==> Judged(waits + [w], garbage) == Judged(waits, garbage) + [w.value]
    ensures w == None && waits != [] ==> Judged(waits + [w], garbage) == Judged(waits, garbage)
    ensures w == None && waits == [] ==> Judged(waits + [w], garbage) == [garbage]
  {
    ReapedSnoc(waits, w);
    if waits == [] {
      assert Reaped(waits) == [];
      hide Reaped;
      assert (waits + [w])[0] == w;
    } else {
      hide Reaped;
      assert (waits + [w])[0] == waits[0];
      var first := if waits[0] == None then [garbage] else [];
      if w.Some? {
        Assoc(first, Reaped(waits), [w.value]);
      }
    }
  }

  lemma LastExitSnoc(statuses: seq<Status>, s: Status)
    ensures LastExit(statuses + [s]) == if s.Exited? then s.code else LastExit(statuses)
  {
    assert (statuses + [s])[..|statuses|] == statuses;
  }

  /** The waiting loop, with the value `status` happens to have before the first
      wait. */
  method WaitAll(waits: seq<Option<Status>>, garbage: Status) returns (exitcode: byte)
    ensures exitcode == LastExit(Judged(waits, garbage))
  {
    exitcode := 0;
    var status := garbage;
    var i := 0;
    assert waits[..0] == [] && Judged([], garbage) == [];
    hide LastExit, Judged;
    LastExitNothing();
    while i < |waits|
      invariant 0 <= i <= |waits| && exitcode == LastExit(Judged(waits[..i], garbage))
      invariant i == 0 ==> status == garbage
      invariant i > 0 ==> EndsIn(Judged(waits[..i], garbage), status)
    {
      assert waits[..i + 1] == waits[..i] + [waits[i]];
      ghost var judged := Judged(waits[..i], garbage);
      JudgedSnoc(waits[..i], garbage, waits[i]);
      if waits[i].Some? {
        status := waits[i].value;
        LastExitSnoc(judged, status);
      } else if i == 0 {
        LastExitSnoc([], garbage);
        assert [] + [garbage] == [garbage];
      } else {
        EndJudgedAgain(judged, status);
      }
      if status.Exited? {
        exitcode := status.code;
      }
      i := i + 1;
    }
    assert waits[..i] == waits;
  }

  predicate EndsIn(statuses: seq<Status>, s: Status) {
    statuses != [] && statuses[|statuses| - 1] == s
  }

  lemma LastExitNothing()
    ensures LastExit([]) == 0
  {
  }

  lemma EndJudgedAgain(statuses: seq<Status>, s: Status)
    requires EndsIn(statuses, s)
    ensures s.Exited? ==> LastExit(statuses) == s.code
  {
  }

  lemma {:induction false} LastExitBehind(s: Status, more: seq<Status>)
    ensures LastExit([s] + more)
      == if exists t :: t in more && t.Exited? then LastExit(more) else if s.Exited? then s.code else 0
    decreases |more|
  {
    if more == [] {
      assert [s] + more == [] + [s];
      LastExitSnoc([], s);
    } else {
      var front, last := more[..|more| - 1], more[|more| - 1];
      assert more == front + [last] && [s] + more == ([s] + front) + [last];
      LastExitBehind(s, front);
      LastExitSnoc(front, last);
      LastExitSnoc([s] + front, last);
      assert last in more;
      assert forall t :: t in more <==> t in front || t == last;
    }
  }

  /** The code of the last reaped child that exited, wherever waits failed. */
  lemma {:induction false} ExitCodeIs(waits: seq<Option<Status>>, garbage: Status, i: nat)
    requires i < |waits| && waits[i].Some? && waits[i].value.Exited?
    requires forall k :: i < k < |waits| && waits[k].Some? ==> !waits[k].value.Exited?
    ensures LastExit(Judged(waits, garbage)) == waits[i].value.code
    decreases |waits|
  {
    hide LastExit, Judged;
    var n := |waits| - 1;
    var front := waits[..n];
    assert waits == front + [waits[n]];
    JudgedSnoc(front, garbage, waits[n]);
    if waits[n].Some? {
      LastExitSnoc(Judged(front, garbage), waits[n].value);
    }
    if i < n {
      ExitCodeIs(front, garbage, i);
    }
  }

  /** The result depends on the undefined value exactly when the first wait failed
      and no child that was reaped had exited, so whenever every fork failed. */
  lemma ExitCodeUndefinedIff(waits: seq<Option<Status>>)
    ensures (exists g, h :: LastExit(Judged(waits, g)) != LastExit(Judged(waits, h)))
      <==> waits != [] && waits[0] == None && forall s :: s in Reaped(waits) ==> !s.Exited?
  {
    hide LastExit, Reaped;
    var more := Reaped(waits);
    LastExitBehind(Exited(0), more);
    LastExitBehind(Exited(1), more);
    if waits != [] && waits[0] == None && forall s :: s in more ==> !s.Exited? {
      assert LastExit(Judged(waits, Exited(0))) != LastExit(Judged(waits, Exited(1)));
    } else if waits != [] && waits[0] == None {
      forall g: Status ensures LastExit(Judged(waits, g)) == LastExit(more) {
        LastExitBehind(g, more);
      }
    } else {
      assert forall g :: Judged(waits, g) == more;
    }
  }
}
