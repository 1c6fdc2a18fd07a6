/** The pidfile protocol of src/sshsvr.c and `serverctl stop` (src/builtins.c) as a
    state machine whose steps are the system calls that touch shared state. */
module SingleInstance {
  import opened Options

  /** A server that has reached its accept loop. Accepting and Terminating hold the
      listening socket; Closed has closed it and not yet dealt with the pidfile. */
  datatype Phase = Accepting | Terminating | Closed | Removed | Dead
  datatype Server = Server(daemon: bool, phase: Phase)

  /** Where a start is: ensure_single_instance (Check, Saw, Waiting, Clear), then
      the rest of sshsvr_run up to the accept loop. */
  datatype Start =
    | NoStart
    | Check
    | Saw(prev: nat)
    | Waiting(prev: nat)
    | Clear
    | Cleared
    | Forked
    | Named
    | Bound

  datatype Stop = NoStop | StopWaiting(prev: nat) | StopUnlinking

  /** `pid`, `daemon` and `force` belong to the start in progress. `used` are the
      pids handed out so far: none is reused. */
  datatype State = State(pidfile: Option<nat>, servers: map<nat, Server>, used: set<nat>,
                         start: Start, pid: nat, daemon: bool, force: bool, stop: Stop)

  datatype Step =
    | BeginStart(pid: nat, daemon: bool, force: bool)
    | ReadPidfile
    | Probe
    | SeeOldGone
    | GiveUpWaiting
    | ClearPidfile
    | Fork(child: nat)
    | ForkFails
    | WriteEarlyPidfile
    | BindSucceeds
    | BindFails
    | Publish
    | StartDies
    | BeginStop
    | StopSeesOldGone
    | StopGivesUp
    | StopUnlinks
    | Signal(server: nat)
    | Crash(server: nat)
    | CloseListener(server: nat)
    | RemoveOwnPidfile(server: nat)
    | Exit(server: nat)

  predicate Alive(s: State, p: nat) {
    (p in s.servers && s.servers[p].phase != Dead) || (s.start != NoStart && p == s.pid)
  }

  function Terminate(v: Server): Server {
    if v.phase == Accepting then v.(phase := Terminating) else v
  }

  /** SIGTERM to one server. */
  function Signalled(s: State, p: nat): State {
    if p in s.servers then s.(servers := s.servers[p := Terminate(s.servers[p])]) else s
  }

  /** kill_processes_named: SIGTERM to every server. */
  function AllSignalled(s: State): State {
    s.(servers := map p | p in s.servers :: Terminate(s.servers[p]))
  }

  function SetPhase(s: State, p: nat, ph: Phase): State {
    if p in s.servers then s.(servers := s.servers[p := s.servers[p].(phase := ph)]) else s
  }

  predicate HasPhase(s: State, p: nat, ph: Phase) {
    p in s.servers && s.servers[p].phase == ph
  }

  /** One step, if it is possible. One start and one stop at a time, in any overlap. */
  function Apply(s: State, step: Step): Option<State> {
    match step
    case BeginStart(pid, daemon, force) =>
      if s.start == NoStart && pid > 1 && pid !in s.used
      then Some(s.(start := Check, pid := pid, daemon := daemon, force := force, used := s.used + {pid})) else None
    case ReadPidfile =>
      if s.start != Check then None
      else if s.pidfile.Some? then Some(s.(start := Saw(s.pidfile.value)))
      else Some((if s.force then AllSignalled(s) else s).(start := Cleared))
    case Probe =>
      if !s.start.Saw? then None
      else if !Alive(s, s.start.prev) then Some(s.(pidfile := None, start := Cleared))
      else if !s.force then Some(s.(start := NoStart))
      else Some(Signalled(s, s.start.prev).(start := Waiting(s.start.prev)))
    case SeeOldGone =>
      if s.start.Waiting? && !Alive(s, s.start.prev) then Some(s.(start := Clear)) else None
    case GiveUpWaiting =>
      if s.start.Waiting? && Alive(s, s.start.prev) then Some(s.(start := NoStart)) else None
    case ClearPidfile =>
      if s.start == Clear then Some(s.(pidfile := None, start := Cleared)) else None
    case Fork(child) =>
      if s.start == Cleared && s.daemon && child > 1 && child !in s.used
      then Some(s.(start := Forked, pid := child, used := s.used + {child})) else None
    case ForkFails =>
      if s.start == Cleared && s.daemon then Some(s.(start := NoStart)) else None
    case WriteEarlyPidfile =>
      if s.start == Forked then Some(s.(pidfile := Some(s.pid), start := Named)) else None
    case BindSucceeds =>
      if s.start == Named || (s.start == Cleared && !s.daemon) then Some(s.(start := Bound)) else None
    case BindFails =>
      if s.start == Named || (s.start == Cleared && !s.daemon)
      then Some((if s.force then AllSignalled(s) else s)
                .(pidfile := if s.daemon then None else s.pidfile, start := NoStart))
      else None
    case Publish =>
      if s.start == Bound
      then Some(s.(pidfile := Some(s.pid), servers := s.servers[s.pid := Server(s.daemon, Accepting)], start := NoStart))
      else None
    case StartDies =>
      if s.start != NoStart then Some(s.(start := NoStart)) else None
    case BeginStop =>
      if s.stop != NoStop then None
      else if s.pidfile == None || !Alive(s, s.pidfile.value) then Some(s)
      else Some(Signalled(s, s.pidfile.value).(stop := StopWaiting(s.pidfile.value)))
    case StopSeesOldGone =>
      if s.stop.StopWaiting? && !Alive(s, s.stop.prev) then Some(s.(stop := StopUnlinking)) else None
    case StopGivesUp =>
      if s.stop.StopWaiting? && Alive(s, s.stop.prev) then Some(s.(stop := NoStop)) else None
    case StopUnlinks =>
      if s.stop == StopUnlinking then Some(s.(pidfile := None, stop := NoStop)) else None
    case Signal(p) => Some(Signalled(s, p))
    case Crash(p) => Some(SetPhase(s, p, Dead))
    case CloseListener(p) =>
      if HasPhase(s, p, Terminating) then Some(SetPhase(s, p, Closed)) else None
    case RemoveOwnPidfile(p) =>
      if HasPhase(s, p, Closed)
      then Some(SetPhase(s, p, Removed).(pidfile := if s.servers[p].daemon then None else s.pidfile)) else None
    case Exit(p) =>
      if HasPhase(s, p, Removed) then Some(SetPhase(s, p, Dead)) else None
  }

  const INITIAL := State(None, map[], {}, NoStart, 0, false, false, NoStop)

  /** The state after a run, if every step was possible. */
  function RunFrom(s: State, steps: seq<Step>): Option<State>
    decreases |steps|
  {
    if steps == [] then Some(s)
    else match Apply(s, steps[0])
      case None => None
      case Some(t) => RunFrom(t, steps[1..])
  }

  // ---------------------------------------------------------------- the promise

  /** A process with the listening socket open: a server in or leaving its accept
      loop, or a start that has bound. */
  predicate Listening(s: State, p: nat) {
    HasPhase(s, p, Accepting) || HasPhase(s, p, Terminating) || (s.start == Bound && p == s.pid)
  }

  /** At most one listener, and an accepting server is the one the pidfile names. */
  ghost predicate Promise(s: State) {
    && (forall p: nat, q: nat :: Listening(s, p) && Listening(s, q) ==> p == q)
    && (forall p: nat :: HasPhase(s, p, Accepting) ==> s.pidfile == Some(p))
  }

  /** The server still holds the socket, or will still remove the pidfile. */
  predicate Engaged(s: State, p: nat) {
    HasPhase(s, p, Accepting) || HasPhase(s, p, Terminating) || (HasPhase(s, p, Closed) && s.servers[p].daemon)
  }

  /** The unlink of a stop may happen here: the pidfile names no engaged server. */
  predicate MayUnlink(s: State) {
    s.pidfile == None || !Engaged(s, s.pidfile.value)
  }

  /** In the run every unlink of a stop happens where it may. */
  predicate Guarded(s: State, steps: seq<Step>)
    decreases |steps|
  {
    steps != [] && Apply(s, steps[0]).Some? ==>
      (steps[0].StopUnlinks? ==> MayUnlink(s)) && Guarded(Apply(s, steps[0]).value, steps[1..])
  }

  // ---------------------------------------------------------------- the invariant

  ghost predicate NoneEngaged(s: State) {
    forall p: nat :: !Engaged(s, p)
  }

  ghost predicate OnlyEngaged(s: State, prev: nat) {
    forall p: nat :: Engaged(s, p) ==> p == prev
  }

  /** While a server is engaged nobody else touches the pidfile. */
  ghost predicate PidfileNamesEngaged(s: State) {
    forall p: nat :: Engaged(s, p) ==> s.pidfile == Some(p)
  }

  /** What a start under way knows: only the server it saw can be engaged, and past
      that point none is. */
  ghost predicate StartKnows(s: State) {
    && (s.start.Saw? || s.start.Waiting? ==> OnlyEngaged(s, s.start.prev))
    && (s.start == Clear || s.start == Cleared || s.start == Forked || s.start == Named || s.start == Bound ==>
          NoneEngaged(s))
  }

  ghost predicate PidsKnown(s: State) {
    s.servers.Keys <= s.used && (s.start != NoStart ==> s.pid in s.used && s.pid !in s.servers)
  }

  ghost predicate Invariant(s: State) {
    PidfileNamesEngaged(s) && StartKnows(s) && PidsKnown(s)
  }

  /** No step makes a server engaged again, except Publish its own. */
  lemma EngagedOnlyByPublish(s: State, step: Step, p: nat)
    requires Apply(s, step).Some? && Engaged(Apply(s, step).value, p)
    ensures Engaged(s, p) || (step.Publish? && p == s.pid)
  {
  }

  lemma StepKeepsPids(s: State, step: Step)
    requires PidsKnown(s) && Apply(s, step).Some?
    ensures PidsKnown(Apply(s, step).value)
  {
  }

  lemma StepKeepsPidfile(s: State, step: Step)
    requires Invariant(s) && Apply(s, step).Some? && (step.StopUnlinks? ==> MayUnlink(s))
    ensures PidfileNamesEngaged(Apply(s, step).value)
  {
    var t := Apply(s, step).value;
    assert step.RemoveOwnPidfile? && s.servers[step.server].daemon ==> Engaged(s, step.server);
    forall p: nat | Engaged(t, p) ensures t.pidfile == Some(p) {
      EngagedOnlyByPublish(s, step, p);
    }
  }

  lemma StepKeepsKnowledge(s: State, step: Step)
    requires Invariant(s) && Apply(s, step).Some?
    ensures StartKnows(Apply(s, step).value)
  {
    var t := Apply(s, step).value;
    forall p: nat | Engaged(t, p)
      ensures Engaged(s, p) || (step.Publish? && p == s.pid)
    {
      EngagedOnlyByPublish(s, step, p);
    }
  }

  lemma {:induction false} RunKeepsInvariant(s: State, steps: seq<Step>)
    requires Invariant(s) && RunFrom(s, steps).Some? && Guarded(s, steps)
    ensures Invariant(RunFrom(s, steps).value)
    decreases |steps|
  {
    if steps != [] {
      hide Apply, PidfileNamesEngaged, StartKnows, PidsKnown, MayUnlink;
      var t := Apply(s, steps[0]).value;
      StepKeepsPids(s, steps[0]);
      StepKeepsPidfile(s, steps[0]);
      StepKeepsKnowledge(s, steps[0]);
      RunKeepsInvariant(t, steps[1..]);
    }
  }

  lemma InvariantGivesPromise(s: State)
    requires Invariant(s)
    ensures Promise(s)
  {
    assert forall p: nat :: HasPhase(s, p, Accepting) || HasPhase(s, p, Terminating) ==> Engaged(s, p);
  }

  /** In every state of every run, starts and stops overlapping or not, in which no
      stop unlinks the pidfile of an engaged server: across refused and forced
      starts, failed binds, crashes and stops. */
  lemma AtMostOneListener(steps: seq<Step>)
    requires RunFrom(INITIAL, steps).Some? && Guarded(INITIAL, steps)
    ensures Promise(RunFrom(INITIAL, steps).value)
  {
    assert Invariant(INITIAL);
    RunKeepsInvariant(INITIAL, steps);
    hide Apply, RunFrom;
    InvariantGivesPromise(RunFrom(INITIAL, steps).value);
  }

  // ---------------------------------------------------------------- runs

  /** The state a run of possible, guarded steps leads to. */
  ghost predicate Leads(s: State, steps: seq<Step>, t: State) {
    RunFrom(s, steps) == Some(t) && Guarded(s, steps)
  }

  lemma LeadsStep(s: State, step: Step, mid: State, rest: seq<Step>, t: State)
    requires Apply(s, step) == Some(mid) && Leads(mid, rest, t) && (step.StopUnlinks? ==> MayUnlink(s))
    ensures Leads(s, [step] + rest, t)
  {
    hide Apply;
    assert ([step] + rest)[1..] == rest;
  }

  lemma LeadsNowhere(s: State)
    ensures Leads(s, [], s)
  {
  }

  /** Some guarded run leads to a state where the promise is broken. */
  ghost predicate CanBreak(s: State) {
    exists steps, t :: Leads(s, steps, t) && !Promise(t)
  }

  lemma CanBreakNow(s: State)
    requires !Promise(s)
    ensures CanBreak(s)
  {
    LeadsNowhere(s);
  }

  lemma CanBreakStep(s: State, step: Step, t: State)
    requires Apply(s, step) == Some(t) && CanBreak(t) && !step.StopUnlinks?
    ensures CanBreak(s)
  {
    hide Apply, Leads, Promise;
    var rest, u :| Leads(t, rest, u) && !Promise(u);
    LeadsStep(s, step, t, rest, u);
  }

  // ---------------------------------------------------------------- the unlink of a stop

  function Unlinked(s: State): State {
    s.(pidfile := None, stop := NoStop)
  }

  /** A guarded unlink is followed only by states that keep the promise. */
  lemma GuardedUnlinkKeeps(s: State)
    requires Invariant(s) && s.stop == StopUnlinking && MayUnlink(s)
    ensures !CanBreak(Unlinked(s))
  {
    StepKeepsPids(s, StopUnlinks);
    StepKeepsPidfile(s, StopUnlinks);
    StepKeepsKnowledge(s, StopUnlinks);
    assert Apply(s, StopUnlinks) == Some(Unlinked(s));
    hide Apply, Invariant, RunFrom, Promise;
    forall steps, t | Leads(Unlinked(s), steps, t) ensures Promise(t) {
      RunKeepsInvariant(Unlinked(s), steps);
      InvariantGivesPromise(t);
    }
  }

  /** A start that found no pidfile has bound. */
  function BoundStart(s: State, pid: nat): State {
    s.(start := Bound, pid := pid, daemon := false, force := false, used := s.used + {pid})
  }

  lemma StartBinds(s: State, pid: nat)
    requires s.start == NoStart && s.pidfile == None && pid > 1 && pid !in s.used
    requires CanBreak(BoundStart(s, pid))
    ensures CanBreak(s)
  {
    var t := BoundStart(s, pid);
    var s1, s2 := t.(start := Check), t.(start := Cleared);
    assert Apply(s, BeginStart(pid, false, false)) == Some(s1);
    assert Apply(s1, ReadPidfile) == Some(s2);
    assert Apply(s2, BindSucceeds) == Some(t);
    hide Apply, CanBreak;
    CanBreakStep(s2, BindSucceeds, t);
    CanBreakStep(s1, ReadPidfile, s2);
    CanBreakStep(s, BeginStart(pid, false, false), s1);
  }

  /** It binds although another server still listens; the kernel allows that when
      the two were given different ports. */
  lemma UnnamedListenerIsJoined(s: State, p: nat, pid: nat)
    requires s.start == NoStart && s.pidfile == None && HasPhase(s, p, Terminating)
    requires pid > 1 && pid !in s.used && p in s.used
    ensures CanBreak(s)
  {
    var t := BoundStart(s, pid);
    assert Listening(t, p) && Listening(t, pid);
    CanBreakNow(t);
    StartBinds(s, pid);
  }

  /** A daemon that has closed its socket removes the pidfile of its successor. */
  lemma UnnamedDaemonRemoves(s: State, p: nat, pid: nat)
    requires s.start == NoStart && s.pidfile == None && HasPhase(s, p, Closed) && s.servers[p].daemon
    requires pid > 1 && pid !in s.used && p in s.used
    ensures CanBreak(s)
  {
    var s1 := BoundStart(s, pid);
    var s2 := s1.(pidfile := Some(pid), servers := s.servers[pid := Server(false, Accepting)], start := NoStart);
    var t := SetPhase(s2, p, Removed).(pidfile := None);
    assert Apply(s1, Publish) == Some(s2);
    assert Apply(s2, RemoveOwnPidfile(p)) == Some(t);
    assert HasPhase(t, pid, Accepting);
    hide Apply, CanBreak;
    CanBreakNow(t);
    CanBreakStep(s2, RemoveOwnPidfile(p), t);
    CanBreakStep(s1, Publish, s2);
    StartBinds(s, pid);
  }

  lemma UnguardedUnlinkBreaks(s: State, pid: nat)
    requires Invariant(s) && s.stop == StopUnlinking && !MayUnlink(s)
    requires pid > 1 && pid !in s.used
    ensures CanBreak(Unlinked(s))
  {
    var p, t := s.pidfile.value, Unlinked(s);
    if HasPhase(s, p, Accepting) {
      assert HasPhase(t, p, Accepting);
      CanBreakNow(t);
    } else {
      var idle := t.(start := NoStart);
      assert p in s.used;
      if HasPhase(s, p, Terminating) {
        assert HasPhase(idle, p, Terminating);
        UnnamedListenerIsJoined(idle, p, pid);
      } else {
        assert HasPhase(idle, p, Closed);
        UnnamedDaemonRemoves(idle, p, pid);
      }
      if t.start == NoStart {
        assert t == idle;
      } else {
        assert Apply(t, StartDies) == Some(idle);
        CanBreakStep(t, StartDies, idle);
      }
    }
  }

  /** There is always an unused pid. */
  lemma {:induction false} FreshPid(used: set<nat>) returns (pid: nat)
    ensures pid > 1 && forall u :: u in used ==> u < pid
    decreases |used|
  {
    if used == {} {
      pid := 2;
    } else {
      var u :| u in used;
      var rest := FreshPid(used - {u});
      assert forall v :: v in used ==> v == u || v in used - {u};
      pid := if u < rest then rest else u + 1;
    }
  }

  /** The guard is exact: from any state of a guarded run, an unlink keeps the
      promise for good exactly when the pidfile names no engaged server. */
  lemma UnlinkIsSafeIffGuarded(steps: seq<Step>)
    requires RunFrom(INITIAL, steps).Some? && Guarded(INITIAL, steps)
    requires RunFrom(INITIAL, steps).value.stop == StopUnlinking
    ensures var s := RunFrom(INITIAL, steps).value;
      MayUnlink(s) <==> forall rest, t :: Leads(Unlinked(s), rest, t) ==> Promise(t)
  {
    assert Invariant(INITIAL);
    RunKeepsInvariant(INITIAL, steps);
    hide Apply, RunFrom, Invariant, MayUnlink, Promise, Leads;
    var s := RunFrom(INITIAL, steps).value;
    if MayUnlink(s) {
      GuardedUnlinkKeeps(s);
    } else {
      var pid := FreshPid(s.used);
      UnguardedUnlinkBreaks(s, pid);
    }
  }

  // ---------------------------------------------------------------- without overlap

  /** In the run no start begins during a stop and no stop during a start. */
  predicate Apart(s: State, steps: seq<Step>)
    decreases |steps|
  {
    steps != [] && Apply(s, steps[0]).Some? ==>
      && (steps[0].BeginStart? ==> s.stop == NoStop) && (steps[0].BeginStop? ==> s.start == NoStart)
      && Apart(Apply(s, steps[0]).value, steps[1..])
  }

  /** What a stop then knows. */
  ghost predicate StopKnows(s: State) {
    && (s.start == NoStart || s.stop == NoStop)
    && (s.stop.StopWaiting? ==> OnlyEngaged(s, s.stop.prev))
    && (s.stop == StopUnlinking ==> NoneEngaged(s))
  }

  lemma StepKeepsStopKnowledge(s: State, step: Step)
    requires Invariant(s) && StopKnows(s) && Apply(s, step).Some?
    requires (step.BeginStart? ==> s.stop == NoStop) && (step.BeginStop? ==> s.start == NoStart)
    ensures StopKnows(Apply(s, step).value)
  {
    var t := Apply(s, step).value;
    forall p: nat | Engaged(t, p)
      ensures Engaged(s, p) || (step.Publish? && p == s.pid)
    {
      EngagedOnlyByPublish(s, step, p);
    }
  }

  lemma {:induction false} ApartIsGuarded(s: State, steps: seq<Step>)
    requires Invariant(s) && StopKnows(s) && Apart(s, steps)
    ensures Guarded(s, steps)
    decreases |steps|
  {
    if steps != [] && Apply(s, steps[0]).Some? {
      StopsUnlinkNobody(s, steps[0]);
      StepKeepsPids(s, steps[0]);
      StepKeepsPidfile(s, steps[0]);
      StepKeepsKnowledge(s, steps[0]);
      StepKeepsStopKnowledge(s, steps[0]);
      hide Apply, PidfileNamesEngaged, StartKnows, StopKnows, PidsKnown, MayUnlink;
      ApartIsGuarded(Apply(s, steps[0]).value, steps[1..]);
    }
  }

  lemma StopsUnlinkNobody(s: State, step: Step)
    requires StopKnows(s) && Apply(s, step).Some?
    ensures step.StopUnlinks? ==> MayUnlink(s)
  {
  }

  /** Starts and stops one at a time keep the promise. */
  lemma AtMostOneListenerApart(steps: seq<Step>)
    requires RunFrom(INITIAL, steps).Some? && Apart(INITIAL, steps)
    ensures Promise(RunFrom(INITIAL, steps).value)
  {
    assert Invariant(INITIAL) && StopKnows(INITIAL);
    ApartIsGuarded(INITIAL, steps);
    AtMostOneListener(steps);
  }

  // ---------------------------------------------------------------- what starts achieve

  lemma {:induction false} LeadsOn(s: State, first: seq<Step>, mid: State, rest: seq<Step>, t: State)
    requires Leads(s, first, mid) && Leads(mid, rest, t)
    ensures Leads(s, first + rest, t)
    decreases |first|
  {
    if first == [] {
      assert first + rest == rest;
    } else {
      hide Apply, MayUnlink;
      var next := Apply(s, first[0]).value;
      LeadsOn(next, first[1..], mid, rest, t);
      LeadsStep(s, first[0], next, first[1..] + rest, t);
      assert first + rest == [first[0]] + (first[1..] + rest);
    }
  }

  /** A signalled server shuts down in the ordinary way. */
  lemma ShutDown(s: State, p: nat) returns (steps: seq<Step>, t: State)
    requires HasPhase(s, p, Terminating)
    ensures Leads(s, steps, t) && HasPhase(t, p, Dead)
    ensures t == s.(pidfile := t.pidfile, servers := t.servers) && (t.pidfile == None || t.pidfile == s.pidfile)
  {
    var s1 := SetPhase(s, p, Closed);
    var s2 := SetPhase(s1, p, Removed).(pidfile := if s.servers[p].daemon then None else s.pidfile);
    t := SetPhase(s2, p, Dead);
    assert Apply(s, CloseListener(p)) == Some(s1);
    assert Apply(s1, RemoveOwnPidfile(p)) == Some(s2);
    assert Apply(s2, Exit(p)) == Some(t);
    hide Apply, Leads;
    LeadsNowhere(t);
    LeadsStep(s2, Exit(p), t, [], t);
    LeadsStep(s1, RemoveOwnPidfile(p), s2, [Exit(p)] + [], t);
    LeadsStep(s, CloseListener(p), s1, [RemoveOwnPidfile(p)] + ([Exit(p)] + []), t);
    steps := [CloseListener(p)] + ([RemoveOwnPidfile(p)] + ([Exit(p)] + []));
  }

  /** The process that will serve: the start itself, or the child it forks. */
  function ServerOf(s: State, child: nat): nat {
    if s.daemon then child else s.pid
  }

  lemma ForkedStartIsNamed(s: State, child: nat) returns (steps: seq<Step>, t: State)
    requires s.start == Cleared && s.daemon && child > 1 && child !in s.used
    ensures Leads(s, steps, t)
    ensures t == s.(start := Named, pid := child, used := s.used + {child}, pidfile := Some(child))
  {
    var s1 := s.(start := Forked, pid := child, used := s.used + {child});
    t := s1.(pidfile := Some(child), start := Named);
    assert Apply(s, Fork(child)) == Some(s1);
    assert Apply(s1, WriteEarlyPidfile) == Some(t);
    hide Apply, Leads;
    LeadsNowhere(t);
    LeadsStep(s1, WriteEarlyPidfile, t, [], t);
    LeadsStep(s, Fork(child), s1, [WriteEarlyPidfile] + [], t);
    steps := [Fork(child)] + ([WriteEarlyPidfile] + []);
  }

  lemma ReadyStartPublishes(s: State) returns (steps: seq<Step>, t: State)
    requires s.start == Named || (s.start == Cleared && !s.daemon)
    ensures Leads(s, steps, t)
    ensures t == s.(start := NoStart, pidfile := Some(s.pid), servers := s.servers[s.pid := Server(s.daemon, Accepting)])
  {
    var s1 := s.(start := Bound);
    t := s1.(pidfile := Some(s.pid), servers := s.servers[s.pid := Server(s.daemon, Accepting)], start := NoStart);
    assert Apply(s, BindSucceeds) == Some(s1);
    assert Apply(s1, Publish) == Some(t);
    hide Apply, Leads;
    LeadsNowhere(t);
    LeadsStep(s1, Publish, t, [], t);
    LeadsStep(s, BindSucceeds, s1, [Publish] + [], t);
    steps := [BindSucceeds] + ([Publish] + []);
  }

  /** A start past its check can always come up, daemon or not. */
  lemma ClearedStartPublishes(s: State, child: nat) returns (steps: seq<Step>, t: State)
    requires s.start == Cleared && (s.daemon ==> child > 1 && child !in s.used)
    ensures Leads(s, steps, t)
    ensures t.start == NoStart && t.stop == s.stop && t.pidfile == Some(ServerOf(s, child))
    ensures t.servers == s.servers[ServerOf(s, child) := Server(s.daemon, Accepting)]
  {
    hide Apply, Leads;
    if s.daemon {
      var run1, mid := ForkedStartIsNamed(s, child);
      var run2, end := ReadyStartPublishes(mid);
      LeadsOn(s, run1, mid, run2, end);
      steps, t := run1 + run2, end;
    } else {
      steps, t := ReadyStartPublishes(s);
    }
  }

  /** A start under way as process pid. */
  function Starting(s: State, pid: nat, daemon: bool, force: bool, at: Start): State {
    s.(start := at, pid := pid, daemon := daemon, force := force, used := s.used + {pid})
  }

  /** The forced start signals the server it finds and waits for it. */
  lemma ForcedStartSignals(s: State, p: nat, pid: nat, daemon: bool) returns (steps: seq<Step>)
    requires s.start == NoStart && s.pidfile == Some(p) && HasPhase(s, p, Accepting) && pid > 1 && pid !in s.used
    ensures Leads(s, [BeginStart(pid, daemon, true)] + steps, Starting(SetPhase(s, p, Terminating), pid, daemon, true, Waiting(p)))
  {
    var s1 := Starting(s, pid, daemon, true, Check);
    var s2 := s1.(start := Saw(p));
    var t := Starting(SetPhase(s, p, Terminating), pid, daemon, true, Waiting(p));
    assert Apply(s, BeginStart(pid, daemon, true)) == Some(s1);
    assert Apply(s1, ReadPidfile) == Some(s2);
    assert Apply(s2, Probe) == Some(t);
    hide Apply, Leads;
    LeadsNowhere(t);
    LeadsStep(s2, Probe, t, [], t);
    LeadsStep(s1, ReadPidfile, s2, [Probe] + [], t);
    steps := [ReadPidfile] + ([Probe] + []);
    LeadsStep(s, BeginStart(pid, daemon, true), s1, steps, t);
  }

  /** Once that server is dead the start clears the pidfile. */
  lemma WaitingStartClears(s: State, p: nat) returns (steps: seq<Step>)
    requires s.start == Waiting(p) && HasPhase(s, p, Dead) && p != s.pid
    ensures Leads(s, steps, s.(pidfile := None, start := Cleared))
  {
    var s1 := s.(start := Clear);
    var t := s.(pidfile := None, start := Cleared);
    assert Apply(s, SeeOldGone) == Some(s1);
    assert Apply(s1, ClearPidfile) == Some(t);
    hide Apply, Leads;
    LeadsNowhere(t);
    LeadsStep(s1, ClearPidfile, t, [], t);
    LeadsStep(s, SeeOldGone, s1, [ClearPidfile] + [], t);
    steps := [SeeOldGone] + ([ClearPidfile] + []);
  }

  lemma ForcedStartClears(s: State, p: nat, pid: nat, daemon: bool) returns (steps: seq<Step>, t: State)
    requires s.start == NoStart && s.pidfile == Some(p) && HasPhase(s, p, Accepting) && p in s.used
    requires pid > 1 && pid !in s.used
    ensures Leads(s, [BeginStart(pid, daemon, true)] + steps, t)
    ensures t.start == Cleared && t.stop == s.stop && t.pid == pid && t.daemon == daemon && t.used == s.used + {pid}
    ensures HasPhase(t, p, Dead)
  {
    hide Leads, Apply;
    var begin := [BeginStart(pid, daemon, true)];
    var run1 := ForcedStartSignals(s, p, pid, daemon);
    var waiting := Starting(SetPhase(s, p, Terminating), pid, daemon, true, Waiting(p));
    var run2, dead := ShutDown(waiting, p);
    var run3 := WaitingStartClears(dead, p);
    t := dead.(pidfile := None, start := Cleared);
    LeadsOn(s, begin + run1, waiting, run2, dead);
    LeadsOn(s, (begin + run1) + run2, dead, run3, t);
    steps := run1 + run2 + run3;
    assert ((begin + run1) + run2) + run3 == begin + steps;
  }

  /** A forced start replaces the server that is accepting: through the ordinary
      shutdown of the old one the new one, itself or its daemon child, comes to
      accept under its own name. */
  lemma ForcedStartTakesOver(s: State, p: nat, pid: nat, daemon: bool, child: nat)
    returns (steps: seq<Step>, t: State)
    requires Invariant(s) && s.start == NoStart && s.stop == NoStop
    requires s.pidfile == Some(p) && HasPhase(s, p, Accepting)
    requires pid > 1 && pid !in s.used && child > 1 && child !in s.used && child != pid
    ensures Leads(s, [BeginStart(pid, daemon, true)] + steps, t) && t.start == NoStart && t.stop == NoStop
    ensures var server := if daemon then child else pid;
      HasPhase(t, p, Dead) && HasPhase(t, server, Accepting) && t.pidfile == Some(server)
  {
    assert p in s.used;
    hide Leads, Apply, Invariant;
    var begin := [BeginStart(pid, daemon, true)];
    var run1, cleared := ForcedStartClears(s, p, pid, daemon);
    var run2, end := ClearedStartPublishes(cleared, child);
    LeadsOn(s, begin + run1, cleared, run2, end);
    steps, t := run1 + run2, end;
    assert (begin + run1) + run2 == begin + steps;
  }

  /** Without force it is refused: it looks and goes away. */
  lemma UnforcedStartIsRefused(s: State, p: nat, pid: nat, daemon: bool)
    requires s.start == NoStart && s.pidfile == Some(p) && HasPhase(s, p, Accepting) && pid > 1 && pid !in s.used
    ensures Leads(s, [BeginStart(pid, daemon, false)] + ([ReadPidfile] + ([Probe] + [])),
                  Starting(s, pid, daemon, false, NoStart))
    ensures var t := Starting(s, pid, daemon, false, NoStart);
      t.servers == s.servers && t.pidfile == s.pidfile
  {
    var s1 := Starting(s, pid, daemon, false, Check);
    var s2, t := s1.(start := Saw(p)), s1.(start := NoStart);
    assert Apply(s, BeginStart(pid, daemon, false)) == Some(s1);
    assert Apply(s1, ReadPidfile) == Some(s2);
    assert Apply(s2, Probe) == Some(t);
    hide Apply, Leads;
    LeadsNowhere(t);
    LeadsStep(s2, Probe, t, [], t);
    LeadsStep(s1, ReadPidfile, s2, [Probe] + [], t);
    LeadsStep(s, BeginStart(pid, daemon, false), s1, [ReadPidfile] + ([Probe] + []), t);
  }

  /** A forced start that finds no pidfile, or cannot bind, signals every server that
      is accepting; an unforced one signals none. A daemon that cannot bind takes
      its early pidfile away again. */
  lemma StragglersAreSignalled(s: State, step: Step, p: nat)
    requires (step == ReadPidfile && s.start == Check && s.pidfile == None)
      || (step == BindFails && (s.start == Named || (s.start == Cleared && !s.daemon)))
    ensures Apply(s, step).Some?
    ensures var t := Apply(s, step).value;
      && (HasPhase(s, p, Accepting) ==> HasPhase(t, p, if s.force then Terminating else Accepting))
      && (step == BindFails ==> t.start == NoStart && t.pidfile == if s.daemon then None else s.pidfile)
      && (step == ReadPidfile ==> t.start == Cleared && t.pidfile == None)
  {
  }

  /** Operations that give up leave servers and pidfile alone. */
  lemma GivingUpChangesNothing(s: State, step: Step)
    requires step == GiveUpWaiting || step == ForkFails || step == StartDies || step == StopGivesUp
    requires Apply(s, step).Some?
    ensures var t := Apply(s, step).value;
      t.servers == s.servers && t.pidfile == s.pidfile && if step == StopGivesUp then t.stop == NoStop else t.start == NoStart
  {
  }

  /** A stop signals the server the pidfile names, and no other, if it is alive. */
  lemma StopSignalsNamed(s: State, p: nat)
    requires s.stop == NoStop && p in s.servers && s.servers[p].phase == Accepting
    ensures Apply(s, BeginStop).Some?
    ensures var t := Apply(s, BeginStop).value;
      && t.pidfile == s.pidfile
      && HasPhase(t, p, if s.pidfile == Some(p) then Terminating else Accepting)
      && (s.pidfile == Some(p) ==> t.stop == StopWaiting(p))
  {
  }

  // ---------------------------------------------------------------- the guard can fail

  /** From scratch a first server comes up. */
  lemma FirstServer(pid: nat) returns (steps: seq<Step>, t: State)
    requires pid > 1
    ensures Leads(INITIAL, steps, t) && t.start == NoStart && t.stop == NoStop
    ensures t.pidfile == Some(pid) && t.used == {pid} && HasPhase(t, pid, Accepting)
  {
    var s1 := BoundStart(INITIAL, pid).(start := Check);
    var s2, s3 := s1.(start := Cleared), s1.(start := Bound);
    t := s3.(pidfile := Some(pid), servers := map[pid := Server(false, Accepting)], start := NoStart);
    assert Apply(INITIAL, BeginStart(pid, false, false)) == Some(s1);
    assert Apply(s1, ReadPidfile) == Some(s2);
    assert Apply(s2, BindSucceeds) == Some(s3);
    assert Apply(s3, Publish) == Some(t);
    hide Apply, Leads;
    LeadsNowhere(t);
    LeadsStep(s3, Publish, t, [], t);
    LeadsStep(s2, BindSucceeds, s3, [Publish] + [], t);
    LeadsStep(s1, ReadPidfile, s2, [BindSucceeds] + ([Publish] + []), t);
    steps := [BeginStart(pid, false, false)] + ([ReadPidfile] + ([BindSucceeds] + ([Publish] + [])));
    LeadsStep(INITIAL, BeginStart(pid, false, false), s1, [ReadPidfile] + ([BindSucceeds] + ([Publish] + [])), t);
  }

  /** A stop has seen its server die and is about to unlink the pidfile. */
  ghost predicate PendingUnlink(s: State) {
    && s.start == NoStart && s.stop == StopUnlinking
    && (s.pidfile.Some? ==> s.pidfile.value in s.used && !Alive(s, s.pidfile.value))
  }

  /** Every stop of a running server can come to a pending unlink. */
  lemma StopReachesPendingUnlink(s: State, p: nat) returns (steps: seq<Step>, t: State)
    requires s.start == NoStart && s.stop == NoStop && s.pidfile == Some(p) && p in s.used
    requires HasPhase(s, p, Accepting)
    ensures Leads(s, steps, t) && PendingUnlink(t) && t.used == s.used
  {
    var s1 := Signalled(s, p).(stop := StopWaiting(p));
    assert Apply(s, BeginStop) == Some(s1) && HasPhase(s1, p, Terminating);
    var down, s2 := ShutDown(s1, p);
    t := s2.(stop := StopUnlinking);
    assert Apply(s2, StopSeesOldGone) == Some(t) && PendingUnlink(t);
    hide Apply, PendingUnlink, Leads;
    LeadsNowhere(t);
    LeadsStep(s2, StopSeesOldGone, t, [], t);
    LeadsOn(s1, down, s2, [StopSeesOldGone] + [], t);
    LeadsStep(s, BeginStop, s1, down + ([StopSeesOldGone] + []), t);
    steps := [BeginStop] + (down + ([StopSeesOldGone] + []));
  }

  /** The unlink is about to take the name of a server that is accepting. */
  ghost predicate UnlinkTakesName(s: State, p: nat) {
    s.stop == StopUnlinking && !MayUnlink(s) && HasPhase(s, p, Accepting) && !Promise(Unlinked(s))
  }

  /** A start past its check publishes itself and comes to that. */
  lemma ClearedStartIsNamed(s: State) returns (steps: seq<Step>, t: State)
    requires s.start == Cleared && !s.daemon && s.stop == StopUnlinking
    ensures Leads(s, steps, t) && UnlinkTakesName(t, s.pid)
  {
    steps, t := ClearedStartPublishes(s, s.pid);
    assert HasPhase(t, s.pid, Accepting) && HasPhase(Unlinked(t), s.pid, Accepting);
  }

  /** So does one that begins while the unlink is pending, whether the old pidfile
      is still there or not. */
  lemma StartDuringStopIsUnnamed(s: State, pid: nat) returns (steps: seq<Step>, t: State)
    requires PendingUnlink(s) && pid > 1 && pid !in s.used
    ensures Leads(s, steps, t) && UnlinkTakesName(t, pid)
  {
    var s1 := BoundStart(s, pid).(start := Check);
    var s3 := s1.(pidfile := None, start := Cleared);
    assert Apply(s, BeginStart(pid, false, false)) == Some(s1);
    var rest, u := ClearedStartIsNamed(s3);
    if s.pidfile == None {
      assert Apply(s1, ReadPidfile) == Some(s3);
      hide Apply, Leads;
      LeadsStep(s1, ReadPidfile, s3, rest, u);
    } else {
      var s2 := s1.(start := Saw(s.pidfile.value));
      assert Apply(s1, ReadPidfile) == Some(s2);
      assert Apply(s2, Probe) == Some(s3);
      hide Apply, Leads;
      LeadsStep(s2, Probe, s3, rest, u);
      rest := [Probe] + rest;
      LeadsStep(s1, ReadPidfile, s2, rest, u);
    }
    hide Apply, Leads;
    LeadsStep(s, BeginStart(pid, false, false), s1, [ReadPidfile] + rest, u);
    steps, t := [BeginStart(pid, false, false)] + ([ReadPidfile] + rest), u;
  }

  /** One whole run: a server starts, a stop takes it down, a second one starts, and
      the unlink of the stop breaks the promise. */
  lemma OverlapBreaksPromise(first: nat, second: nat)
    requires 1 < first && 1 < second && first != second
    ensures exists steps, t :: Leads(INITIAL, steps, t) && UnlinkTakesName(t, second)
  {
    hide Apply, Leads, PendingUnlink, UnlinkTakesName;
    var run1, up := FirstServer(first);
    var run2, pending := StopReachesPendingUnlink(up, first);
    var run3, t := StartDuringStopIsUnnamed(pending, second);
    LeadsOn(INITIAL, run1, up, run2, pending);
    LeadsOn(INITIAL, run1 + run2, pending, run3, t);
  }
}
