/** The command functions behind the modelled operations (src/builtins.c): what
    they do with their arguments and the values they return to the session. */
module Commands {
  import opened Words
  import opened FileTree
  import opened Options
  import Transfer
  import SessionLoop

  /** Where the kernel looks a name up. */
  type Lookup = string -> Path

  predicate IsRecursive(argv: seq<string>) {
    |argv| >= 2 && argv[1] == "-r"
  }

  /** No argument from `first` on names p or a directory above it. */
  ghost predicate Unnamed(p: Path, argv: seq<string>, first: nat, end: nat, at: Lookup) {
    forall i :: first <= i < end && i < |argv| ==> !AtOrBelow(p, at(argv[i]))
  }

  /** Nothing was added, and what no argument names is still there. */
  ghost predicate OnlyRemoves(before: Nodes, after: Nodes, argv: seq<string>, first: nat, end: nat, at: Lookup) {
    && (forall p :: p in after ==> p in before && after[p] == before[p])
    && (forall p :: p in before && Unnamed(p, argv, first, end, at) ==> p in after)
  }

  lemma RemovesNext(start: Nodes, mid: Nodes, now: Nodes, argv: seq<string>, first: nat, i: nat, at: Lookup)
    requires first <= i < |argv| && OnlyRemoves(start, mid, argv, first, i, at)
    requires forall p :: p in now ==> p in mid && now[p] == mid[p]
    requires SameOutside(mid, now, at(argv[i]))
    ensures OnlyRemoves(start, now, argv, first, i + 1, at)
  {
    forall p | p in start && Unnamed(p, argv, first, i + 1, at) ensures p in now {
      assert Unnamed(p, argv, first, i, at) && !AtOrBelow(p, at(argv[i]));
    }
  }

  /** With -r anything but the root can be removed, else files. */
  predicate CanRemove(nodes: Nodes, recursive: bool, path: Path) {
    path in nodes && path != [] && (recursive || nodes[path].File?)
  }

  /** What could be removed of arguments first to end - 1 is gone. */
  ghost predicate Removed(before: Nodes, after: Nodes, argv: seq<string>, first: nat, end: nat, at: Lookup) {
    forall i :: first <= i < end && i < |argv| && CanRemove(before, IsRecursive(argv), at(argv[i])) ==>
      at(argv[i]) !in after
  }

  lemma RemovedNothing(nodes: Nodes, argv: seq<string>, first: nat, end: nat, at: Lookup)
    requires end <= first
    ensures Removed(nodes, nodes, argv, first, end, at) && OnlyRemoves(nodes, nodes, argv, first, end, at)
  {
  }

  lemma RemovedNext(start: Nodes, mid: Nodes, now: Nodes, argv: seq<string>, first: nat, i: nat, at: Lookup, ok: bool)
    requires first <= i < |argv| && Removed(start, mid, argv, first, i, at)
    requires OnlyRemoves(start, mid, argv, first, i, at) && forall p :: p in now ==> p in mid
    requires ok ==> now == Without(mid, at(argv[i]))
    requires CanRemove(mid, IsRecursive(argv), at(argv[i])) ==> ok
    ensures Removed(start, now, argv, first, i + 1, at)
  {
  }

  /** rm: it goes on after a failed removal and returns 0 even so. When nothing
      fails, everything named is gone. */
  method CmdRm(fs: FileSystem, w: World, argv: seq<string>, at: Lookup) returns (rc: int)
    requires WellFormed(fs.nodes)
    modifies fs
    ensures WellFormed(fs.nodes)
    ensures OnlyRemoves(old(fs.nodes), fs.nodes, argv, if IsRecursive(argv) then 2 else 1, |argv|, at)
    ensures rc == (if |argv| < 2 then -1 else 0) && SessionLoop.MayReturn("rm", rc)
    ensures w.clean && w.unread == {} ==>
      Removed(old(fs.nodes), fs.nodes, argv, if IsRecursive(argv) then 2 else 1, |argv|, at)
  {
    hide Removed, OnlyRemoves, WellFormed, SameOutside, Without, CanRemove, Unnamed;
    if |argv| < 2 {
      RemovedNothing(fs.nodes, argv, 1, |argv|, at);
      return -1;
    }
    var i := if IsRecursive(argv) then 2 else 1;
    RemovedNothing(fs.nodes, argv, i, i, at);
    ghost var first := i;
    while i < |argv|
      invariant first <= i <= |argv| && WellFormed(fs.nodes)
      invariant OnlyRemoves(old(fs.nodes), fs.nodes, argv, first, i, at)
      invariant w.clean && w.unread == {} ==> Removed(old(fs.nodes), fs.nodes, argv, first, i, at)
    {
      ghost var mid := fs.nodes;
      var ok := Remove(fs, w, IsRecursive(argv), at(argv[i]));
      if w.clean && w.unread == {} {
        RemovedNext(old(fs.nodes), mid, fs.nodes, argv, first, i, at, ok);
      }
      RemovesNext(old(fs.nodes), mid, fs.nodes, argv, first, i, at);
      i := i + 1;
    }
    return 0;
  }

  method Remove(fs: FileSystem, w: World, recursive: bool, path: Path) returns (ok: bool)
    requires WellFormed(fs.nodes)
    modifies fs
    ensures WellFormed(fs.nodes) && SameOutside(old(fs.nodes), fs.nodes, path)
    ensures forall p :: p in fs.nodes ==> p in old(fs.nodes) && fs.nodes[p] == old(fs.nodes)[p]
    ensures ok ==> path in old(fs.nodes) && fs.nodes == Without(old(fs.nodes), path)
    ensures w.clean && w.unread == {} && CanRemove(old(fs.nodes), recursive, path) ==> ok
  {
    if recursive {
      ok := fs.RecurseRm(w, path);
    } else {
      ok := fs.Unlink(w, path);
    }
  }

  /** The source and destination of a well-formed cp. */
  predicate CpArguments(argv: seq<string>) {
    |argv| >= 3 && |argv| - (if IsRecursive(argv) then 2 else 1) == 2
  }

  /** cp: only the destination is touched; a failed copy returns 0 as well. When
      nothing fails, the copy is there. */
  method CmdCp(fs: FileSystem, w: World, argv: seq<string>, at: Lookup) returns (rc: int)
    requires WellFormed(fs.nodes)
    requires CpArguments(argv) && IsRecursive(argv) ==> Apart(at(argv[2]), at(argv[3]))
    modifies fs
    ensures WellFormed(fs.nodes)
    ensures CpArguments(argv) ==> SameOutside(old(fs.nodes), fs.nodes, at(argv[|argv| - 1]))
    ensures !CpArguments(argv) ==> fs.nodes == old(fs.nodes)
    ensures rc == (if CpArguments(argv) then 0 else -1) && SessionLoop.MayReturn("cp", rc)
    ensures w.clean && |argv| == 3 && argv[1] != "-r" ==>
      var src, dst := at(argv[1]), at(argv[2]);
      src in old(fs.nodes) && old(fs.nodes)[src].File? && src != dst && CanWrite(old(fs.nodes), dst) ==>
        fs.nodes == old(fs.nodes)[dst := old(fs.nodes)[src]]
    ensures w.clean && w.unread == {} && |argv| == 4 && argv[1] == "-r" ==>
      var src, dst := at(argv[2]), at(argv[3]);
      src in old(fs.nodes) && CanCopyFiles(w, old(fs.nodes), src, dst) ==>
        && AllFiles(old(fs.nodes), fs.nodes, src, dst) && KeepsOthers(old(fs.nodes), fs.nodes, src, dst)
        && (dst !in old(fs.nodes) ==> OnlyCopies(old(fs.nodes), fs.nodes, src, dst))
  {
    hide WellFormed, CanWrite, CanCopyFiles, OnlyCopies, AllFiles, AllNodes, KeepsOthers, Denies, SkipsUnread;
    if !CpArguments(argv) {
      return -1;
    }
    ghost var start := fs.nodes;
    if IsRecursive(argv) {
      var _, _, _ := fs.RecurseCp(w, at(argv[2]), at(argv[3]));
    } else {
      var ok := fs.CopyFile(w, at(argv[1]), at(argv[2]));
      assert ok && at(argv[1]) != at(argv[2]) ==> fs.nodes == start[at(argv[2]) := start[at(argv[1])]];
    }
    return 0;
  }

  /** put: -1 only if the destination cannot be opened; a bad line or a failed
      write ends the transfer with 0. */
  method CmdPut(fs: FileSystem, w: World, argv: seq<string>, at: Lookup, input: seq<string>) returns (rc: int)
    requires WellFormed(fs.nodes)
    requires forall r :: r in input ==> 1 <= |r| <= Transfer.PUT_READ
    modifies fs
    ensures WellFormed(fs.nodes)
    ensures rc == -1 ==> fs.nodes == old(fs.nodes)
    ensures rc == 0 ==> |argv| == 2 && exists file ::
      file <= Transfer.Stored(input) && fs.nodes == old(fs.nodes)[at(argv[1]) := File(file)]
    ensures w.clean && |argv| == 2 && CanWrite(old(fs.nodes), at(argv[1])) ==>
      rc == 0 && fs.nodes == old(fs.nodes)[at(argv[1]) := File(Transfer.Stored(input))]
    ensures SessionLoop.MayReturn("put", rc)
  {
    hide WellFormed;
    var failed: bool := *;
    if |argv| != 2 || !CanWrite(fs.nodes, at(argv[1])) || (failed && !w.clean) {
      return -1;
    }
    var file, _ := Transfer.CmdPut(w.clean, input);
    PutFile(fs.nodes, at(argv[1]), file);
    fs.nodes := fs.nodes[at(argv[1]) := File(file)];
    return 0;
  }

  /** get: what is sent for a file is received as its contents, or as a part of
      them with the same return value when a read failed (`cut`). A directory opens
      and has nothing to read. */
  method CmdGet(fs: FileSystem, w: World, argv: seq<string>, at: Lookup)
    returns (rc: int, sent: string, ghost cut: bool)
    ensures rc == -1 ==> sent == ""
    ensures rc == 0 ==> |argv| == 2 && at(argv[1]) in fs.nodes
    ensures rc == 0 ==>
      var data := if fs.nodes[at(argv[1])].File? then fs.nodes[at(argv[1])].data else [];
      Transfer.Receive(sent).Some? && Transfer.Receive(sent).value <= data
      && (Transfer.Receive(sent).value == data <==> !cut)
    ensures w.clean && |argv| == 2 && at(argv[1]) in fs.nodes ==> rc == 0 && !cut
    ensures SessionLoop.MayReturn("get", rc)
  {
    rc, sent, cut := -1, "", false;
    var failed: bool := *;
    if |argv| != 2 || at(argv[1]) !in fs.nodes || (failed && !w.clean) {
      return;
    }
    rc := 0;
    var node := fs.nodes[at(argv[1])];
    ghost var chunks: seq<seq<byte>>;
    sent, chunks, cut := Transfer.CmdGet(w.clean, if node.File? then node.data else []);
  }

  // ---------------------------------------------------------------- serverctl

  /** 1: not running. -1: kill failed or the server outlived the wait. */
  method ServerctlStop(clean: bool, pidfile: Option<nat>) returns (rc: int)
    ensures pidfile == None <==> rc == 1
    ensures -1 <= rc <= 1 && (clean ==> rc != -1)
  {
    if pidfile == None {
      return 1;
    }
    var failed: bool := *;
    return if failed && !clean then -1 else 0; // kill or the wait failed
  }

  /** 1: already running and not forced. -1: fork failed. */
  method ServerctlStart(clean: bool, pidfile: Option<nat>, alive: bool, force: bool) returns (rc: int)
    ensures rc == 1 <==> pidfile.Some? && alive && !force
    ensures -1 <= rc <= 1 && (clean ==> rc != -1)
  {
    if pidfile.Some? && alive && !force {
      return 1;
    }
    var failed: bool := *;
    return if failed && !clean then -1 else 0; // fork failed
  }

  /** `clean` says that no kill, wait or fork fails. A restart starts whatever the
      stop returned. */
  method CmdServerctl(clean: bool, argv: seq<string>, pidfile: Option<nat>, alive: bool) returns (rc: int)
    ensures |argv| < 2 || argv[1] !in ["stop", "start", "restart", "status"] ==> rc == -1
    ensures |argv| >= 2 && argv[1] == "status" ==> rc == (if pidfile == None then 1 else if alive then 0 else 2)
    ensures |argv| >= 2 && argv[1] == "stop" ==> (rc == 1 <==> pidfile == None) && (clean ==> rc != -1)
    ensures |argv| >= 2 && argv[1] == "start" ==>
      (rc == 1 <==> pidfile.Some? && alive && "--force" !in argv[2..]) && (clean ==> rc != -1)
    ensures |argv| >= 2 && argv[1] == "restart" ==> (clean ==> rc == 0)
    ensures SessionLoop.MayReturn("serverctl", rc)
  {
    if |argv| < 2 {
      return -1;
    }
    var force := "--force" in argv[2..];
    if argv[1] == "stop" {
      rc := ServerctlStop(clean, pidfile);
    } else if argv[1] == "start" {
      rc := ServerctlStart(clean, pidfile, alive, force);
    } else if argv[1] == "restart" {
      var stopped := ServerctlStop(clean, pidfile);
      var left := if stopped == 0 then None else pidfile;
      var still: bool := *;
      rc := ServerctlStart(clean, left, still, force);
    } else if argv[1] == "status" {
      rc := if pidfile == None then 1 else if alive then 0 else 2;
    } else {
      rc := -1;
    }
  }
}
