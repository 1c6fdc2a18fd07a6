/** Recursive copy and remove (src/builtins.c) over a file system of regular
    files and directories. Every system call may fail. */
module FileTree {
  import opened Words

  type Path = seq<string>
  datatype Node = Dir | File(data: seq<byte>)
  type Nodes = map<Path, Node>

  function Parent(p: Path): Path
    requires p != []
  {
    p[..|p| - 1]
  }

  /** Every node but the root lies in a directory. */
  ghost predicate WellFormed(nodes: Nodes) {
    forall p :: p in nodes && p != [] ==> Parent(p) in nodes && nodes[Parent(p)].Dir?
  }

  /** `p` is `q` or lies below it. */
  predicate AtOrBelow(p: Path, q: Path) {
    q <= p
  }

  function Subtree(nodes: Nodes, path: Path): set<Path> {
    set p | p in nodes && AtOrBelow(p, path)
  }

  function Without(nodes: Nodes, path: Path): Nodes {
    map p | p in nodes && !AtOrBelow(p, path) :: nodes[p]
  }

  function Children(nodes: Nodes, path: Path): set<string> {
    set p | p in nodes && |p| == |path| + 1 && AtOrBelow(p, path) :: p[|path|]
  }

  lemma ChildIsListed(nodes: Nodes, path: Path, c: string)
    ensures c in Children(nodes, path) <==> path + [c] in nodes
  {
    if path + [c] in nodes {
      assert (path + [c])[|path|] == c;
    }
    if c in Children(nodes, path) {
      var p :| p in nodes && |p| == |path| + 1 && AtOrBelow(p, path) && p[|path|] == c;
      assert p == path + [c];
    }
  }

  /** In a well-formed tree a node below `path` goes through one of its entries. */
  lemma {:induction false} BelowGoesThroughChild(nodes: Nodes, path: Path, p: Path)
    requires WellFormed(nodes) && p in nodes && AtOrBelow(p, path) && p != path
    ensures path + [p[|path|]] in nodes && AtOrBelow(p, path + [p[|path|]])
    decreases |p|
  {
    if |p| == |path| + 1 {
      assert p == path + [p[|path|]];
    } else {
      BelowGoesThroughChild(nodes, path, Parent(p));
    }
  }

  lemma {:induction false} AbsentHasNothingBelow(nodes: Nodes, path: Path, p: Path)
    requires WellFormed(nodes) && path !in nodes && AtOrBelow(p, path)
    ensures p !in nodes
    decreases |p|
  {
    if p != path {
      AbsentHasNothingBelow(nodes, path, Parent(p));
    }
  }

  lemma SmallerSubtree(small: Nodes, big: Nodes, path: Path, c: string)
    requires path in big && Subtree(small, path) <= Subtree(big, path)
    ensures |Subtree(small, path + [c])| < |Subtree(big, path)|
  {
    var a, b := Subtree(small, path + [c]), Subtree(big, path);
    assert a <= b - {path} by {
      forall p | p in a ensures p in b - {path} {
        assert p in Subtree(small, path);
      }
    }
    SubsetSize(a, b - {path});
  }

  lemma {:induction false} SubsetSize<T>(a: set<T>, b: set<T>)
    requires a <= b
    ensures |a| <= |b|
    decreases |a|
  {
    if a != {} {
      var x :| x in a;
      SubsetSize(a - {x}, b - {x});
    }
  }

  // ---------------------------------------------------------------- copies

  /** Where `p`, at or below `from`, goes when `from` is moved to `to`. */
  function Rebase(p: Path, from: Path, to: Path): Path
    requires AtOrBelow(p, from)
  {
    to + p[|from|..]
  }

  lemma RebaseChild(p: Path, from: Path, to: Path, c: string)
    requires AtOrBelow(p, from + [c])
    ensures AtOrBelow(p, from) && Rebase(p, from + [c], to + [c]) == Rebase(p, from, to)
    ensures Rebase(p, from, to) != to && Rebase(p, from, to)[|to|] == c && p[|from|] == c
    ensures AtOrBelow(Rebase(p, from, to), to + [c])
  {
    assert p[|from|..] == [c] + p[|from| + 1..];
    assert (to + p[|from|..])[..|to| + 1] == to + [c];
  }

  lemma RebaseInverse(p: Path, from: Path, to: Path)
    requires AtOrBelow(p, from)
    ensures AtOrBelow(Rebase(p, from, to), to) && Rebase(Rebase(p, from, to), to, from) == p
  {
  }

  /** Neither path lies at or below the other. */
  predicate Apart(a: Path, b: Path) {
    !AtOrBelow(a, b) && !AtOrBelow(b, a)
  }

  lemma ApartBelow(a: Path, b: Path, p: Path)
    requires Apart(a, b) && AtOrBelow(p, a)
    ensures !AtOrBelow(p, b)
  {
  }

  /** Equal everywhere but at and below `path`. */
  ghost predicate SameOutside(a: Nodes, b: Nodes, path: Path) {
    forall p :: !AtOrBelow(p, path) ==> (p in a <==> p in b) && (p in a ==> a[p] == b[p])
  }

  /** Everything at or below dst is a faithful copy ... */
  ghost predicate OnlyCopies(before: Nodes, after: Nodes, src: Path, dst: Path) {
    forall p :: p in after && AtOrBelow(p, dst) ==>
      Rebase(p, dst, src) in before && after[p] == before[Rebase(p, dst, src)]
  }

  /** ... every file at or below src has its copy ... */
  ghost predicate AllFiles(before: Nodes, after: Nodes, src: Path, dst: Path) {
    forall q :: q in before && AtOrBelow(q, src) && before[q].File? ==>
      Rebase(q, src, dst) in after && after[Rebase(q, src, dst)] == before[q]
  }

  /** What was at or below dst and is no copy of anything at or below src stays. */
  ghost predicate KeepsOthers(before: Nodes, after: Nodes, src: Path, dst: Path) {
    forall p :: AtOrBelow(p, dst) && Rebase(p, dst, src) !in before ==> SameAt(before, after, p)
  }

  ghost predicate SameAt(a: Nodes, b: Nodes, p: Path) {
    (p in a <==> p in b) && (p in a ==> a[p] == b[p])
  }

  /** ... and so has every directory. */
  ghost predicate AllNodes(before: Nodes, after: Nodes, src: Path, dst: Path) {
    forall q :: q in before && AtOrBelow(q, src) ==> Rebase(q, src, dst) in after
  }

  /** With all three the two subtrees are equal, path by path. */
  lemma FullCopyIsEqual(before: Nodes, after: Nodes, src: Path, dst: Path, p: Path)
    requires OnlyCopies(before, after, src, dst) && AllNodes(before, after, src, dst) && AtOrBelow(p, dst)
    ensures p in after <==> Rebase(p, dst, src) in before
    ensures p in after ==> after[p] == before[Rebase(p, dst, src)]
  {
    RebaseInverse(p, dst, src);
  }

  /** A path the traversal has dealt with: the top, or below a finished entry. */
  predicate Entered(p: Path, top: Path, done: set<string>)
    requires AtOrBelow(p, top)
  {
    p == top || p[|top|] in done
  }

  /** The copy of the directory src once its entries `done` are copied. */
  ghost predicate CopyState(start: Nodes, now: Nodes, src: Path, dst: Path, done: set<string>) {
    forall p :: p in now && AtOrBelow(p, dst) ==>
      Entered(p, dst, done) && Rebase(p, dst, src) in start && now[p] == start[Rebase(p, dst, src)]
  }

  ghost predicate FilesCopied(start: Nodes, now: Nodes, src: Path, dst: Path, done: set<string>) {
    forall q :: q in start && AtOrBelow(q, src) && Entered(q, src, done) && start[q].File? ==>
      Rebase(q, src, dst) in now && now[Rebase(q, src, dst)] == start[q]
  }

  /** Entries of dst whose turn has not come are as they were. */
  ghost predicate Untouched(start: Nodes, now: Nodes, dst: Path, done: set<string>) {
    forall p :: AtOrBelow(p, dst) && !Entered(p, dst, done) ==> SameAt(start, now, p)
  }

  ghost predicate Complete(start: Nodes, now: Nodes, src: Path, dst: Path, done: set<string>) {
    forall q :: q in start && AtOrBelow(q, src) && Entered(q, src, done) ==> Rebase(q, src, dst) in now
  }

  // ---------------------------------------------------------------- what can fail

  /** How the system behaves during a copy: mkdir fails at the denied paths, readdir
      fails at once in the unread directories, and any other call may fail too
      unless the world is clean. */
  datatype World = World(clean: bool, denied: set<Path>, unread: set<Path>)

  /** No directory has appeared at a denied path. */
  ghost predicate Denies(w: World, before: Nodes, after: Nodes) {
    forall p :: p in w.denied && p in after && after[p].Dir? ==> p in before && before[p].Dir?
  }

  /** Nothing in an unread directory has been copied. */
  ghost predicate SkipsUnread(w: World, now: Nodes, src: Path, dst: Path) {
    forall q :: AtOrBelow(q, src) && q != src && Parent(q) in w.unread ==> Rebase(q, src, dst) !in now
  }

  ghost predicate FileBelow(nodes: Nodes, q: Path, f: Path) {
    f in nodes && AtOrBelow(f, q) && nodes[f].File?
  }

  ghost predicate HoldsFile(nodes: Nodes, q: Path) {
    exists f :: FileBelow(nodes, q, f)
  }

  /** Every file at or below src can be given its copy: there is a directory for
      dst, nothing but a file stands in its place, and the directories on the way
      to it are there or mkdir is not denied for them. */
  ghost predicate CanCopyFiles(w: World, nodes: Nodes, src: Path, dst: Path) {
    forall f :: FileBelow(nodes, src, f) ==>
      && dst != [] && Parent(dst) in nodes && nodes[Parent(dst)].Dir?
      && (Rebase(f, src, dst) in nodes ==> nodes[Rebase(f, src, dst)].File?)
      && forall d :: AtOrBelow(d, src) && AtOrBelow(f, d) && d != f ==> CanEnter(w, nodes, Rebase(d, src, dst))
  }

  predicate CanEnter(w: World, nodes: Nodes, path: Path) {
    if path in nodes then nodes[path].Dir? else path !in w.denied
  }

  class FileSystem {
    var nodes: Nodes

    // -------------------------------------------------------------- rm

    /** recurse_rm: removes nothing but what is at or below `path`, whatever
        fails, and on success exactly that. */
    method RecurseRm(w: World, path: Path) returns (ok: bool)
      requires WellFormed(nodes)
      modifies this
      ensures WellFormed(nodes)
      ensures SameOutside(old(nodes), nodes, path)
      ensures forall p :: p in nodes ==> p in old(nodes) && nodes[p] == old(nodes)[p]
      ensures ok ==> path in old(nodes) && nodes == Without(old(nodes), path)
      ensures w.clean && w.unread == {} && path in old(nodes) && path != [] ==> ok
      decreases |Subtree(nodes, path)|
    {
      hide WellFormed, SameOutside, Subtree, Children, Without;
      var failed: bool := *;
      SameOutsideRefl(nodes, path);
      if path !in nodes || (failed && !w.clean) { // lstat
        return false;
      }
      if nodes[path].File? {
        ok := Unlink(w, path);
        WithoutKeepsOutside(old(nodes), path);
        return;
      }
      failed := *;
      if failed && !w.clean {
        return false; // opendir failed
      }
      var names := Children(nodes, path);
      var ended := path in w.unread;
      ghost var start := nodes;
      forall c ensures path + [c] in start <==> c in names {
        ChildIsListed(start, path, c);
      }
      while names != {} && !ended
        invariant WellFormed(nodes) && path in nodes && nodes[path].Dir?
        invariant SameOutside(start, nodes, path)
        invariant forall p :: p in nodes ==> p in start && nodes[p] == start[p]
        invariant forall c :: path + [c] in nodes <==> c in names
        invariant w.clean && w.unread == {} ==> !ended
        decreases names
      {
        var c :| c in names;
        SubtreeShrinks(nodes, start, path);
        SmallerSubtree(nodes, start, path, c);
        ghost var mid := nodes;
        ok := RecurseRm(w, path + [c]);
        SameOutsideStep(start, mid, nodes, path, c);
        ParentKept(mid, nodes, path, c);
        if !ok {
          return false;
        }
        SiblingsKept(mid, nodes, path, c);
        names := names - {c};
        failed := *;
        ended := failed && !w.clean; // a failing readdir looks like the end
      }
      forall c ensures path + [c] in nodes <==> c in Children(nodes, path) {
        ChildIsListed(nodes, path, c);
      }
      failed := *;
      if path == [] || Children(nodes, path) != {} || (failed && !w.clean) {
        return false; // rmdir refuses a directory with entries, and the root
      }
      EmptyDirectory(nodes, path);
      RemoveLast(old(nodes), nodes, path);
      WithoutKeepsOutside(old(nodes), path);
      nodes := nodes - {path};
      ok := true;
    }

    /** unlink, which refuses directories. */
    method Unlink(w: World, path: Path) returns (ok: bool)
      requires WellFormed(nodes)
      modifies this
      ensures WellFormed(nodes)
      ensures ok ==> path in old(nodes) && old(nodes)[path].File? && nodes == Without(old(nodes), path)
      ensures !ok ==> nodes == old(nodes)
      ensures w.clean && path in old(nodes) && old(nodes)[path].File? ==> ok
    {
      var failed: bool := *;
      if path !in nodes || nodes[path].Dir? || (failed && !w.clean) {
        return false;
      }
      FileHasNothingBelow(nodes, path);
      RemoveLast(nodes, nodes, path);
      nodes := nodes - {path};
      ok := true;
    }

    // -------------------------------------------------------------- cp

    /** copy_file: opens the source, creates or truncates the destination, then
        copies in reads of up to 8192 bytes. Copying a file onto itself empties it. */
    method CopyFile(w: World, src: Path, dst: Path) returns (ok: bool)
      requires WellFormed(nodes)
      modifies this
      ensures WellFormed(nodes)
      ensures forall p :: p != dst ==> (p in nodes <==> p in old(nodes)) && (p in nodes ==> nodes[p] == old(nodes)[p])
      ensures dst in nodes && nodes[dst].Dir? ==> dst in old(nodes) && old(nodes)[dst].Dir?
      ensures dst in old(nodes) ==> dst in nodes
      ensures ok ==> src in old(nodes) && old(nodes)[src].File?
      ensures ok ==> dst in nodes && nodes[dst] == File(if src == dst then [] else old(nodes)[src].data)
      ensures w.clean && src in old(nodes) && old(nodes)[src].File? && CanWrite(old(nodes), dst) ==> ok
    {
      hide WellFormed;
      if src !in nodes {
        return false;
      }
      var failed: bool := *;
      if failed && !w.clean {
        return false; // open of the source failed
      }
      if !CanWrite(nodes, dst) {
        return false;
      }
      failed := *;
      if failed && !w.clean {
        return false; // open of the destination failed
      }
      ghost var start := nodes;
      PutFile(start, dst, []);
      nodes := nodes[dst := File([])];
      if nodes[src].Dir? {
        return false; // reading a directory fails
      }
      var data := nodes[src].data;
      var pos := 0;
      assert data[..0] == [];
      while pos < |data|
        invariant 0 <= pos <= |data|
        invariant nodes == start[dst := File(data[..pos])] && WellFormed(nodes)
      {
        var r: int := *;
        if !(1 <= r <= 8192 && pos + r <= |data|) {
          if !w.clean {
            return false; // read failed
          }
          r := 1;
        }
        failed := *;
        if failed && !w.clean {
          return false; // write failed
        }
        assert data[..pos] + data[pos..pos + r] == data[..pos + r];
        PutFile(start, dst, data[..pos + r]);
        nodes := nodes[dst := File(nodes[dst].data + data[pos..pos + r])];
        assert nodes == start[dst := File(data[..pos + r])];
        pos := pos + r;
      }
      assert data[..pos] == data;
      ok := true;
    }

    /** recurse_cp. `lost` records a mkdir that failed, whose result the source
        ignores, and `cut` a readdir that failed, which it takes for the end of the
        directory. Without a cut, success means that every file has its copy; what
        else there was at the destination stays. To a destination that did not
        exist it means a faithful copy of part of the source, which without a cut
        is complete exactly when no mkdir failed. */
    method RecurseCp(w: World, src: Path, dst: Path) returns (ok: bool, ghost lost: bool, ghost cut: bool)
      requires WellFormed(nodes) && Apart(src, dst)
      modifies this
      ensures WellFormed(nodes)
      ensures SameOutside(old(nodes), nodes, dst)
      ensures KeepsOthers(old(nodes), nodes, src, dst)
      ensures ok ==> src in old(nodes)
      ensures ok && !cut ==> AllFiles(old(nodes), nodes, src, dst)
      ensures ok && dst !in old(nodes) ==> OnlyCopies(old(nodes), nodes, src, dst)
      ensures ok && dst !in old(nodes) && !cut ==> (AllNodes(old(nodes), nodes, src, dst) <==> !lost)
      // what the system decides
      ensures Denies(w, old(nodes), nodes)
      ensures ok && dst !in old(nodes) ==> SkipsUnread(w, nodes, src, dst)
      ensures w.clean && w.unread == {} ==> !cut
      ensures w.clean && src in old(nodes) && CanCopyFiles(w, old(nodes), src, dst) ==> ok
      decreases |Subtree(nodes, src)|
    {
      hide WellFormed, SameOutside, OnlyCopies, AllFiles, AllNodes, CopyState, FilesCopied, Complete, Denies, CanCopyFiles;
      hide SkipsUnread, CanWrite, Subtree, Children, KeepsOthers, Untouched, HoldsFile;
      lost, cut := false, false;
      ghost var start := nodes;
      DeniesNothing(w, start);
      var failed: bool := *;
      if src !in nodes || (failed && !w.clean) { // lstat
        SameOutsideRefl(start, dst);
        KeepsOthersRefl(start, src, dst);
        ok := false;
        return;
      }
      ghost var sure := w.clean && CanCopyFiles(w, start, src, dst);
      if nodes[src].File? {
        if sure {
          FileCanBeCopied(w, start, src, dst);
        }
        ok := CopyFile(w, src, dst);
        FileCopied(start, nodes, src, dst, ok);
        FileDenies(w, start, nodes, dst);
        if dst !in start {
          NothingBelowYet(w, start, nodes, src, dst);
        }
        return;
      }
      var made := MakeDir(w, dst);
      lost := !made;
      DirectoryMade(start, nodes, src, dst, made);
      DirectoryDenies(w, start, nodes, dst, made);
      if dst !in start {
        NothingBelowYet(w, start, nodes, src, dst);
      }
      if sure {
        DirectoryCanBeMade(w, start, src, dst);
      }
      failed := *;
      if failed && !w.clean {
        ok := false;
        return; // opendir failed
      }
      var names := Children(nodes, src);
      var ended := src in w.unread;
      ghost var done: set<string> := {};
      ListingUnaffected(start, nodes, src, dst);
      while names != {} && !ended
        invariant WellFormed(nodes) && SameOutside(start, nodes, dst) && Denies(w, start, nodes)
        invariant names !! done && names + done == Children(start, src)
        invariant dst !in start ==> CopyState(start, nodes, src, dst, done) && SkipsUnread(w, nodes, src, dst)
        invariant KeepsOthers(start, nodes, src, dst) && Untouched(start, nodes, dst, done)
        invariant !cut ==> FilesCopied(start, nodes, src, dst, done)
        invariant dst !in start && !cut ==> (Complete(start, nodes, src, dst, done) <==> !lost)
        invariant sure && HoldsFile(start, src) ==> dst in nodes && nodes[dst] == Dir
        invariant w.clean && w.unread == {} ==> !cut && !ended
        invariant src in w.unread ==> ended
        decreases names
      {
        var c :| c in names;
        ListingUnaffected(start, nodes, src, dst);
        SmallerSubtree(nodes, start, src, c);
        ApartChildren(src, dst, c);
        ghost var mid := nodes;
        if sure {
          ChildCanBeCopied(w, start, mid, src, dst, done, c);
        }
        ghost var lostHere, cutHere;
        ok, lostHere, cutHere := RecurseCp(w, src + [c], dst + [c]);
        SameOutsideStep(start, mid, nodes, dst, c);
        DeniesStep(w, start, mid, nodes);
        ParentKept(mid, nodes, dst, c);
        ChildKeepsOthers(start, mid, nodes, src, dst, c);
        if !ok {
          return;
        }
        UntouchedStep(start, mid, nodes, dst, done, c);
        if !cut && !cutHere {
          ChildFilesCopied(start, mid, nodes, src, dst, done, c);
        }
        if dst !in start {
          ChildCopied(start, mid, nodes, src, dst, done, c);
          ChildSkipsUnread(w, mid, nodes, src, dst, c);
          if !cut && !cutHere {
            ChildNodesCopied(start, mid, nodes, src, dst, done, c);
          }
        }
        lost, cut := lost || lostHere, cut || cutHere;
        names, done := names - {c}, done + {c};
        failed := *;
        ended := failed && !w.clean; // readdir
      }
      cut := cut || names != {};
      if !cut {
        AllChildrenCopied(start, nodes, src, dst, done);
      }
      if dst !in start {
        CopiedFaithfully(start, nodes, src, dst, done);
      }
      ok := true;
    }

    /** A directory d without a file at or below it can get lost: whenever the rest
        of the copy can be made, the system may let it succeed without d. */
    method CopyMayLose(src: Path, dst: Path, d: Path) returns (ok: bool)
      requires WellFormed(nodes) && Apart(src, dst) && src in nodes && dst !in nodes
      requires HoldsFile(nodes, src) ==> Parent(dst) in nodes && nodes[Parent(dst)].Dir?
      requires d in nodes && AtOrBelow(d, src) && !HoldsFile(nodes, d)
      modifies this
      ensures ok && AllFiles(old(nodes), nodes, src, dst)
      ensures Rebase(d, src, dst) !in nodes && !AllNodes(old(nodes), nodes, src, dst)
    {
      ghost var start := nodes;
      var w := World(true, {Rebase(d, src, dst)}, {});
      NoFileNeedsEmpty(w, nodes, src, dst, d);
      CanCopyToNew(w, nodes, src, dst);
      ghost var lost, cut;
      ok, lost, cut := RecurseCp(w, src, dst);
      DeniedIsLost(w, start, nodes, src, dst, d);
    }

    /** And so can everything below a directory d, files included: the copy succeeds
        although readdir failed in d. */
    method CopyMayMissEntries(src: Path, dst: Path, d: Path) returns (ok: bool)
      requires WellFormed(nodes) && Apart(src, dst) && src in nodes && dst !in nodes
      requires Parent(dst) in nodes && nodes[Parent(dst)].Dir?
      requires AtOrBelow(d, src)
      modifies this
      ensures ok
      ensures forall q :: AtOrBelow(q, d) && q != d ==> Rebase(q, src, dst) !in nodes
    {
      var w := World(true, {}, {d});
      ghost var lost, cut;
      CanCopyToNew(w, nodes, src, dst);
      ok, lost, cut := RecurseCp(w, src, dst);
      forall q | AtOrBelow(q, d) && q != d ensures Rebase(q, src, dst) !in nodes {
        UnreadIsMissed(w, nodes, src, dst, d, q);
      }
    }

    /** cp -r to a new destination followed by rm -r of it: whatever the copy did,
        a successful remove restores the file system. */
    method CopyThenRemove(w: World, src: Path, dst: Path) returns (copied: bool, removed: bool)
      requires WellFormed(nodes) && Apart(src, dst) && dst !in nodes
      modifies this
      ensures removed ==> nodes == old(nodes)
      ensures w.clean && w.unread == {} && copied && src in old(nodes) && HoldsFile(old(nodes), src) ==> removed
    {
      hide WellFormed, SameOutside, OnlyCopies, AllFiles, AllNodes, Denies, SkipsUnread, CanCopyFiles, HoldsFile, Without;
      ghost var start := nodes;
      ghost var lost, cut;
      copied, lost, cut := RecurseCp(w, src, dst);
      RemovingTheCopyRestores(start, nodes, dst);
      if copied && !cut && HoldsFile(start, src) {
        CopyIsThere(start, nodes, src, dst);
      }
      removed := RecurseRm(w, dst);
    }

    method MakeDir(w: World, path: Path) returns (ok: bool)
      requires WellFormed(nodes)
      modifies this
      ensures WellFormed(nodes)
      ensures ok ==> path !in old(nodes) && path !in w.denied && nodes == old(nodes)[path := Dir]
      ensures !ok ==> nodes == old(nodes)
      ensures w.clean && HasRoom(old(nodes), path) && path !in w.denied ==> ok
    {
      var failed: bool := *;
      if !HasRoom(nodes, path) || path in w.denied || (failed && !w.clean) {
        return false;
      }
      nodes := nodes[path := Dir];
      ok := true;
    }
  }

  predicate HasRoom(nodes: Nodes, path: Path) {
    path !in nodes && path != [] && Parent(path) in nodes && nodes[Parent(path)].Dir?
  }

  // ---------------------------------------------------------------- completeness

  lemma {:induction false} AncestorsPresent(nodes: Nodes, p: Path, q: Path)
    requires WellFormed(nodes) && p in nodes && AtOrBelow(p, q)
    ensures q in nodes
    decreases |p|
  {
    if p != q {
      AncestorsPresent(nodes, Parent(p), q);
    }
  }

  lemma CopyIsThere(before: Nodes, after: Nodes, src: Path, dst: Path)
    requires WellFormed(after) && AllFiles(before, after, src, dst) && HoldsFile(before, src)
    ensures dst in after
  {
    var f :| FileBelow(before, src, f);
    AncestorsPresent(after, Rebase(f, src, dst), dst);
  }

  /** If every node at or below src has a file at or below it, a copy with all
      files is complete, whatever mkdir reported. */
  lemma FilesBringDirectories(before: Nodes, after: Nodes, src: Path, dst: Path)
    requires WellFormed(after) && AllFiles(before, after, src, dst)
    requires forall q :: q in before && AtOrBelow(q, src) ==> HoldsFile(before, q)
    ensures AllNodes(before, after, src, dst)
  {
    forall q | q in before && AtOrBelow(q, src) ensures Rebase(q, src, dst) in after {
      var f :| FileBelow(before, q, f);
      assert f[|src|..][..|q| - |src|] == q[|src|..];
      AncestorsPresent(after, Rebase(f, src, dst), Rebase(q, src, dst));
    }
  }

  /** To a new destination only denied directories stand in the way of a file. */
  lemma CanCopyToNew(w: World, nodes: Nodes, src: Path, dst: Path)
    requires WellFormed(nodes) && Apart(src, dst) && dst !in nodes
    requires HoldsFile(nodes, src) ==> Parent(dst) in nodes && nodes[Parent(dst)].Dir?
    requires forall f, d :: FileBelow(nodes, src, f) && AtOrBelow(d, src) && AtOrBelow(f, d) && d != f ==>
      Rebase(d, src, dst) !in w.denied
    ensures CanCopyFiles(w, nodes, src, dst)
  {
    forall d | AtOrBelow(d, src) ensures Rebase(d, src, dst) !in nodes {
      RebaseInverse(d, src, dst);
      AbsentHasNothingBelow(nodes, dst, Rebase(d, src, dst));
    }
  }

  /** No file needs a directory that holds none. */
  lemma NoFileNeedsEmpty(w: World, nodes: Nodes, src: Path, dst: Path, d: Path)
    requires AtOrBelow(d, src) && !HoldsFile(nodes, d) && w.denied == {Rebase(d, src, dst)}
    ensures forall f, e :: FileBelow(nodes, src, f) && AtOrBelow(e, src) && AtOrBelow(f, e) && e != f ==>
      Rebase(e, src, dst) !in w.denied
  {
    forall f, e | FileBelow(nodes, src, f) && AtOrBelow(e, src) && AtOrBelow(f, e) && e != f
      ensures Rebase(e, src, dst) !in w.denied
    {
      RebaseInverse(e, src, dst);
      RebaseInverse(d, src, dst);
      assert AtOrBelow(f, d) ==> FileBelow(nodes, d, f);
    }
  }

  lemma DeniedIsLost(w: World, before: Nodes, after: Nodes, src: Path, dst: Path, d: Path)
    requires WellFormed(before) && dst !in before && d in before && AtOrBelow(d, src) && !HoldsFile(before, d)
    requires Denies(w, before, after) && OnlyCopies(before, after, src, dst) && Rebase(d, src, dst) in w.denied
    ensures Rebase(d, src, dst) !in after
  {
    RebaseInverse(d, src, dst);
    assert before[d].Dir? by {
      assert before[d].File? ==> FileBelow(before, d, d);
    }
    AbsentHasNothingBelow(before, dst, Rebase(d, src, dst));
  }

  /** In a well-formed tree nothing lies below a directory without entries. */
  lemma UnreadIsMissed(w: World, nodes: Nodes, src: Path, dst: Path, d: Path, q: Path)
    requires WellFormed(nodes) && AtOrBelow(d, src) && AtOrBelow(q, d) && q != d
    requires d in w.unread && SkipsUnread(w, nodes, src, dst)
    ensures Rebase(q, src, dst) !in nodes
  {
    var e := q[..|d| + 1];
    assert AtOrBelow(e, d) && AtOrBelow(e, src) && Parent(e) == d;
    assert Rebase(q, src, dst)[..|Rebase(e, src, dst)|] == Rebase(e, src, dst);
    AbsentHasNothingBelow(nodes, Rebase(e, src, dst), Rebase(q, src, dst));
  }

  /** As long as there is at most dst itself. */
  lemma NothingBelowYet(w: World, start: Nodes, now: Nodes, src: Path, dst: Path)
    requires WellFormed(start) && dst !in start
    requires forall p :: p != dst ==> (p in now <==> p in start)
    ensures SkipsUnread(w, now, src, dst)
  {
    forall q | AtOrBelow(q, src) && q != src ensures Rebase(q, src, dst) !in now {
      assert Rebase(q, src, dst) != dst && AtOrBelow(Rebase(q, src, dst), dst);
      AbsentHasNothingBelow(start, dst, Rebase(q, src, dst));
    }
  }

  lemma ChildSkipsUnread(w: World, mid: Nodes, now: Nodes, src: Path, dst: Path, c: string)
    requires src !in w.unread && SkipsUnread(w, mid, src, dst)
    requires SameOutside(mid, now, dst + [c]) && SkipsUnread(w, now, src + [c], dst + [c])
    ensures SkipsUnread(w, now, src, dst)
  {
    forall q | AtOrBelow(q, src) && q != src && Parent(q) in w.unread ensures Rebase(q, src, dst) !in now {
      if q[|src|] == c {
        assert q[..|src| + 1] == src + [c];
        assert Parent(src + [c]) == src;
        RebaseChild(q, src, dst, c);
      } else {
        assert Rebase(q, src, dst)[|dst|] == q[|src|] && (dst + [c])[|dst|] == c;
        assert !AtOrBelow(Rebase(q, src, dst), dst + [c]);
      }
    }
  }

  lemma DeniesNothing(w: World, nodes: Nodes)
    ensures Denies(w, nodes, nodes)
  {
  }

  lemma DeniesStep(w: World, start: Nodes, mid: Nodes, now: Nodes)
    requires Denies(w, start, mid) && Denies(w, mid, now)
    ensures Denies(w, start, now)
  {
  }

  lemma FileDenies(w: World, start: Nodes, now: Nodes, dst: Path)
    requires forall p :: p != dst ==> (p in now <==> p in start) && (p in now ==> now[p] == start[p])
    requires dst in now && now[dst].Dir? ==> dst in start && start[dst].Dir?
    ensures Denies(w, start, now)
  {
  }

  lemma DirectoryDenies(w: World, start: Nodes, now: Nodes, dst: Path, made: bool)
    requires now == if made then start[dst := Dir] else start
    requires made ==> dst !in w.denied
    ensures Denies(w, start, now)
  {
  }

  lemma FileCanBeCopied(w: World, nodes: Nodes, src: Path, dst: Path)
    requires CanCopyFiles(w, nodes, src, dst) && src in nodes && nodes[src].File?
    ensures CanWrite(nodes, dst)
  {
    assert FileBelow(nodes, src, src) && Rebase(src, src, dst) == dst;
  }

  lemma DirectoryCanBeMade(w: World, nodes: Nodes, src: Path, dst: Path)
    requires CanCopyFiles(w, nodes, src, dst) && src in nodes && nodes[src].Dir?
    ensures HoldsFile(nodes, src) ==>
      if dst in nodes then nodes[dst].Dir? else HasRoom(nodes, dst) && dst !in w.denied
  {
    if HoldsFile(nodes, src) {
      var f :| FileBelow(nodes, src, f);
      assert AtOrBelow(src, src) && src != f && Rebase(src, src, dst) == dst;
    }
  }

  lemma WithoutKeepsOutside(nodes: Nodes, path: Path)
    ensures SameOutside(nodes, Without(nodes, path), path)
    ensures forall p :: p in Without(nodes, path) ==> p in nodes && Without(nodes, path)[p] == nodes[p]
  {
  }

  lemma SubtreeShrinks(small: Nodes, big: Nodes, path: Path)
    requires forall p :: p in small ==> p in big
    ensures Subtree(small, path) <= Subtree(big, path)
  {
  }

  /** Removing one entry leaves the others. */
  lemma SiblingsKept(mid: Nodes, now: Nodes, path: Path, c: string)
    requires now == Without(mid, path + [c])
    ensures forall d :: path + [d] in now <==> path + [d] in mid && d != c
  {
    forall d ensures AtOrBelow(path + [d], path + [c]) <==> d == c {
      assert (path + [d])[|path|] == d && (path + [c])[|path|] == c;
    }
  }

  lemma ParentKept(mid: Nodes, now: Nodes, dst: Path, c: string)
    requires SameOutside(mid, now, dst + [c])
    ensures dst in mid ==> dst in now && now[dst] == mid[dst]
  {
    assert !AtOrBelow(dst, dst + [c]);
  }

  lemma KeepsOthersRefl(nodes: Nodes, src: Path, dst: Path)
    ensures KeepsOthers(nodes, nodes, src, dst)
  {
  }

  lemma ChildKeepsOthers(start: Nodes, mid: Nodes, now: Nodes, src: Path, dst: Path, c: string)
    requires Apart(src, dst) && SameOutside(start, mid, dst) && KeepsOthers(start, mid, src, dst)
    requires SameOutside(mid, now, dst + [c]) && KeepsOthers(mid, now, src + [c], dst + [c])
    ensures KeepsOthers(start, now, src, dst)
  {
    forall p | AtOrBelow(p, dst) && Rebase(p, dst, src) !in start ensures SameAt(start, now, p) {
      assert SameAt(start, mid, p);
      if AtOrBelow(p, dst + [c]) {
        RebaseChild(p, dst, src, c);
        RebaseInverse(p, dst, src);
        SourceUnaffected(start, mid, src, dst, Rebase(p, dst, src));
        assert SameAt(mid, now, p);
      }
    }
  }

  lemma UntouchedStep(start: Nodes, mid: Nodes, now: Nodes, dst: Path, done: set<string>, c: string)
    requires Untouched(start, mid, dst, done) && SameOutside(mid, now, dst + [c])
    ensures Untouched(start, now, dst, done + {c})
  {
    forall p | AtOrBelow(p, dst) && !Entered(p, dst, done + {c}) ensures SameAt(start, now, p) {
      assert (dst + [c])[|dst|] == c && !AtOrBelow(p, dst + [c]);
      assert SameAt(start, mid, p);
    }
  }

  lemma ChildCanBeCopied(w: World, start: Nodes, mid: Nodes, src: Path, dst: Path, done: set<string>, c: string)
    requires Apart(src, dst) && SameOutside(start, mid, dst) && CanCopyFiles(w, start, src, dst)
    requires Untouched(start, mid, dst, done) && c !in done && c in Children(start, src)
    requires HoldsFile(start, src) ==> dst in mid && mid[dst] == Dir
    ensures src + [c] in mid && CanCopyFiles(w, mid, src + [c], dst + [c])
  {
    ChildIsListed(start, src, c);
    SourceUnaffected(start, mid, src, dst, src + [c]);
    forall f | FileBelow(mid, src + [c], f)
      ensures Parent(dst + [c]) in mid && mid[Parent(dst + [c])].Dir?
      ensures var e := Rebase(f, src + [c], dst + [c]);
        e in mid ==> mid[e].File?
      ensures forall d :: AtOrBelow(d, src + [c]) && AtOrBelow(f, d) && d != f ==>
        CanEnter(w, mid, Rebase(d, src + [c], dst + [c]))
    {
      SourceUnaffected(start, mid, src, dst, f);
      assert FileBelow(start, src, f);
      assert Parent(dst + [c]) == dst;
      EntryUntouched(start, mid, src, dst, done, c, f);
      forall d | AtOrBelow(d, src + [c]) && AtOrBelow(f, d) && d != f
        ensures CanEnter(w, mid, Rebase(d, src + [c], dst + [c]))
      {
        EntryUntouched(start, mid, src, dst, done, c, d);
        assert CanEnter(w, start, Rebase(d, src, dst));
      }
    }
  }

  lemma EntryUntouched(start: Nodes, mid: Nodes, src: Path, dst: Path, done: set<string>, c: string, q: Path)
    requires Untouched(start, mid, dst, done) && c !in done && AtOrBelow(q, src + [c])
    ensures AtOrBelow(q, src) && Rebase(q, src + [c], dst + [c]) == Rebase(q, src, dst)
    ensures SameAt(start, mid, Rebase(q, src, dst))
  {
    RebaseChild(q, src, dst, c);
    RebaseInverse(q, src, dst);
  }

  // ---------------------------------------------------------------- copying

  predicate CanWrite(nodes: Nodes, dst: Path) {
    dst != [] && (if dst in nodes then nodes[dst].File? else Parent(dst) in nodes && nodes[Parent(dst)].Dir?)
  }

  lemma PutFile(nodes: Nodes, dst: Path, data: seq<byte>)
    requires WellFormed(nodes) && CanWrite(nodes, dst)
    ensures WellFormed(nodes[dst := File(data)])
  {
    var after := nodes[dst := File(data)];
    forall p | p in after && p != [] ensures Parent(p) in after && after[Parent(p)].Dir? {
      if Parent(p) == dst && p in nodes {
        FileHasNothingBelow(nodes, dst);
      }
    }
  }

  lemma SameOutsideRefl(nodes: Nodes, path: Path)
    ensures SameOutside(nodes, nodes, path)
  {
  }

  lemma SameOutsideStep(start: Nodes, mid: Nodes, now: Nodes, path: Path, c: string)
    requires SameOutside(start, mid, path) && SameOutside(mid, now, path + [c])
    ensures SameOutside(start, now, path)
  {
    forall p | !AtOrBelow(p, path) ensures (p in start <==> p in now) && (p in start ==> start[p] == now[p]) {
      assert !AtOrBelow(p, path + [c]);
    }
  }

  lemma ApartChildren(a: Path, b: Path, c: string)
    requires Apart(a, b)
    ensures Apart(a + [c], b + [c])
  {
    if AtOrBelow(a + [c], b + [c]) {
      ApartBelow(b, a, a + [c]);
    }
    if AtOrBelow(b + [c], a + [c]) {
      ApartBelow(a, b, b + [c]);
    }
  }

  /** Writing at or below dst leaves the tree at src as it was. */
  lemma SourceUnaffected(start: Nodes, now: Nodes, src: Path, dst: Path, q: Path)
    requires Apart(src, dst) && SameOutside(start, now, dst) && AtOrBelow(q, src)
    ensures (q in start <==> q in now) && (q in start ==> start[q] == now[q])
  {
    ApartBelow(src, dst, q);
  }

  lemma ListingUnaffected(start: Nodes, now: Nodes, src: Path, dst: Path)
    requires Apart(src, dst) && SameOutside(start, now, dst)
    ensures Children(now, src) == Children(start, src) && Subtree(now, src) == Subtree(start, src)
  {
    forall q | AtOrBelow(q, src) ensures q in start <==> q in now {
      SourceUnaffected(start, now, src, dst, q);
    }
  }

  lemma FileCopied(start: Nodes, now: Nodes, src: Path, dst: Path, ok: bool)
    requires WellFormed(start) && Apart(src, dst) && src in start && start[src].File?
    requires forall p :: p != dst ==> (p in now <==> p in start) && (p in now ==> now[p] == start[p])
    requires ok ==> dst in now && now[dst] == start[src]
    ensures SameOutside(start, now, dst) && KeepsOthers(start, now, src, dst)
    ensures ok ==> AllFiles(start, now, src, dst) && AllNodes(start, now, src, dst)
    ensures ok && dst !in start ==> OnlyCopies(start, now, src, dst)
  {
    FileHasNothingBelow(start, src);
    assert Rebase(src, src, dst) == dst && Rebase(dst, dst, src) == src;
    if ok && dst !in start {
      forall p | p in now && AtOrBelow(p, dst) ensures p == dst && Rebase(p, dst, src) == src {
        if p != dst {
          AbsentHasNothingBelow(start, dst, p);
        }
      }
    }
  }

  lemma DirectoryMade(start: Nodes, now: Nodes, src: Path, dst: Path, made: bool)
    requires WellFormed(start) && src in start && start[src].Dir?
    requires made ==> dst !in start && now == start[dst := Dir]
    requires !made ==> now == start
    ensures SameOutside(start, now, dst) && KeepsOthers(start, now, src, dst)
    ensures Untouched(start, now, dst, {}) && FilesCopied(start, now, src, dst, {})
    ensures dst !in start ==> CopyState(start, now, src, dst, {})
    ensures dst !in start ==> (Complete(start, now, src, dst, {}) <==> made)
  {
    assert Rebase(dst, dst, src) == src;
    if dst !in start {
      forall p | p in now && AtOrBelow(p, dst) ensures p == dst && made && Rebase(p, dst, src) == src {
        if p in start {
          AbsentHasNothingBelow(start, dst, p);
        }
      }
      assert Rebase(src, src, dst) == dst;
    }
  }

  /** One entry copied: the states before and after the recursive call. */
  lemma ChildCopied(start: Nodes, mid: Nodes, now: Nodes, src: Path, dst: Path, done: set<string>, c: string)
    requires Apart(src, dst) && src in start && start[src].Dir? && c !in done
    requires SameOutside(start, mid, dst) && CopyState(start, mid, src, dst, done)
    requires SameOutside(mid, now, dst + [c])
    requires dst + [c] !in mid ==> OnlyCopies(mid, now, src + [c], dst + [c])
    ensures CopyState(start, now, src, dst, done + {c}) && dst + [c] !in mid
  {
    assert dst + [c] !in mid by {
      assert AtOrBelow(dst + [c], dst) && !Entered(dst + [c], dst, done);
    }
    forall p | p in now && AtOrBelow(p, dst)
      ensures Entered(p, dst, done + {c}) && Rebase(p, dst, src) in start && now[p] == start[Rebase(p, dst, src)]
    {
      if AtOrBelow(p, dst + [c]) {
        RebaseChild(p, dst, src, c);
        SourceUnaffected(start, mid, src, dst, Rebase(p, dst, src));
      }
    }
  }

  lemma ChildFilesCopied(start: Nodes, mid: Nodes, now: Nodes, src: Path, dst: Path, done: set<string>, c: string)
    requires Apart(src, dst) && src in start && start[src].Dir? && c !in done
    requires SameOutside(start, mid, dst) && FilesCopied(start, mid, src, dst, done)
    requires SameOutside(mid, now, dst + [c]) && AllFiles(mid, now, src + [c], dst + [c])
    ensures FilesCopied(start, now, src, dst, done + {c})
  {
    forall q | q in start && AtOrBelow(q, src) && Entered(q, src, done + {c}) && start[q].File?
      ensures Rebase(q, src, dst) in now && now[Rebase(q, src, dst)] == start[q]
    {
      EntryCase(start, mid, src, dst, c, q);
    }
  }

  /** A node below src is below entry c, or its copy is not below dst/c. */
  lemma EntryCase(start: Nodes, mid: Nodes, src: Path, dst: Path, c: string, q: Path)
    requires Apart(src, dst) && SameOutside(start, mid, dst) && q in start && AtOrBelow(q, src)
    ensures q in mid && mid[q] == start[q]
    ensures if q != src && q[|src|] == c
      then AtOrBelow(q, src + [c]) && Rebase(q, src + [c], dst + [c]) == Rebase(q, src, dst)
      else !AtOrBelow(Rebase(q, src, dst), dst + [c])
  {
    SourceUnaffected(start, mid, src, dst, q);
    if q != src && q[|src|] == c {
      assert q[..|src| + 1] == src + [c];
      RebaseChild(q, src, dst, c);
    } else if q != src {
      assert Rebase(q, src, dst)[|dst|] == q[|src|] && (dst + [c])[|dst|] == c;
    }
  }

  lemma ChildNodesCopied(start: Nodes, mid: Nodes, now: Nodes, src: Path, dst: Path, done: set<string>, c: string)
    requires Apart(src, dst) && src in start && c !in done
    requires SameOutside(start, mid, dst) && SameOutside(mid, now, dst + [c])
    ensures Complete(start, now, src, dst, done + {c})
      <==> Complete(start, mid, src, dst, done) && AllNodes(mid, now, src + [c], dst + [c])
  {
    forall q | q in start && AtOrBelow(q, src)
      ensures Entered(q, src, done + {c}) <==> Entered(q, src, done) || AtOrBelow(q, src + [c])
      ensures AtOrBelow(q, src + [c]) ==> q in mid && Rebase(q, src + [c], dst + [c]) == Rebase(q, src, dst)
      ensures !AtOrBelow(q, src + [c]) ==> (Rebase(q, src, dst) in mid <==> Rebase(q, src, dst) in now)
      ensures AtOrBelow(q, src + [c]) ==> !Entered(q, src, done)
    {
      EntryCase(start, mid, src, dst, c, q);
    }
    forall q | q in mid && AtOrBelow(q, src + [c]) ensures q in start && AtOrBelow(q, src) {
      SourceUnaffected(start, mid, src, dst, q);
    }
  }

  lemma CopiedFaithfully(start: Nodes, now: Nodes, src: Path, dst: Path, done: set<string>)
    requires CopyState(start, now, src, dst, done)
    ensures OnlyCopies(start, now, src, dst)
  {
  }

  lemma AllChildrenCopied(start: Nodes, now: Nodes, src: Path, dst: Path, done: set<string>)
    requires WellFormed(start) && FilesCopied(start, now, src, dst, done) && done == Children(start, src)
    ensures AllFiles(start, now, src, dst)
    ensures AllNodes(start, now, src, dst) <==> Complete(start, now, src, dst, done)
  {
    forall q | q in start && AtOrBelow(q, src) ensures Entered(q, src, done) {
      if q != src {
        BelowGoesThroughChild(start, src, q);
        ChildIsListed(start, src, q[|src|]);
      }
    }
  }

  lemma RemovingTheCopyRestores(start: Nodes, now: Nodes, dst: Path)
    requires WellFormed(start) && dst !in start && SameOutside(start, now, dst)
    ensures Without(now, dst) == start
  {
    forall p | p in start ensures !AtOrBelow(p, dst) {
      if AtOrBelow(p, dst) {
        AbsentHasNothingBelow(start, dst, p);
      }
    }
    assert Without(now, dst).Keys == start.Keys;
  }

  lemma EmptyDirectory(nodes: Nodes, path: Path)
    requires WellFormed(nodes) && forall c :: path + [c] !in nodes
    ensures forall p :: p in nodes && AtOrBelow(p, path) ==> p == path
  {
    forall p | p in nodes && AtOrBelow(p, path) ensures p == path {
      if p != path {
        BelowGoesThroughChild(nodes, path, p);
      }
    }
  }

  lemma FileHasNothingBelow(nodes: Nodes, path: Path)
    requires WellFormed(nodes) && path in nodes && nodes[path].File?
    ensures forall p :: p in nodes && AtOrBelow(p, path) ==> p == path
  {
    forall c ensures path + [c] !in nodes {
      assert Parent(path + [c]) == path;
    }
    EmptyDirectory(nodes, path);
  }

  lemma RemoveLast(start: Nodes, nodes: Nodes, path: Path)
    requires WellFormed(nodes) && SameOutside(start, nodes, path)
    requires forall p :: p in nodes ==> p in start && nodes[p] == start[p]
    requires forall p :: p in nodes && AtOrBelow(p, path) ==> p == path
    ensures nodes - {path} == Without(start, path) && WellFormed(nodes - {path})
  {
    var after := nodes - {path};
    forall p | p in after && p != [] ensures Parent(p) in after && after[Parent(p)].Dir? {
      if Parent(p) == path {
        assert AtOrBelow(p, path);
      }
    }
    assert after.Keys == Without(start, path).Keys;
  }
}
