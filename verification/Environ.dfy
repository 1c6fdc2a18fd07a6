/** elfldr_set_environ: the pointer table and the packed strings of an
    environment, laid out in one block of the target's memory. */
module Environ {
  import opened Words
  import opened AddressSpaces

  type Text = seq<byte>

  predicate IsCString(s: Text) {
    forall k :: 0 <= k < |s| ==> s[k] != 0
  }

  // ---------------------------------------------------------------- layout

  /** Bytes the strings take, each with its terminator. */
  function TextSize(envp: seq<Text>): nat {
    if envp == [] then 0 else TextSize(envp[..|envp| - 1]) + |envp[|envp| - 1]| + 1
  }

  /** The size the first loop computes, before rounding. */
  function BlockSize(envp: seq<Text>): nat {
    8 + 8 * |envp| + TextSize(envp)
  }

  /** Where string i goes: behind the table and the strings before it. */
  function TextPos(at: int, envp: seq<Text>, i: nat): int
    requires i <= |envp|
  {
    at + 8 * (|envp| + 1) + TextSize(envp[..i])
  }

  lemma {:induction false} TextSizeMonotone(envp: seq<Text>, i: nat, j: nat)
    requires i < j <= |envp|
    ensures TextSize(envp[..i]) + |envp[i]| + 1 <= TextSize(envp[..j])
    decreases j
  {
    assert envp[..j][..j - 1] == envp[..j - 1];
    if i < j - 1 {
      TextSizeMonotone(envp, i, j - 1);
    }
  }

  /** No two writes overlap: the table ends before the first string, every
      string ends before the next begins, and the last ends with the block. */
  lemma LayoutIsDisjoint(at: int, envp: seq<Text>)
    ensures TextPos(at, envp, |envp|) == at + BlockSize(envp)
    ensures forall i :: 0 <= i <= |envp| ==> at + 8 * |envp| + 8 <= TextPos(at, envp, i)
    ensures forall i, j :: 0 <= i < j <= |envp| ==> TextPos(at, envp, i) + |envp[i]| + 1 <= TextPos(at, envp, j)
  {
    assert envp[..|envp|] == envp;
    forall i, j | 0 <= i < j <= |envp|
      ensures TextPos(at, envp, i) + |envp[i]| + 1 <= TextPos(at, envp, j)
    {
      TextSizeMonotone(envp, i, j);
    }
  }

  method ComputeSize(envp: seq<Text>) returns (size: nat, n: nat)
    ensures size == BlockSize(envp) && n == |envp|
  {
    size, n := 8, 0;
    while n < |envp|
      invariant n <= |envp|
      invariant size == 8 + 8 * n + TextSize(envp[..n])
    {
      assert envp[..n + 1][..n] == envp[..n];
      size := size + (8 + |envp[n]| + 1);
      n := n + 1;
    }
    assert envp[..n] == envp;
  }

  // ---------------------------------------------------------------- reading back

  ghost predicate Holds(mem: map<int, byte>, addr: int, data: seq<byte>) {
    forall a :: InRange(a, addr, |data|) ==> a in mem && mem[a] == data[a - addr]
  }

  ghost predicate HoldsWord(mem: map<int, byte>, addr: int, v: u64) {
    Holds(mem, addr, Le64(v))
  }

  /** What a C program walking the table at `table` sees: a non-null pointer to
      each NUL-terminated string in turn, then a null pointer. */
  ghost predicate IsEnviron(mem: map<int, byte>, table: int, envp: seq<Text>) {
    && (forall i :: 0 <= i < |envp| ==> EntryHolds(mem, table + 8 * i, envp[i]))
    && HoldsWord(mem, table + 8 * |envp|, 0)
  }

  ghost predicate EntryHolds(mem: map<int, byte>, slot: int, s: Text) {
    exists p: u64 :: p != 0 && HoldsWord(mem, slot, p) && Holds(mem, p, s + [0])
  }

  lemma WordUnique(mem: map<int, byte>, addr: int, v: u64, w: u64)
    requires HoldsWord(mem, addr, v) && HoldsWord(mem, addr, w)
    ensures v == w
  {
    forall k | 0 <= k < 8 ensures Le64(v)[k] == Le64(w)[k] {
      assert InRange(addr + k, addr, 8);
    }
    assert Le64(v) == Le64(w);
    Le64RoundTrip(v);
    Le64RoundTrip(w);
  }

  lemma TextUnique(mem: map<int, byte>, p: int, s: Text, t: Text)
    requires IsCString(s) && IsCString(t) && Holds(mem, p, s + [0]) && Holds(mem, p, t + [0])
    ensures s == t
  {
    var m := if |s| <= |t| then |s| else |t|;
    forall k | 0 <= k <= m ensures (s + [0])[k] == (t + [0])[k] {
      assert InRange(p + k, p, |s + [0]|) && mem[p + k] == (s + [0])[k];
      assert InRange(p + k, p, |t + [0]|) && mem[p + k] == (t + [0])[k];
    }
    assert (s + [0])[m] == (t + [0])[m];
    assert s[..m] == (s + [0])[..m] == (t + [0])[..m] == t[..m];
  }

  lemma EntryUnique(mem: map<int, byte>, slot: int, s: Text, t: Text)
    requires IsCString(s) && IsCString(t) && EntryHolds(mem, slot, s) && EntryHolds(mem, slot, t)
    ensures s == t
  {
    var p: u64 :| p != 0 && HoldsWord(mem, slot, p) && Holds(mem, p, s + [0]);
    var q: u64 :| q != 0 && HoldsWord(mem, slot, q) && Holds(mem, q, t + [0]);
    WordUnique(mem, slot, p, q);
    TextUnique(mem, p, s, t);
  }

  /** The memory determines the environment: a walk can read only one. */
  lemma EnvironUnique(mem: map<int, byte>, table: int, e: seq<Text>, f: seq<Text>)
    requires forall s :: s in e || s in f ==> IsCString(s)
    requires IsEnviron(mem, table, e) && IsEnviron(mem, table, f)
    ensures e == f
  {
    if |e| < |f| {
      EntryIsNotEnd(mem, table + 8 * |e|, f[|e|]);
    } else if |f| < |e| {
      EntryIsNotEnd(mem, table + 8 * |f|, e[|f|]);
    }
    forall i | 0 <= i < |e| && i < |f| ensures e[i] == f[i] {
      assert e[i] in e && f[i] in f;
      EntryUnique(mem, table + 8 * i, e[i], f[i]);
    }
  }

  lemma EntryIsNotEnd(mem: map<int, byte>, slot: int, s: Text)
    requires EntryHolds(mem, slot, s)
    ensures !HoldsWord(mem, slot, 0)
  {
    var p: u64 :| p != 0 && HoldsWord(mem, slot, p) && Holds(mem, p, s + [0]);
    if HoldsWord(mem, slot, 0) {
      WordUnique(mem, slot, p, 0);
    }
  }

  // ---------------------------------------------------------------- writing

  lemma WrittenHolds(s: Space, addr: int, data: seq<byte>)
    requires forall a :: InRange(a, addr, |data|) ==> a in s.mem
    ensures Holds(Written(s, addr, data).mem, addr, data)
  {
  }

  lemma WrittenKeeps(s: Space, addr: int, data: seq<byte>, a: int, d: seq<byte>)
    requires Holds(s.mem, a, d) && (a + |d| <= addr || addr + |data| <= a)
    ensures Holds(Written(s, addr, data).mem, a, d)
  {
  }

  /** Table entry j of the block at `at` and its string are in place. */
  ghost predicate Placed(mem: map<int, byte>, at: int, envp: seq<Text>, j: nat)
    requires j < |envp|
  {
    var pos := TextPos(at, envp, j);
    0 < pos < WORD && HoldsWord(mem, at + 8 * j, pos) && Holds(mem, pos, envp[j] + [0])
  }

  ghost predicate Laid(mem: map<int, byte>, at: int, envp: seq<Text>, i: nat)
    requires i <= |envp|
  {
    forall j :: 0 <= j < i ==> Placed(mem, at, envp, j)
  }

  ghost predicate BlockMapped(mem: map<int, byte>, at: int, envp: seq<Text>) {
    forall a :: InRange(a, at, BlockSize(envp)) ==> a in mem
  }

  lemma PlacedKept(s: Space, at: int, envp: seq<Text>, j: nat, addr: int, data: seq<byte>)
    requires j < |envp| && Placed(s.mem, at, envp, j)
    requires at + 8 * j + 8 <= addr || addr + |data| <= at + 8 * j
    requires TextPos(at, envp, j) + |envp[j]| + 1 <= addr || addr + |data| <= TextPos(at, envp, j)
    ensures Placed(Written(s, addr, data).mem, at, envp, j)
  {
    WrittenKeeps(s, addr, data, at + 8 * j, Le64(TextPos(at, envp, j)));
    WrittenKeeps(s, addr, data, TextPos(at, envp, j), envp[j] + [0]);
  }

  /** Writes at or behind string i leave the first i entries alone. */
  lemma LaidUnderText(s: Space, at: int, envp: seq<Text>, i: nat, addr: int, data: seq<byte>)
    requires i <= |envp| && Laid(s.mem, at, envp, i) && TextPos(at, envp, i) <= addr
    ensures Laid(Written(s, addr, data).mem, at, envp, i)
  {
    LayoutIsDisjoint(at, envp);
    forall j | 0 <= j < i ensures Placed(Written(s, addr, data).mem, at, envp, j) {
      PlacedKept(s, at, envp, j, addr, data);
    }
  }

  /** So does the word in table entry i. */
  lemma LaidUnderPointer(s: Space, at: int, envp: seq<Text>, i: nat, v: u64)
    requires i <= |envp| && Laid(s.mem, at, envp, i)
    ensures Laid(Written(s, at + 8 * i, Le64(v)).mem, at, envp, i)
  {
    LayoutIsDisjoint(at, envp);
    var mem := Written(s, at + 8 * i, Le64(v)).mem;
    forall j | 0 <= j < i ensures Placed(mem, at, envp, j) {
      PlacedKept(s, at, envp, j, at + 8 * i, Le64(v));
    }
  }

  /** And so does anything written outside the block. */
  lemma LaidUnderOutside(s: Space, at: int, envp: seq<Text>, i: nat, addr: int, data: seq<byte>)
    requires i <= |envp| && Laid(s.mem, at, envp, i)
    requires addr + |data| <= at || at + BlockSize(envp) <= addr
    ensures Laid(Written(s, addr, data).mem, at, envp, i)
  {
    LayoutIsDisjoint(at, envp);
    forall j | 0 <= j < i ensures Placed(Written(s, addr, data).mem, at, envp, j) {
      PlacedKept(s, at, envp, j, addr, data);
    }
  }

  lemma TextPosStep(at: int, envp: seq<Text>, i: nat)
    requires i < |envp|
    ensures TextPos(at, envp, i + 1) == TextPos(at, envp, i) + |envp[i]| + 1
    ensures at <= TextPos(at, envp, i) && TextPos(at, envp, i + 1) <= at + BlockSize(envp)
  {
    LayoutIsDisjoint(at, envp);
    assert envp[..i + 1][..i] == envp[..i];
    assert i + 1 < |envp| ==> TextPos(at, envp, i + 1) < TextPos(at, envp, |envp|);
  }

  lemma PlacedNow(s: Space, at: int, envp: seq<Text>, i: nat, pos: u64)
    requires i < |envp| && 0 < pos == TextPos(at, envp, i) && BlockMapped(s.mem, at, envp)
    ensures Placed(Written(Written(s, pos, envp[i] + [0]), at + 8 * i, Le64(pos)).mem, at, envp, i)
  {
    hide Le64, TextSize;
    TextPosStep(at, envp, i);
    var u := Written(s, pos, envp[i] + [0]);
    assert forall a :: InRange(a, pos, |envp[i] + [0]|) ==> InRange(a, at, BlockSize(envp));
    WrittenHolds(s, pos, envp[i] + [0]);
    assert forall a :: InRange(a, at + 8 * i, 8) ==> InRange(a, at, BlockSize(envp));
    WrittenHolds(u, at + 8 * i, Le64(pos));
    WrittenKeeps(u, at + 8 * i, Le64(pos), pos, envp[i] + [0]);
  }

  /** Writing string i and then its pointer extends the layout by one. */
  lemma LaidStep(s: Space, at: int, envp: seq<Text>, i: nat, pos: u64)
    requires i < |envp| && 0 < pos == TextPos(at, envp, i)
    requires Laid(s.mem, at, envp, i) && BlockMapped(s.mem, at, envp)
    ensures Laid(Written(Written(s, pos, envp[i] + [0]), at + 8 * i, Le64(pos)).mem, at, envp, i + 1)
  {
    LaidUnderText(s, at, envp, i, pos, envp[i] + [0]);
    LaidUnderPointer(Written(s, pos, envp[i] + [0]), at, envp, i, pos);
    PlacedNow(s, at, envp, i, pos);
  }

  /** A full table closed by a null pointer is the environment. */
  lemma LaidIsEnviron(mem: map<int, byte>, at: int, envp: seq<Text>)
    requires Laid(mem, at, envp, |envp|) && HoldsWord(mem, at + 8 * |envp|, 0)
    ensures IsEnviron(mem, at, envp)
  {
    forall i | 0 <= i < |envp| ensures EntryHolds(mem, at + 8 * i, envp[i]) {
      assert Placed(mem, at, envp, i);
    }
  }

  /** One round of the copy loop: the string, then the pointer to it. */
  method PlaceEntry(target: AddressSpace, at: int, size: nat, envp: seq<Text>, i: nat, pos: int, ghost before: Space)
    returns (ok: bool)
    requires 0 < at && BlockSize(envp) <= size && at + size <= WORD
    requires i < |envp| && pos == TextPos(at, envp, i)
    requires BlockMapped(target.s.mem, at, envp) && AgreeOutside(before, target.s, at, size)
    requires Laid(target.s.mem, at, envp, i)
    modifies target
    ensures AgreeOutside(before, target.s, at, size) && BlockMapped(target.s.mem, at, envp)
    ensures ok ==> Laid(target.s.mem, at, envp, i + 1)
    ensures target.clean ==> ok
  {
    hide Le64, TextSize, Placed;
    TextPosStep(at, envp, i);
    LaidStep(target.s, at, envp, i, pos);
    ok := CopyInside(target, at, size, pos, envp[i] + [0], before);
    if !ok {
      return;
    }
    ok := CopyInside(target, at, size, at + 8 * i, Le64(pos), before);
  }

  /** Stores the word behind the last entry. */
  method CloseTable(target: AddressSpace, at: int, size: nat, envp: seq<Text>, v: u64, ghost before: Space)
    returns (ok: bool)
    requires 0 < at && BlockSize(envp) <= size && at + size <= WORD
    requires BlockMapped(target.s.mem, at, envp) && AgreeOutside(before, target.s, at, size)
    requires Laid(target.s.mem, at, envp, |envp|)
    modifies target
    ensures AgreeOutside(before, target.s, at, size)
    ensures ok ==> Laid(target.s.mem, at, envp, |envp|) && HoldsWord(target.s.mem, at + 8 * |envp|, v)
    ensures target.clean ==> ok
  {
    TableEndHolds(target.s, at, envp, v);
    ok := CopyInside(target, at, size, at + 8 * |envp|, Le64(v), before);
  }

  /** Copies strings, pointers and the null terminator into the mapped block. */
  method FillBlock(target: AddressSpace, at: int, size: nat, envp: seq<Text>) returns (ok: bool)
    requires 0 < at && BlockSize(envp) <= size && at + size <= WORD
    requires BlockMapped(target.s.mem, at, envp)
    modifies target
    ensures AgreeOutside(old(target.s), target.s, at, size)
    ensures ok ==> Laid(target.s.mem, at, envp, |envp|) && HoldsWord(target.s.mem, at + 8 * |envp|, 0)
    ensures target.clean ==> ok
  {
    var pos := at + (|envp| + 1) * 8;
    var i := 0;
    while i < |envp|
      invariant 0 <= i <= |envp|
      invariant pos == TextPos(at, envp, i)
      invariant AgreeOutside(old(target.s), target.s, at, size)
      invariant Laid(target.s.mem, at, envp, i) && BlockMapped(target.s.mem, at, envp)
    {
      ok := PlaceEntry(target, at, size, envp, i, pos, old(target.s));
      if !ok {
        return;
      }
      TextPosStep(at, envp, i);
      pos := pos + |envp[i]| + 1;
      i := i + 1;
    }
    ok := CloseTable(target, at, size, envp, 0, old(target.s));
  }

  lemma TableEndHolds(s: Space, at: int, envp: seq<Text>, v: u64)
    requires Laid(s.mem, at, envp, |envp|) && BlockMapped(s.mem, at, envp)
    ensures Laid(Written(s, at + 8 * |envp|, Le64(v)).mem, at, envp, |envp|)
    ensures HoldsWord(Written(s, at + 8 * |envp|, Le64(v)).mem, at + 8 * |envp|, v)
  {
    LaidUnderPointer(s, at, envp, |envp|, v);
    assert forall a :: InRange(a, at + 8 * |envp|, 8) ==> InRange(a, at, BlockSize(envp));
    WrittenHolds(s, at + 8 * |envp|, Le64(v));
  }

  /** A copy that stays inside the block keeps everything else. */
  method CopyInside(target: AddressSpace, at: int, size: nat, addr: int, data: seq<byte>, ghost before: Space)
    returns (ok: bool)
    requires at <= addr && addr + |data| <= at + size && AgreeOutside(before, target.s, at, size)
    modifies target
    ensures AgreeOutside(before, target.s, at, size)
    ensures ok ==> target.s == Written(old(target.s), addr, data)
    ensures target.clean ==> ok
  {
    ok := target.CopyIn(addr, data);
  }

  /** Equal but for the eight bytes of the `environ` variable. */
  ghost predicate SameButSlot(s: Space, t: Space, slot: int) {
    && s.prot == t.prot && s.mem.Keys == t.mem.Keys
    && forall a :: a in s.mem && !InRange(a, slot, 8) ==> s.mem[a] == t.mem[a]
  }

  lemma UnmapAfterSlotWrite(s: Space, t: Space, at: int, size: nat, slot: int, data: seq<byte>)
    requires Free(s, at, size) && AgreeOutside(Mapped(s, at, size), t, at, size) && |data| <= 8
    ensures SameButSlot(s, Unmapped(Written(t, slot, data), at, size), slot)
  {
    var u := Unmapped(Written(t, slot, data), at, size);
    UnmapRestoresIffFree(s, t, at, size);
    assert u.prot == Unmapped(t, at, size).prot;
    assert u.mem.Keys == Unmapped(t, at, size).mem.Keys;
    forall a | a in s.mem && !InRange(a, slot, 8) ensures s.mem[a] == u.mem[a] {
      assert s.mem[a] == Unmapped(t, at, size).mem[a];
    }
  }

  /** A block of `size` bytes was added at `at`, where nothing had been, and
      besides it only `environ` was written. */
  ghost predicate AddsBlock(before: Space, after: Space, at: int, size: nat, slot: int) {
    && Free(before, at, size) && PagesOf(at, size) <= after.prot.Keys && AddressesOf(at, size) <= after.mem.Keys
    && SameButSlot(before, Unmapped(after, at, size), slot)
  }

  lemma WriteNothing(s: Space, slot: int)
    ensures Written(s, slot, []) == s
  {
    assert Written(s, slot, []).mem == s.mem;
  }

  /** `slot` is the address the symbol `environ` resolves to, 0 if it does not;
      a resolved symbol lies in memory the target already has. `at` is where the
      block was put, -1 if nowhere, and `gone` whether it was removed again. */
  method SetEnviron(target: AddressSpace, envp: seq<Text>, slot: u64) returns (rc: int, ghost at: int, ghost gone: bool)
    requires BlockSize(envp) + PAGE - 1 < WORD
    requires slot != 0 ==> forall a :: InRange(a, slot, 8) ==> a in target.s.mem
    modifies target
    ensures rc == 0 || rc == -1
    ensures envp == [] ==> rc == 0 && target.s == old(target.s)
    // success: `environ` points at a block that reads back as envp
    ensures rc == 0 && envp != [] ==>
      0 < at < WORD && HoldsWord(target.s.mem, slot, at) && IsEnviron(target.s.mem, at, envp)
      && AddsBlock(old(target.s), target.s, at, RoundPg(BlockSize(envp)), slot)
    // failure: the block is gone and nothing else but `environ` was written; it
    // stays only if pt_mmap took effect and reported a failure, or pt_munmap failed
    ensures rc == -1 && at == -1 ==> target.s == old(target.s)
    // it does not fail if there is room, the symbol resolves and no call fails
    ensures target.clean && slot != 0 && HasRoom(old(target.s), RoundPg(BlockSize(envp))) ==> rc == 0
    ensures rc == -1 && at != -1 && gone ==> SameButSlot(old(target.s), target.s, slot)
    ensures rc == -1 && at != -1 && !gone ==> AddsBlock(old(target.s), target.s, at, RoundPg(BlockSize(envp)), slot)
  {
    at, gone := -1, false;
    if envp == [] {
      rc := 0;
      return;
    }
    var size, _ := ComputeSize(envp);
    RoundPgLeast(size);
    size := RoundPg(size);
    rc := -1;
    var block: int;
    block, at := target.MapRemote(0, size, false);
    hide RoundPg, HasRoom, AddsBlock, SameButSlot, Free, Mapped, Unmapped, AgreeOutside, IsEnviron, HoldsWord, Laid, BlockMapped, Written, Le64;
    if at != -1 {
      BlockAddedEmpty(old(target.s), at, size, slot, envp);
    }
    if block == -1 {
      return;
    }
    var ok := FillBlock(target, block, size, envp);
    ghost var filled := target.s;
    FilledBlock(old(target.s), filled, block, size, slot);
    if !ok || slot == 0 {
      gone := target.UnmapRemote(block, size);
      return;
    }
    SlotWritePublishes(old(target.s), filled, block, size, envp, slot);
    SlotWritten(old(target.s), filled, block, size, slot, Le64(block));
    ok := target.CopyIn(slot, Le64(block));
    if !ok {
      ghost var k: nat :| k <= 8 && target.s == Written(filled, slot, Le64(block)[..k]);
      SlotWritten(old(target.s), filled, block, size, slot, Le64(block)[..k]);
      gone := target.UnmapRemote(block, size);
      return;
    }
    rc := 0;
  }

  lemma BlockAddedEmpty(s: Space, at: int, size: nat, slot: int, envp: seq<Text>)
    requires Free(s, at, size) && BlockSize(envp) <= size
    ensures AddsBlock(s, Mapped(s, at, size), at, size, slot)
    ensures AgreeOutside(Mapped(s, at, size), Mapped(s, at, size), at, size)
    ensures BlockMapped(Mapped(s, at, size).mem, at, envp)
  {
    var m := Mapped(s, at, size);
    FilledBlock(s, m, at, size, slot);
    assert forall a :: InRange(a, at, BlockSize(envp)) ==> InRange(a, at, size) && a in AddressesOf(at, size);
  }

  lemma SlotWritten(s: Space, t: Space, at: int, size: nat, slot: int, data: seq<byte>)
    requires Free(s, at, size) && AgreeOutside(Mapped(s, at, size), t, at, size) && |data| <= 8
    ensures AddsBlock(s, Written(t, slot, data), at, size, slot)
    ensures SameButSlot(s, Unmapped(Written(t, slot, data), at, size), slot)
  {
    UnmapAfterSlotWrite(s, t, at, size, slot, data);
  }

  lemma FilledBlock(s: Space, t: Space, at: int, size: nat, slot: int)
    requires Free(s, at, size) && AgreeOutside(Mapped(s, at, size), t, at, size)
    ensures AddsBlock(s, t, at, size, slot) && SameButSlot(s, Unmapped(t, at, size), slot)
  {
    hide AddsBlock, SameButSlot, Free, AgreeOutside, Mapped, Unmapped;
    WriteNothing(t, slot);
    SlotWritten(s, t, at, size, slot, []);
  }

  lemma SlotOutside(s: Space, at: int, size: nat, slot: int)
    requires Free(s, at, size) && 8 <= size
    requires forall a :: InRange(a, slot, 8) ==> a in s.mem
    ensures slot + 8 <= at || at + size <= slot
  {
    var a := if slot <= at then at else slot;
    assert InRange(a, slot, 8) && InRange(a, at, size) ==> a in s.mem.Keys && a in AddressesOf(at, size);
  }

  lemma SlotStillMapped(s: Space, t: Space, at: int, size: nat, slot: int)
    requires AgreeOutside(Mapped(s, at, size), t, at, size)
    requires forall a :: InRange(a, slot, 8) ==> a in s.mem
    ensures forall a :: InRange(a, slot, 8) ==> a in t.mem
  {
  }

  /** Storing the block's address in `environ` publishes the environment. */
  lemma SlotWritePublishes(before: Space, filled: Space, at: u64, size: nat, envp: seq<Text>, slot: int)
    requires Free(before, at, size) && AgreeOutside(Mapped(before, at, size), filled, at, size)
    requires forall a :: InRange(a, slot, 8) ==> a in before.mem
    requires BlockSize(envp) <= size
    requires Laid(filled.mem, at, envp, |envp|) && HoldsWord(filled.mem, at + 8 * |envp|, 0)
    ensures HoldsWord(Written(filled, slot, Le64(at)).mem, slot, at)
    ensures IsEnviron(Written(filled, slot, Le64(at)).mem, at, envp)
  {
    hide Le64, TextSize, Placed;
    SlotOutside(before, at, size, slot);
    SlotStillMapped(before, filled, at, size, slot);
    WrittenHolds(filled, slot, Le64(at));
    LaidUnderOutside(filled, at, envp, |envp|, slot, Le64(at));
    WordKept(filled, slot, at, at + 8 * |envp|, 0);
    LaidIsEnviron(Written(filled, slot, Le64(at)).mem, at, envp);
  }

  lemma WordKept(s: Space, slot: int, v: u64, addr: int, w: u64)
    requires HoldsWord(s.mem, addr, w) && (addr + 8 <= slot || slot + 8 <= addr)
    ensures HoldsWord(Written(s, slot, Le64(v)).mem, addr, w)
  {
    WrittenKeeps(s, slot, Le64(v), addr, Le64(w));
  }
}
