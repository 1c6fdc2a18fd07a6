/** elfldr_load: reserve a region in the target, fill it with the image, set
    page protections, and undo the mappings when any call fails. */
module ElfLoader {
  import opened Words
  import opened AddressSpaces
  import opened ElfImage

  const ET_EXEC := 2
  const ET_DYN := 3

  // ---------------------------------------------------------------- protections

  /** PFLAGS: bit 2 of p_flags is read, bit 1 write, bit 0 execute. */
  function ProtOf(flags: nat): Prot {
    Prot(flags / 4 % 2 == 1, flags / 2 % 2 == 1, flags % 2 == 1)
  }

  predicate Protects(ph: Phdr) {
    ph.pType == PT_LOAD && ph.memsz != 0
  }

  predicate ProtectsPage(ph: Phdr, base: u64, p: int) {
    Protects(ph) && PageTouches(p, Wrap(base + ph.vaddr), RoundPg(ph.memsz))
  }

  /** Protection of page `p` after the loop over `phdrs`: the last call wins. */
  function ProtAfter(phdrs: seq<Phdr>, base: u64, p: int, under: Prot): Prot {
    if phdrs == [] then under else
      var ph := phdrs[|phdrs| - 1];
      if ProtectsPage(ph, base, p) then ProtOf(ph.flags)
      else ProtAfter(phdrs[..|phdrs| - 1], base, p, under)
  }

  method ProtectSegments(target: AddressSpace, phdrs: seq<Phdr>, base: u64)
    returns (error: bool, ghost done: nat)
    modifies target
    ensures done <= |phdrs| && (!error ==> done == |phdrs|) && (target.clean ==> !error)
    ensures target.s.mem == old(target.s.mem)
    ensures target.s.prot.Keys == old(target.s.prot.Keys)
    ensures forall p :: p in target.s.prot ==>
      target.s.prot[p] == ProtAfter(phdrs[..done], base, p, old(target.s.prot[p]))
  {
    error, done := false, 0;
    var i := 0;
    while i < |phdrs| && !error
      invariant 0 <= i <= |phdrs| && done <= i && (!error ==> done == i) && (target.clean ==> !error)
      invariant target.s.mem == old(target.s.mem)
      invariant target.s.prot.Keys == old(target.s.prot.Keys)
      invariant forall p :: p in target.s.prot ==>
        target.s.prot[p] == ProtAfter(phdrs[..done], base, p, old(target.s.prot[p]))
    {
      var ph := phdrs[i];
      assert phdrs[..i + 1][..i] == phdrs[..i];
      if !(ph.pType != PT_LOAD || ph.memsz == 0) {
        var ok, took := target.Protect(Wrap(base + ph.vaddr), RoundPg(ph.memsz), ProtOf(ph.flags));
        if !ok {
          error := true;
        }
        done := if took then i + 1 else i;
      } else {
        done := i + 1;
      }
      i := i + 1;
    }
    assert !error ==> phdrs[..done] == phdrs;
  }

  /** No protection call reaches past a region of `size` bytes. */
  ghost predicate ProtectInside(phdrs: seq<Phdr>, size: int) {
    forall ph :: ph in phdrs && Protects(ph) ==> ph.vaddr + RoundPg(ph.memsz) <= size
  }

  lemma {:induction false} ProtAfterUntouched(phdrs: seq<Phdr>, base: u64, p: int, under: Prot)
    requires forall ph :: ph in phdrs ==> !ProtectsPage(ph, base, p)
    ensures ProtAfter(phdrs, base, p, under) == under
    decreases |phdrs|
  {
    if phdrs != [] {
      var n := |phdrs| - 1;
      assert phdrs == phdrs[..n] + [phdrs[n]];
      ProtAfterUntouched(phdrs[..n], base, p, under);
    }
  }

  lemma ProtectInsideTouches(ph: Phdr, base: u64, size: u64, p: int)
    requires base % PAGE == 0 && base + size <= WORD
    requires ph.vaddr + RoundPg(ph.memsz) <= size && ProtectsPage(ph, base, p)
    ensures p in PagesOf(base, size)
  {
    assert Wrap(base + ph.vaddr) == base + ph.vaddr;
    assert PageTouches(p, base, size);
  }

  lemma AlignedEnd(ph: Phdr, b: int)
    requires ph.vaddr % PAGE == 0 && b % PAGE == 0 && ph.memsz + PAGE - 1 < WORD
    requires ph.vaddr + ph.memsz <= b
    ensures ph.vaddr + RoundPg(ph.memsz) <= b
  {
    RoundPgLeast(ph.memsz);
    AlignedBelow(ph.vaddr + RoundPg(ph.memsz), b);
  }

  /** Every file with page-aligned segments and lowest page 0 is ProtectInside. */
  lemma AlignedIsProtectInside(phdrs: seq<Phdr>, lo: u64, hi: u64)
    requires NoWrap(phdrs) && IsSpan(phdrs, lo, hi) && TruncPg(lo) == 0
    requires forall ph :: ph in phdrs && Protects(ph) ==> ph.vaddr % PAGE == 0
    ensures ProtectInside(phdrs, RegionSize(lo, hi))
  {
    if phdrs != [] {
      SpanIsLeastEnclosing(phdrs, lo, hi);
      forall ph | ph in phdrs && Protects(ph)
        ensures ph.vaddr + RoundPg(ph.memsz) <= RoundPg(hi)
      {
        hide RoundPg, TruncPg, RegionSize;
        AlignedEnd(ph, RoundPg(hi));
      }
    }
  }

  /** The protected range starts at the untruncated vaddr but is ROUND_PG(memsz)
      long. It touches just the segment's own pages exactly when the segment is
      page aligned or the rounding adds less than the offset into the page. */
  lemma ProtectReachExactIff(vaddr: u64, memsz: u64)
    requires 0 < memsz && memsz + PAGE - 1 < WORD
    ensures (forall p: int :: PageTouches(p, vaddr, RoundPg(memsz)) <==> PageTouches(p, vaddr, memsz))
      <==> (vaddr % PAGE == 0 || RoundPg(memsz) - memsz < vaddr % PAGE)
  {
    RoundPgLeast(memsz);
    var len, last := RoundPg(memsz), (vaddr + RoundPg(memsz) - 1) / PAGE;
    assert PageTouches(last, vaddr, len);
    if vaddr % PAGE == 0 || len - memsz < vaddr % PAGE {
      assert last * PAGE < vaddr + memsz;
      forall p: int | PageTouches(p, vaddr, len)
        ensures PageTouches(p, vaddr, memsz)
      {
        assert p <= last;
      }
    } else {
      assert vaddr + memsz <= last * PAGE;
    }
  }

  ghost predicate PageDisjoint(phdrs: seq<Phdr>) {
    forall i, j :: 0 <= i < j < |phdrs| && Protects(phdrs[i]) && Protects(phdrs[j]) ==>
      || phdrs[i].vaddr + RoundPg(phdrs[i].memsz) <= phdrs[j].vaddr
      || phdrs[j].vaddr + RoundPg(phdrs[j].memsz) <= phdrs[i].vaddr
  }

  ghost predicate AlignedSegments(phdrs: seq<Phdr>) {
    forall ph :: ph in phdrs && Protects(ph) ==> ph.vaddr % PAGE == 0 && ph.memsz + PAGE - 1 < WORD
  }

  /** With aligned, page-disjoint segments every page of a segment ends with the
      segment's own flags ... */
  lemma SegmentPagesGetOwnFlags(phdrs: seq<Phdr>, base: u64, size: u64, i: nat, p: int, under: Prot)
    requires base % PAGE == 0 && base + size <= WORD
    requires AlignedSegments(phdrs) && PageDisjoint(phdrs) && ProtectInside(phdrs, size)
    requires i < |phdrs| && Protects(phdrs[i]) && PageTouches(p, base + phdrs[i].vaddr, phdrs[i].memsz)
    ensures ProtAfter(phdrs, base, p, under) == ProtOf(phdrs[i].flags)
  {
    assert phdrs[i] in phdrs;
    OwnPages(phdrs[i], base, size, p);
    forall j | 0 <= j < |phdrs| && ProtectsPage(phdrs[j], base, p) ensures j == i {
      assert phdrs[j] in phdrs;
      OwnPages(phdrs[j], base, size, p);
    }
    OnlyProtectorDecides(phdrs, base, p, under, i);
  }

  lemma {:induction false} OnlyProtectorDecides(phdrs: seq<Phdr>, base: u64, p: int, under: Prot, i: nat)
    requires i < |phdrs| && ProtectsPage(phdrs[i], base, p)
    requires forall j :: 0 <= j < |phdrs| && ProtectsPage(phdrs[j], base, p) ==> j == i
    ensures ProtAfter(phdrs, base, p, under) == ProtOf(phdrs[i].flags)
    decreases |phdrs|
  {
    var n := |phdrs| - 1;
    if i < n {
      OnlyProtectorDecides(phdrs[..n], base, p, under, i);
    }
  }

  lemma OwnPages(ph: Phdr, base: u64, size: u64, p: int)
    requires base % PAGE == 0 && base + size <= WORD
    requires Protects(ph) && ph.vaddr % PAGE == 0 && ph.memsz + PAGE - 1 < WORD
    requires ph.vaddr + RoundPg(ph.memsz) <= size
    ensures ProtectsPage(ph, base, p) <==> base + ph.vaddr <= p * PAGE < base + ph.vaddr + RoundPg(ph.memsz)
    ensures ProtectsPage(ph, base, p) <==> PageTouches(p, base + ph.vaddr, ph.memsz)
  {
    RoundPgLeast(ph.memsz);
    assert Wrap(base + ph.vaddr) == base + ph.vaddr;
  }

  /** ... and every other page of the region stays read-write. */
  lemma OtherPagesStayReadWrite(phdrs: seq<Phdr>, base: u64, size: u64, p: int)
    requires base % PAGE == 0 && base + size <= WORD
    requires AlignedSegments(phdrs) && ProtectInside(phdrs, size)
    requires forall ph :: ph in phdrs && Protects(ph) ==> !PageTouches(p, base + ph.vaddr, ph.memsz)
    ensures ProtAfter(phdrs, base, p, READ_WRITE) == READ_WRITE
  {
    forall ph | ph in phdrs ensures !ProtectsPage(ph, base, p) {
      if Protects(ph) {
        OwnPages(ph, base, size, p);
      }
    }
    ProtAfterUntouched(phdrs, base, p, READ_WRITE);
  }

  // ---------------------------------------------------------------- the loader

  /** Rejected: no mapping was reported. Unwound: mapped, then undone after a
      failure. The source returns 0 for both and the entry address otherwise. */
  datatype LoadResult = Rejected | Unwound | Loaded(base: u64, entry: u64)

  /** The magic number and one of the types 2 (executable) and 3 (shared). */
  predicate Accepted(elf: Elf) {
    |elf.ident| >= 4 && elf.ident[..4] == [0x7f, 0x45, 0x4c, 0x46] && (elf.eType == 2 || elf.eType == 3)
  }

  /** Both processes have room: anywhere for a shared object, and in the target at
      its own address for an executable. */
  ghost predicate RoomFor(target: Space, local: Space, elf: Elf, lo: u64, size: u64) {
    if elf.eType == 2 then IsRange(TruncPg(lo), size) else HasRoom(target, size) && HasRoom(local, size)
  }

  /** The target once the image is in place at `base`. */
  ghost predicate HoldsImage(before: Space, after: Space, elf: Elf, base: u64, size: u64) {
    && after.prot.Keys == before.prot.Keys + PagesOf(base, size)
    && after.mem.Keys == before.mem.Keys + AddressesOf(base, size)
    && (forall a :: InRange(a, base, size) ==> a in after.mem && after.mem[a] == ImageByte(elf, base, a - base))
    && (forall a :: a in before.mem && !InRange(a, base, size) ==> after.mem[a] == before.mem[a])
    && (forall p :: p in after.prot ==>
          var initial := if p in PagesOf(base, size) then READ_WRITE else before.prot[p];
          after.prot[p] == ProtAfter(elf.phdrs, base, p, initial))
  }

  /** Mirror, copy-in, protection loop and msync over a mapped region. `done` is
      how many protection steps were taken. */
  method PlaceImage(target: AddressSpace, elf: Elf, base: u64, size: u64) returns (error: bool, ghost done: nat)
    requires Fits(elf, size)
    modifies target
    ensures done <= |elf.phdrs| && (!error ==> done == |elf.phdrs|) && (target.clean ==> !error)
    ensures target.s.prot.Keys == old(target.s.prot.Keys) && target.s.mem.Keys == old(target.s.mem.Keys)
    ensures forall a :: a in target.s.mem && !InRange(a, base, size) ==> target.s.mem[a] == old(target.s.mem[a])
    ensures !error ==> forall a :: a in target.s.mem && InRange(a, base, size) ==>
      target.s.mem[a] == ImageByte(elf, base, a - base)
    ensures forall p :: p in target.s.prot ==>
      target.s.prot[p] == ProtAfter(elf.phdrs[..done], base, p, old(target.s.prot[p]))
  {
    hide ImageByte, Fits;
    var mirror := BuildMirror(elf, base, size);
    error, done := false, 0;
    var copied := target.CopyIn(base, mirror[..]);
    if !copied {
      error := true;
    }
    if !error {
      error, done := ProtectSegments(target, elf.phdrs, base);
    }
    var synced: bool := *;
    if !synced && !target.clean {
      error := true; // pt_msync failed
    }
  }

  /** `lo`, `hi` are the span of the headers, `at` where the target region was
      mapped (-1 if it was not) and `undone` whether the final pt_munmap took
      effect. Fits states what the unchecked memory copies of an accepted file
      need. */
  method ElfldrLoad(target: AddressSpace, local: AddressSpace, elf: Elf)
    returns (r: LoadResult, ghost lo: u64, ghost hi: u64, ghost at: int, ghost undone: bool)
    requires target != local
    requires forall lo, hi :: Accepted(elf) && IsSpan(elf.phdrs, lo, hi) ==> Fits(elf, RegionSize(lo, hi))
    modifies target, local
    ensures IsSpan(elf.phdrs, lo, hi)
    ensures !Accepted(elf) ==> r.Rejected? && at == -1
    // where the region went
    ensures !r.Rejected? ==> at != -1
    ensures at != -1 ==> IsRange(at, RegionSize(lo, hi))
    ensures at != -1 && elf.eType == ET_DYN ==> at > 0 && Free(old(target.s), at, RegionSize(lo, hi))
    ensures at != -1 && elf.eType == ET_EXEC ==> at == TruncPg(lo)
    // rejected: the target is unchanged, unless pt_mmap took effect and then
    // reported a failure, which leaves the empty region behind
    ensures r.Rejected? ==> target.s == if at == -1 then old(target.s) else Mapped(old(target.s), at, RegionSize(lo, hi))
    // success: one region more in the target, holding the image
    ensures r.Loaded? ==> r.base == at && r.entry == Wrap(at + elf.entry)
    ensures r.Loaded? ==> HoldsImage(old(target.s), target.s, elf, r.base, RegionSize(lo, hi))
    // failure after mapping: everything in the region is gone; what was there
    // before is back exactly when nothing had been there. If the unmapping itself
    // fails, the region stays and only it differs
    ensures r.Unwound? && undone ==> Unwinds(old(target.s), target.s, elf.phdrs, at, RegionSize(lo, hi))
    ensures r.Unwound? && !undone ==> Remains(old(target.s), target.s, elf.phdrs, at, RegionSize(lo, hi))
    // an accepted file is loaded if there is room and nothing fails
    ensures target.clean && local.clean && RoomFor(old(target.s), old(local.s), elf, lo, RegionSize(lo, hi)) ==>
      (Accepted(elf) <==> r.Loaded?)
    // no local mapping is left behind, whatever happens
    ensures elf.eType == ET_DYN || Free(old(local.s), 0, RegionSize(lo, hi)) ==> local.s == old(local.s)
  {
    hide ImageByte, ProtAfter, RegionSize, TruncPg, HoldsImage, Unwinds, Remains, IsSpan, Fits, Mapped, Unmapped, Free, HasRoom;
    var l, h := ComputeSpan(elf.phdrs);
    lo, hi, at, undone := l, h, -1, false;
    if !(|elf.ident| >= 4 && elf.ident[0] == 0x7f && elf.ident[1] == 0x45 &&
         elf.ident[2] == 0x4c && elf.ident[3] == 0x46) {
      r := Rejected;
      return;
    }
    var size := RegionSize(l, h);
    var hint, fixed := 0, false;
    if elf.eType == ET_EXEC {
      hint, fixed := TruncPg(l), true;
    } else if elf.eType != ET_DYN {
      r := Rejected;
      return;
    }
    var base: int;
    base, at := target.MapRemote(hint, size, fixed);
    if base == -1 {
      r := Rejected;
      return;
    }
    var mirrorAddr := local.MapAnonymous(0, size, fixed);
    if mirrorAddr == -1 {
      JustMappedRemains(old(target.s), elf.phdrs, base, size);
      UnwindRestores(old(target.s), target.s, elf.phdrs, base, size);
      undone := target.UnmapRemote(base, size);
      r := Unwound;
      return;
    }
    ghost var localMapped, done: nat := local.s, 0;
    var error: bool;
    error, done := PlaceImage(target, elf, base, size);
    local.Unmap(mirrorAddr, size);
    UnmapRestoresIffFree(old(local.s), localMapped, mirrorAddr, size);
    if error {
      PlacedRemains(old(target.s), target.s, elf.phdrs, base, size, done);
      UnwindRestores(old(target.s), target.s, elf.phdrs, base, size);
      undone := target.UnmapRemote(base, size);
      r := Unwound;
      return;
    }
    PlacedHoldsImage(old(target.s), target.s, elf, base, size);
    r := Loaded(base, Wrap(base + elf.entry));
  }

  lemma PlacedHoldsImage(before: Space, after: Space, elf: Elf, base: u64, size: u64)
    requires var m := Mapped(before, base, size);
      && m.prot.Keys == after.prot.Keys && m.mem.Keys == after.mem.Keys
      && (forall a :: a in m.mem && !InRange(a, base, size) ==> after.mem[a] == m.mem[a])
      && (forall a :: a in m.mem && InRange(a, base, size) ==> after.mem[a] == ImageByte(elf, base, a - base))
      && (forall p :: p in m.prot ==> after.prot[p] == ProtAfter(elf.phdrs[..|elf.phdrs|], base, p, m.prot[p]))
    ensures HoldsImage(before, after, elf, base, size)
  {
    hide ImageByte, ProtAfter;
    assert elf.phdrs[..|elf.phdrs|] == elf.phdrs;
  }

  /** The target after the region at `at` was mapped over `before` and partly used. */
  ghost predicate Remains(before: Space, after: Space, phdrs: seq<Phdr>, at: int, size: u64) {
    var m := Mapped(before, at, size);
    && m.prot.Keys == after.prot.Keys && m.mem.Keys == after.mem.Keys
    && (forall a :: a in m.mem && !InRange(a, at, size) ==> after.mem[a] == m.mem[a])
    && (ProtectInside(phdrs, size) ==> AgreeOutside(m, after, at, size))
  }

  /** And after it was unmapped again. */
  ghost predicate Unwinds(before: Space, after: Space, phdrs: seq<Phdr>, at: int, size: u64) {
    && after.mem == Unmapped(before, at, size).mem
    && after.prot.Keys == Unmapped(before, at, size).prot.Keys
    && (ProtectInside(phdrs, size) ==> (after == before <==> Free(before, at, size)))
  }

  lemma PlacedRemains(s: Space, t: Space, phdrs: seq<Phdr>, base: u64, size: u64, done: nat)
    requires base % PAGE == 0 && base + size <= WORD && done <= |phdrs|
    requires var m := Mapped(s, base, size);
      && m.prot.Keys == t.prot.Keys && m.mem.Keys == t.mem.Keys
      && (forall a :: a in m.mem && !InRange(a, base, size) ==> t.mem[a] == m.mem[a])
      && (forall p :: p in m.prot ==> t.prot[p] == ProtAfter(phdrs[..done], base, p, m.prot[p]))
    ensures Remains(s, t, phdrs, base, size)
  {
    hide ProtAfter;
    if ProtectInside(phdrs, size) {
      ProtectionsOutsideKept(phdrs, base, size, done, Mapped(s, base, size).prot, t.prot);
    }
  }

  lemma JustMappedRemains(s: Space, phdrs: seq<Phdr>, base: u64, size: u64)
    requires base % PAGE == 0 && base + size <= WORD
    ensures Remains(s, Mapped(s, base, size), phdrs, base, size)
  {
  }

  lemma UnwindRestores(s: Space, t: Space, phdrs: seq<Phdr>, base: u64, size: u64)
    requires Remains(s, t, phdrs, base, size)
    ensures Unwinds(s, Unmapped(t, base, size), phdrs, base, size)
  {
    hide Free;
    UnwindMappings(s, t, base, size);
    if ProtectInside(phdrs, size) {
      UnmapRestoresIffFree(s, t, base, size);
    }
  }

  lemma UnwindMappings(s: Space, t: Space, addr: int, len: int)
    requires t.prot.Keys == Mapped(s, addr, len).prot.Keys && t.mem.Keys == Mapped(s, addr, len).mem.Keys
    requires forall a :: a in s.mem && !InRange(a, addr, len) ==> s.mem[a] == t.mem[a]
    ensures Unmapped(t, addr, len).mem == Unmapped(s, addr, len).mem
    ensures Unmapped(t, addr, len).prot.Keys == Unmapped(s, addr, len).prot.Keys
  {
  }

  lemma ProtectionsOutsideKept(phdrs: seq<Phdr>, base: u64, size: u64, done: nat,
                               before: map<int, Prot>, after: map<int, Prot>)
    requires base % PAGE == 0 && base + size <= WORD && ProtectInside(phdrs, size) && done <= |phdrs|
    requires before.Keys == after.Keys
    requires forall p :: p in after ==> after[p] == ProtAfter(phdrs[..done], base, p, before[p])
    ensures forall p :: p in after && p !in PagesOf(base, size) ==> after[p] == before[p]
  {
    forall p | p in after && p !in PagesOf(base, size) ensures after[p] == before[p] {
      forall ph | ph in phdrs[..done] ensures !ProtectsPage(ph, base, p) {
        assert ph in phdrs;
        if ProtectsPage(ph, base, p) {
          ProtectInsideTouches(ph, base, size, p);
        }
      }
      ProtAfterUntouched(phdrs[..done], base, p, before[p]);
    }
  }

  // ---------------------------------------------------------------- every page of a load

  lemma LoadedPageIsProtAfter(before: Space, after: Space, elf: Elf, base: u64, size: u64, p: int)
    requires HoldsImage(before, after, elf, base, size) && p in PagesOf(base, size)
    ensures p in after.prot && after.prot[p] == ProtAfter(elf.phdrs, base, p, READ_WRITE)
  {
    hide ImageByte, ProtAfter;
  }

  /** A page of a loaded segment has the segment's own flags ... */
  lemma LoadedSegmentPage(before: Space, after: Space, elf: Elf, base: u64, size: u64, i: nat, p: int)
    requires HoldsImage(before, after, elf, base, size) && base % PAGE == 0 && base + size <= WORD
    requires AlignedSegments(elf.phdrs) && PageDisjoint(elf.phdrs) && ProtectInside(elf.phdrs, size)
    requires i < |elf.phdrs| && Protects(elf.phdrs[i])
    requires PageTouches(p, base + elf.phdrs[i].vaddr, elf.phdrs[i].memsz)
    ensures p in after.prot
    ensures var flags := elf.phdrs[i].flags;
      && (after.prot[p].exec <==> flags % 2 == 1) && (after.prot[p].write <==> flags / 2 % 2 == 1)
      && (after.prot[p].read <==> flags / 4 % 2 == 1)
  {
    hide HoldsImage, ProtAfter;
    var ph := elf.phdrs[i];
    assert ph in elf.phdrs;
    OwnPages(ph, base, size, p);
    ProtectInsideTouches(ph, base, size, p);
    SegmentPagesGetOwnFlags(elf.phdrs, base, size, i, p, READ_WRITE);
    LoadedPageIsProtAfter(before, after, elf, base, size, p);
  }

  /** ... and any other page of the loaded region is read-write. */
  lemma LoadedOtherPage(before: Space, after: Space, elf: Elf, base: u64, size: u64, p: int)
    requires HoldsImage(before, after, elf, base, size) && base % PAGE == 0 && base + size <= WORD
    requires AlignedSegments(elf.phdrs) && ProtectInside(elf.phdrs, size) && p in PagesOf(base, size)
    requires forall ph :: ph in elf.phdrs && Protects(ph) ==> !PageTouches(p, base + ph.vaddr, ph.memsz)
    ensures p in after.prot && after.prot[p].read && after.prot[p].write && !after.prot[p].exec
  {
    hide HoldsImage, ProtAfter;
    OtherPagesStayReadWrite(elf.phdrs, base, size, p);
    LoadedPageIsProtAfter(before, after, elf, base, size, p);
  }

  // ---------------------------------------------------------------- every byte of a load

  /** The file part of header i covers byte a: a PT_LOAD with something to copy. */
  ghost predicate SegmentAt(phdrs: seq<Phdr>, i: int, a: int) {
    && 0 <= i < |phdrs| && phdrs[i].pType == 1 && phdrs[i].memsz != 0
    && phdrs[i].vaddr <= a < phdrs[i].vaddr + phdrs[i].filesz
  }

  lemma LoadedByteIsImageByte(before: Space, after: Space, elf: Elf, base: u64, size: u64, a: int)
    requires HoldsImage(before, after, elf, base, size) && 0 <= a < size
    ensures base + a in after.mem && after.mem[base + a] == ImageByte(elf, base, a)
  {
    hide ImageByte, ProtAfter;
    assert InRange(base + a, base, size);
  }

  // Byte `a` of a loaded region comes ...

  /** ... from the last entry, over all RELA sections in order, that is a relative
      relocation with a slot over it, as B + A in little-endian order; */
  lemma LoadedFromRelocation(before: Space, after: Space, elf: Elf, base: u64, size: u64, a: int, i: nat, j: nat)
    requires HoldsImage(before, after, elf, base, size) && 0 <= a < size
    requires LastSlotAt(elf.shdrs, i, j, a)
    ensures base + a in after.mem
    ensures var r := elf.shdrs[i].relas[j];
      after.mem[base + a] == Le64(Wrap(base + r.addend))[a - r.offset]
  {
    LoadedByteIsImageByte(before, after, elf, base, size, a);
    hide HoldsImage, Le64, AllRelatives, RelocatedByte;
    ByteOfLastSlot(elf.shdrs, base, a, SegmentByte(elf.phdrs, elf.file, a), i, j);
  }

  /** ... else from the file part of the last segment that covers it; */
  lemma LoadedFromSegment(before: Space, after: Space, elf: Elf, base: u64, size: u64, a: int, i: nat)
    requires HoldsImage(before, after, elf, base, size) && Fits(elf, size) && 0 <= a < size
    requires NoSlotAt(elf.shdrs, a) && SegmentAt(elf.phdrs, i, a) && forall k :: SegmentAt(elf.phdrs, k, a) ==> k <= i
    ensures base + a in after.mem
    ensures var o := elf.phdrs[i].offset + a - elf.phdrs[i].vaddr;
      0 <= o < |elf.file| && after.mem[base + a] == elf.file[o]
  {
    LoadedByteIsImageByte(before, after, elf, base, size, a);
    hide HoldsImage, AllRelatives, RelocatedByte, SegmentByte;
    ByteOfNoSlot(elf.shdrs, base, a, SegmentByte(elf.phdrs, elf.file, a));
    assert forall k :: 0 <= k < |elf.phdrs| && SegmentCovers(elf.phdrs[k], a) ==> SegmentAt(elf.phdrs, k, a);
    SegmentByteOfLastCover(elf.phdrs, elf.file, size, a, i);
  }

  /** ... else it is zero. */
  lemma LoadedAsZero(before: Space, after: Space, elf: Elf, base: u64, size: u64, a: int)
    requires HoldsImage(before, after, elf, base, size) && 0 <= a < size
    requires NoSlotAt(elf.shdrs, a) && forall k :: !SegmentAt(elf.phdrs, k, a)
    ensures base + a in after.mem && after.mem[base + a] == 0
  {
    LoadedByteIsImageByte(before, after, elf, base, size, a);
    hide HoldsImage, AllRelatives, RelocatedByte, SegmentByte;
    ByteOfNoSlot(elf.shdrs, base, a, SegmentByte(elf.phdrs, elf.file, a));
    assert forall k :: 0 <= k < |elf.phdrs| && SegmentCovers(elf.phdrs[k], a) ==> SegmentAt(elf.phdrs, k, a);
    SegmentByteUncovered(elf.phdrs, elf.file, a);
  }
}
