/** The image the loader builds: the span of the program headers, the copied
    segments and the applied relocations (shsrv/elfldr.c). */
module ElfImage {
  import opened Words

  const PT_LOAD := 1
  const SHT_RELA := 4
  const R_X86_64_RELATIVE := 8

  datatype Phdr = Phdr(pType: nat, flags: nat, offset: u64, vaddr: u64, filesz: u64, memsz: u64)
  datatype Rela = Rela(offset: u64, info: u64, addend: int)
  /** A section header together with the Elf64_Rela entries it spans. */
  datatype Shdr = Shdr(shType: nat, relas: seq<Rela>)
  datatype Elf = Elf(ident: seq<byte>, eType: nat, entry: u64,
                     phdrs: seq<Phdr>, shdrs: seq<Shdr>, file: seq<byte>)

  // ---------------------------------------------------------------- span

  function End(ph: Phdr): u64 {
    Wrap(ph.vaddr + ph.memsz)
  }

  /** The least vaddr and greatest end, as the loop finds them. With no header
      the loop's initial values remain: -1 and 0. */
  ghost predicate IsSpan(phdrs: seq<Phdr>, lo: u64, hi: u64) {
    && (forall ph :: ph in phdrs ==> lo <= ph.vaddr && End(ph) <= hi)
    && (lo == WORD - 1 || exists ph :: ph in phdrs && lo == ph.vaddr)
    && (hi == 0 || exists ph :: ph in phdrs && hi == End(ph))
  }

  method ComputeSpan(phdrs: seq<Phdr>) returns (lo: u64, hi: u64)
    ensures IsSpan(phdrs, lo, hi)
  {
    lo, hi := WORD - 1, 0;
    var i := 0;
    while i < |phdrs|
      invariant 0 <= i <= |phdrs|
      invariant IsSpan(phdrs[..i], lo, hi)
    {
      assert phdrs[..i + 1] == phdrs[..i] + [phdrs[i]];
      if phdrs[i].vaddr < lo {
        lo := phdrs[i].vaddr;
      }
      if hi < End(phdrs[i]) {
        hi := End(phdrs[i]);
      }
      i := i + 1;
    }
    assert phdrs[..i] == phdrs;
  }

  /** Size of the region the loader reserves for a span. */
  function RegionSize(lo: u64, hi: u64): u64 {
    Wrap(RoundPg(hi) - TruncPg(lo))
  }

  /** No header's end, nor its rounding up to a page, leaves the address space. */
  ghost predicate NoWrap(phdrs: seq<Phdr>) {
    forall ph :: ph in phdrs ==> ph.vaddr + ph.memsz + PAGE - 1 < WORD
  }

  /** [a, b) is page aligned and holds the memory range of every header. */
  ghost predicate Encloses(phdrs: seq<Phdr>, a: int, b: int) {
    && a % PAGE == 0 && b % PAGE == 0
    && forall ph :: ph in phdrs ==> a <= ph.vaddr && ph.vaddr + ph.memsz <= b
  }

  lemma SpanAttained(phdrs: seq<Phdr>, lo: u64, hi: u64) returns (low: Phdr, top: Phdr)
    requires phdrs != [] && IsSpan(phdrs, lo, hi)
    ensures low in phdrs && lo == low.vaddr
    ensures top in phdrs && hi == End(top)
  {
    assert phdrs[0] in phdrs;
    low :| low in phdrs && lo == low.vaddr;
    top :| top in phdrs && hi == End(top);
  }

  lemma EndExact(ph: Phdr)
    requires ph.vaddr + ph.memsz < WORD
    ensures End(ph) == ph.vaddr + ph.memsz
  {
  }

  lemma SpanDoesNotWrap(phdrs: seq<Phdr>, lo: u64, hi: u64)
    requires phdrs != [] && NoWrap(phdrs) && IsSpan(phdrs, lo, hi)
    ensures lo <= hi && hi + PAGE - 1 < WORD
  {
    hide End;
    var low, top := SpanAttained(phdrs, lo, hi);
    EndExact(top);
  }

  lemma SpanEncloses(phdrs: seq<Phdr>, lo: u64, hi: u64)
    requires phdrs != [] && NoWrap(phdrs) && IsSpan(phdrs, lo, hi)
    ensures Encloses(phdrs, TruncPg(lo), RoundPg(hi))
  {
    hide End, RoundPg, TruncPg;
    SpanDoesNotWrap(phdrs, lo, hi);
    RoundPgLeast(hi);
    HullSize(lo, hi);
    forall ph | ph in phdrs
      ensures TruncPg(lo) <= ph.vaddr && ph.vaddr + ph.memsz <= RoundPg(hi)
    {
      EndExact(ph);
    }
  }

  lemma SpanIsLeast(phdrs: seq<Phdr>, lo: u64, hi: u64, a: int, b: int)
    requires phdrs != [] && NoWrap(phdrs) && IsSpan(phdrs, lo, hi) && Encloses(phdrs, a, b)
    ensures a <= TruncPg(lo) && RoundPg(hi) <= b
  {
    hide End, RoundPg, TruncPg;
    var low, top := SpanAttained(phdrs, lo, hi);
    SpanDoesNotWrap(phdrs, lo, hi);
    EndExact(top);
    AlignedHull(lo, hi, a, b);
  }

  /** The rounded span is the least page-aligned interval around all headers. */
  lemma SpanIsLeastEnclosing(phdrs: seq<Phdr>, lo: u64, hi: u64)
    requires phdrs != [] && NoWrap(phdrs) && IsSpan(phdrs, lo, hi)
    ensures Encloses(phdrs, TruncPg(lo), RoundPg(hi))
    ensures forall a, b :: Encloses(phdrs, a, b) ==> a <= TruncPg(lo) && RoundPg(hi) <= b
    ensures RegionSize(lo, hi) == RoundPg(hi) - TruncPg(lo)
  {
    SpanDoesNotWrap(phdrs, lo, hi);
    HullSize(lo, hi);
    SpanEncloses(phdrs, lo, hi);
    hide *;
    forall a, b | Encloses(phdrs, a, b)
      ensures a <= TruncPg(lo) && RoundPg(hi) <= b
    {
      SpanIsLeast(phdrs, lo, hi, a, b);
    }
  }

  // ---------------------------------------------------------------- segments

  /** The headers for which pt_load copies something. */
  predicate Copies(ph: Phdr) {
    ph.pType == PT_LOAD && ph.memsz != 0 && ph.filesz != 0
  }

  predicate SegmentCovers(ph: Phdr, a: int) {
    Copies(ph) && ph.vaddr <= a < ph.vaddr + ph.filesz
  }

  /** What the unchecked copies ask of a file and a mirror of `size` bytes. */
  predicate SegmentFits(ph: Phdr, file: seq<byte>, size: int) {
    Copies(ph) ==> ph.offset + ph.filesz <= |file| && ph.vaddr + ph.filesz <= size
  }

  ghost predicate SegmentsFit(phdrs: seq<Phdr>, file: seq<byte>, size: int) {
    forall ph :: ph in phdrs ==> SegmentFits(ph, file, size)
  }

  /** Byte `a` of the mirror once the segments are copied: the last one wins. */
  function SegmentByte(phdrs: seq<Phdr>, file: seq<byte>, a: int): byte {
    if phdrs == [] then 0 else
      var ph := phdrs[|phdrs| - 1];
      if SegmentCovers(ph, a) && 0 <= ph.offset + a - ph.vaddr < |file|
      then file[ph.offset + a - ph.vaddr]
      else SegmentByte(phdrs[..|phdrs| - 1], file, a)
  }

  method PtLoad(mirror: array<byte>, file: seq<byte>, ph: Phdr)
    requires ph.pType == PT_LOAD && SegmentFits(ph, file, mirror.Length)
    modifies mirror
    ensures forall a :: 0 <= a < mirror.Length ==>
      mirror[a] == if SegmentCovers(ph, a) then file[ph.offset + a - ph.vaddr] else old(mirror[a])
  {
    if ph.memsz == 0 {
      return;
    }
    if ph.filesz == 0 {
      return;
    }
    forall a | ph.vaddr <= a < ph.vaddr + ph.filesz {
      mirror[a] := file[ph.offset + a - ph.vaddr];
    }
  }

  method LoadSegments(mirror: array<byte>, file: seq<byte>, phdrs: seq<Phdr>)
    requires SegmentsFit(phdrs, file, mirror.Length)
    requires forall a :: 0 <= a < mirror.Length ==> mirror[a] == 0
    modifies mirror
    ensures forall a :: 0 <= a < mirror.Length ==> mirror[a] == SegmentByte(phdrs, file, a)
  {
    var i := 0;
    while i < |phdrs|
      invariant 0 <= i <= |phdrs|
      invariant forall a :: 0 <= a < mirror.Length ==> mirror[a] == SegmentByte(phdrs[..i], file, a)
    {
      assert phdrs[..i + 1][..i] == phdrs[..i];
      assert phdrs[i] in phdrs;
      if phdrs[i].pType == PT_LOAD {
        PtLoad(mirror, file, phdrs[i]);
      }
      i := i + 1;
    }
    assert phdrs[..i] == phdrs;
  }

  /** The gABI reading of SegmentByte: the file byte of the last header whose
      file part covers `a` ... */
  lemma {:induction false} SegmentByteOfLastCover(phdrs: seq<Phdr>, file: seq<byte>, size: int, a: int, i: nat)
    requires SegmentsFit(phdrs, file, size)
    requires i < |phdrs| && SegmentCovers(phdrs[i], a)
    requires forall k :: i < k < |phdrs| ==> !SegmentCovers(phdrs[k], a)
    ensures 0 <= phdrs[i].offset + a - phdrs[i].vaddr < |file|
    ensures SegmentByte(phdrs, file, a) == file[phdrs[i].offset + a - phdrs[i].vaddr]
    decreases |phdrs|
  {
    var n := |phdrs| - 1;
    assert phdrs[i] in phdrs;
    if i < n {
      assert phdrs == phdrs[..n] + [phdrs[n]];
      SegmentByteOfLastCover(phdrs[..n], file, size, a, i);
    }
  }

  /** ... and zero where no file part does. */
  lemma {:induction false} SegmentByteUncovered(phdrs: seq<Phdr>, file: seq<byte>, a: int)
    requires forall ph :: ph in phdrs ==> !SegmentCovers(ph, a)
    ensures SegmentByte(phdrs, file, a) == 0
    decreases |phdrs|
  {
    if phdrs != [] {
      var n := |phdrs| - 1;
      assert phdrs == phdrs[..n] + [phdrs[n]];
      SegmentByteUncovered(phdrs[..n], file, a);
    }
  }

  // ---------------------------------------------------------------- relocations

  predicate IsRelative(r: Rela) {
    r.info % 0x1_0000_0000 == R_X86_64_RELATIVE
  }

  predicate SlotCovers(r: Rela, a: int) {
    r.offset <= a < r.offset + 8
  }

  /** What a R_X86_64_RELATIVE relocation stores: B + A. */
  function Relocated(base: u64, r: Rela): u64 {
    Wrap(base + r.addend)
  }

  function Relatives(relas: seq<Rela>): seq<Rela> {
    if relas == [] then [] else
      var r := relas[|relas| - 1];
      Relatives(relas[..|relas| - 1]) + (if IsRelative(r) then [r] else [])
  }

  /** All relative relocations in the order the section loop meets them. */
  function AllRelatives(shdrs: seq<Shdr>): seq<Rela> {
    if shdrs == [] then [] else
      var sh := shdrs[|shdrs| - 1];
      AllRelatives(shdrs[..|shdrs| - 1]) + (if sh.shType == SHT_RELA then Relatives(sh.relas) else [])
  }

  ghost predicate SlotsFit(relas: seq<Rela>, size: int) {
    forall r :: r in relas ==> r.offset + 8 <= size
  }

  /** Byte `a` after storing `relas` in order over a byte `under`. */
  function RelocatedByte(relas: seq<Rela>, base: u64, a: int, under: byte): byte {
    if relas == [] then under else
      var r := relas[|relas| - 1];
      if SlotCovers(r, a) then Le64(Relocated(base, r))[a - r.offset]
      else RelocatedByte(relas[..|relas| - 1], base, a, under)
  }

  method RRelative(mirror: array<byte>, base: u64, r: Rela)
    requires r.offset + 8 <= mirror.Length
    modifies mirror
    ensures forall a :: 0 <= a < mirror.Length ==>
      mirror[a] == if SlotCovers(r, a) then Le64(Relocated(base, r))[a - r.offset] else old(mirror[a])
  {
    var val := Le64(Relocated(base, r));
    forall k | 0 <= k < 8 {
      mirror[r.offset + k] := val[k];
    }
  }

  lemma RelocatedByteAppend(relas: seq<Rela>, r: Rela, base: u64, a: int, under: byte)
    ensures RelocatedByte(relas + [r], base, a, under)
      == if SlotCovers(r, a) then Le64(Relocated(base, r))[a - r.offset]
         else RelocatedByte(relas, base, a, under)
  {
    assert (relas + [r])[..|relas|] == relas;
  }

  /** The inner loop over one section, continuing from the relocations `done`. */
  method RelocateSection(mirror: array<byte>, base: u64, relas: seq<Rela>,
                         ghost done: seq<Rela>, ghost image: seq<byte>)
    requires SlotsFit(Relatives(relas), mirror.Length)
    requires HoldsRelocated(mirror[..], done, base, image)
    modifies mirror
    ensures HoldsRelocated(mirror[..], done + Relatives(relas), base, image)
  {
    var j := 0;
    assert done + Relatives(relas[..0]) == done;
    hide RelocatedByte, Le64, Relocated, HoldsRelocated;
    while j < |relas|
      invariant 0 <= j <= |relas|
      invariant HoldsRelocated(mirror[..], done + Relatives(relas[..j]), base, image)
    {
      ghost var before, bytes := done + Relatives(relas[..j]), mirror[..];
      assert relas[..j + 1][..j] == relas[..j];
      if IsRelative(relas[j]) {
        RelativesContain(relas, j);
        RRelative(mirror, base, relas[j]);
        assert done + Relatives(relas[..j + 1]) == before + [relas[j]];
        RelocatedOnce(bytes, mirror[..], before, relas[j], base, image);
      } else {
        assert done + Relatives(relas[..j + 1]) == before;
      }
      j := j + 1;
    }
    assert relas[..j] == relas;
  }

  lemma RelocatedOnce(bytes: seq<byte>, after: seq<byte>, done: seq<Rela>, r: Rela, base: u64, image: seq<byte>)
    requires HoldsRelocated(bytes, done, base, image) && |after| == |bytes|
    requires forall a :: 0 <= a < |after| ==>
      after[a] == if SlotCovers(r, a) then Le64(Relocated(base, r))[a - r.offset] else bytes[a]
    ensures HoldsRelocated(after, done + [r], base, image)
  {
    hide RelocatedByte, Le64, Relocated;
    forall a | 0 <= a < |after| ensures after[a] == RelocatedByte(done + [r], base, a, image[a]) {
      RelocatedByteAppend(done, r, base, a, image[a]);
    }
  }

  lemma {:induction false} RelativesContain(relas: seq<Rela>, j: nat)
    requires j < |relas| && IsRelative(relas[j])
    ensures relas[j] in Relatives(relas)
    decreases |relas|
  {
    var n := |relas| - 1;
    if j < n {
      assert relas[..n][j] == relas[j];
      RelativesContain(relas[..n], j);
    }
  }

  lemma {:induction false} AllRelativesContain(shdrs: seq<Shdr>, i: nat, r: Rela)
    requires i < |shdrs| && shdrs[i].shType == SHT_RELA && r in Relatives(shdrs[i].relas)
    ensures r in AllRelatives(shdrs)
    decreases |shdrs|
  {
    var n := |shdrs| - 1;
    if i < n {
      assert shdrs[..n][i] == shdrs[i];
      AllRelativesContain(shdrs[..n], i, r);
    }
  }

  lemma {:induction false} RelativesOnly(relas: seq<Rela>, r: Rela)
    requires r in Relatives(relas)
    ensures r in relas && IsRelative(r)
    decreases |relas|
  {
    var n := |relas| - 1;
    if !(r == relas[n] && IsRelative(r)) {
      RelativesOnly(relas[..n], r);
    }
  }

  /** Every relocation applied stands in some RELA section. */
  lemma {:induction false} RelativeOrigin(shdrs: seq<Shdr>, r: Rela) returns (i: nat)
    requires r in AllRelatives(shdrs)
    ensures i < |shdrs| && shdrs[i].shType == 4 && r in shdrs[i].relas && r.info % 0x1_0000_0000 == 8
    decreases |shdrs|
  {
    hide Relatives;
    var n := |shdrs| - 1;
    if shdrs[n].shType == SHT_RELA && r in Relatives(shdrs[n].relas) {
      i := n;
      RelativesOnly(shdrs[n].relas, r);
    } else {
      i := RelativeOrigin(shdrs[..n], r);
    }
  }

  /** The bytes are those of `image` with the relocations `done` stored in them. */
  ghost predicate HoldsRelocated(bytes: seq<byte>, done: seq<Rela>, base: u64, image: seq<byte>) {
    |bytes| == |image| && forall a :: 0 <= a < |image| ==> bytes[a] == RelocatedByte(done, base, a, image[a])
  }

  method ApplyRelocations(mirror: array<byte>, base: u64, shdrs: seq<Shdr>)
    requires SlotsFit(AllRelatives(shdrs), mirror.Length)
    modifies mirror
    ensures forall a :: 0 <= a < mirror.Length ==>
      mirror[a] == RelocatedByte(AllRelatives(shdrs), base, a, old(mirror[a]))
  {
    ghost var image := mirror[..];
    ghost var done := AllRelatives(shdrs[..0]);
    var i := 0;
    assert HoldsRelocated(mirror[..], done, base, image);
    hide RelocatedByte, Relatives, AllRelatives, HoldsRelocated, SlotsFit;
    while i < |shdrs|
      invariant 0 <= i <= |shdrs| && done == AllRelatives(shdrs[..i])
      invariant HoldsRelocated(mirror[..], done, base, image)
    {
      AllRelativesSnoc(shdrs, i);
      if shdrs[i].shType == SHT_RELA {
        SectionSlotsFit(shdrs, i, mirror.Length);
        RelocateSection(mirror, base, shdrs[i].relas, done, image);
        done := done + Relatives(shdrs[i].relas);
      }
      i := i + 1;
    }
    assert shdrs[..i] == shdrs;
    RelocatedBytes(mirror[..], done, base, image);
  }

  lemma RelocatedBytes(bytes: seq<byte>, done: seq<Rela>, base: u64, image: seq<byte>)
    requires HoldsRelocated(bytes, done, base, image)
    ensures |bytes| == |image| && forall a :: 0 <= a < |image| ==> bytes[a] == RelocatedByte(done, base, a, image[a])
  {
  }

  lemma AllRelativesSnoc(shdrs: seq<Shdr>, i: nat)
    requires i < |shdrs|
    ensures AllRelatives(shdrs[..i + 1]) == if shdrs[i].shType == SHT_RELA
      then AllRelatives(shdrs[..i]) + Relatives(shdrs[i].relas) else AllRelatives(shdrs[..i])
  {
    hide Relatives;
    assert shdrs[..i + 1][..i] == shdrs[..i];
  }

  lemma SectionSlotsFit(shdrs: seq<Shdr>, i: nat, size: int)
    requires i < |shdrs| && shdrs[i].shType == SHT_RELA && SlotsFit(AllRelatives(shdrs), size)
    ensures SlotsFit(Relatives(shdrs[i].relas), size)
  {
    hide Relatives, AllRelatives;
    forall r | r in Relatives(shdrs[i].relas) ensures r.offset + 8 <= size {
      AllRelativesContain(shdrs, i, r);
    }
  }

  /** The ABI reading of RelocatedByte: the last relocation whose slot covers
      `a` ... */
  lemma {:induction false} RelocatedByteOfLastCover(relas: seq<Rela>, base: u64, a: int, under: byte, i: nat)
    requires i < |relas| && SlotCovers(relas[i], a)
    requires forall k :: i < k < |relas| ==> !SlotCovers(relas[k], a)
    ensures RelocatedByte(relas, base, a, under) == Le64(Relocated(base, relas[i]))[a - relas[i].offset]
    decreases |relas|
  {
    hide Le64, Relocated;
    var n := |relas| - 1;
    if i < n {
      RelocatedByteOfLastCover(relas[..n], base, a, under, i);
    }
  }

  /** ... and the byte underneath where no slot does. */
  lemma {:induction false} RelocatedByteUncovered(relas: seq<Rela>, base: u64, a: int, under: byte)
    requires forall r :: r in relas ==> !SlotCovers(r, a)
    ensures RelocatedByte(relas, base, a, under) == under
    decreases |relas|
  {
    if relas != [] {
      var n := |relas| - 1;
      assert relas == relas[..n] + [relas[n]];
      RelocatedByteUncovered(relas[..n], base, a, under);
    }
  }

  // ---------------------------------------------------------------- by section and entry

  /** Entry j of section i is a relative relocation of a RELA section and its slot
      covers byte a. */
  ghost predicate SlotAt(shdrs: seq<Shdr>, i: int, j: int, a: int) {
    && 0 <= i < |shdrs| && shdrs[i].shType == 4
    && 0 <= j < |shdrs[i].relas| && shdrs[i].relas[j].info % 0x1_0000_0000 == 8
    && shdrs[i].relas[j].offset <= a < shdrs[i].relas[j].offset + 8
  }

  /** No such entry comes later in the order of sections and entries. */
  ghost predicate LastSlotAt(shdrs: seq<Shdr>, i: int, j: int, a: int) {
    SlotAt(shdrs, i, j, a) && forall k, l :: SlotAt(shdrs, k, l, a) ==> k < i || (k == i && l <= j)
  }

  ghost predicate NoSlotAt(shdrs: seq<Shdr>, a: int) {
    forall k, l :: !SlotAt(shdrs, k, l, a)
  }

  lemma {:induction false} RelocatedByteJoin(x: seq<Rela>, y: seq<Rela>, base: u64, a: int, under: byte)
    ensures RelocatedByte(x + y, base, a, under) == RelocatedByte(y, base, a, RelocatedByte(x, base, a, under))
    decreases |y|
  {
    hide Le64, Relocated;
    if y == [] {
      assert x + y == x;
    } else {
      var n := |y| - 1;
      assert (x + y)[..|x + y| - 1] == x + y[..n];
      RelocatedByteJoin(x, y[..n], base, a, under);
    }
  }

  ghost predicate EntryAt(relas: seq<Rela>, j: int, a: int) {
    0 <= j < |relas| && relas[j].info % 0x1_0000_0000 == 8 && relas[j].offset <= a < relas[j].offset + 8
  }

  /** What one section does to byte a: its last entry for it decides. */
  lemma {:induction false} SectionByte(relas: seq<Rela>, base: u64, a: int, under: byte, j: nat)
    requires EntryAt(relas, j, a) && forall l :: EntryAt(relas, l, a) ==> l <= j
    ensures RelocatedByte(Relatives(relas), base, a, under) == Le64(Wrap(base + relas[j].addend))[a - relas[j].offset]
    decreases |relas|
  {
    var n := |relas| - 1;
    RelativesByte(relas, base, a, under);
    hide Le64, Relatives, RelocatedByte;
    if j < n {
      assert !EntryAt(relas, n, a);
      assert forall l :: EntryAt(relas[..n], l, a) ==> EntryAt(relas, l, a);
      SectionByte(relas[..n], base, a, under, j);
    }
  }

  lemma {:induction false} SectionByteKept(relas: seq<Rela>, base: u64, a: int, under: byte)
    requires forall l :: !EntryAt(relas, l, a)
    ensures RelocatedByte(Relatives(relas), base, a, under) == under
    decreases |relas|
  {
    if relas != [] {
      var n := |relas| - 1;
      RelativesByte(relas, base, a, under);
      hide Le64, Relatives, RelocatedByte;
      assert !EntryAt(relas, n, a);
      assert forall l :: EntryAt(relas[..n], l, a) ==> EntryAt(relas, l, a);
      SectionByteKept(relas[..n], base, a, under);
    }
  }

  /** One entry more. */
  lemma RelativesByte(relas: seq<Rela>, base: u64, a: int, under: byte)
    requires relas != []
    ensures var n := |relas| - 1;
      RelocatedByte(Relatives(relas), base, a, under)
        == if EntryAt(relas, n, a) then Le64(Wrap(base + relas[n].addend))[a - relas[n].offset]
           else RelocatedByte(Relatives(relas[..n]), base, a, under)
  {
    var n := |relas| - 1;
    var front, r := Relatives(relas[..n]), relas[n];
    RelocatedByteAppend(front, r, base, a, under);
    assert front + [] == front;
    hide Le64, RelocatedByte;
  }

  /** Byte a comes from the last such entry ... */
  lemma {:induction false} ByteOfLastSlot(shdrs: seq<Shdr>, base: u64, a: int, under: byte, i: nat, j: nat)
    requires LastSlotAt(shdrs, i, j, a)
    ensures RelocatedByte(AllRelatives(shdrs), base, a, under)
      == Le64(Wrap(base + shdrs[i].relas[j].addend))[a - shdrs[i].relas[j].offset]
    decreases |shdrs|
  {
    hide Le64, RelocatedByte, Relatives, AllRelatives;
    var n := |shdrs| - 1;
    SectionsByte(shdrs, base, a, under);
    var before := RelocatedByte(AllRelatives(shdrs[..n]), base, a, under);
    assert forall k, l :: SlotAt(shdrs[..n], k, l, a) ==> SlotAt(shdrs, k, l, a);
    if i == n {
      assert forall l :: EntryAt(shdrs[n].relas, l, a) ==> SlotAt(shdrs, n, l, a);
      SectionByte(shdrs[n].relas, base, a, before, j);
    } else {
      if shdrs[n].shType == SHT_RELA {
        assert forall l :: EntryAt(shdrs[n].relas, l, a) ==> SlotAt(shdrs, n, l, a);
        SectionByteKept(shdrs[n].relas, base, a, before);
      }
      assert SlotAt(shdrs[..n], i, j, a);
      ByteOfLastSlot(shdrs[..n], base, a, under, i, j);
    }
  }

  /** ... and is kept where there is none. */
  lemma {:induction false} ByteOfNoSlot(shdrs: seq<Shdr>, base: u64, a: int, under: byte)
    requires NoSlotAt(shdrs, a)
    ensures RelocatedByte(AllRelatives(shdrs), base, a, under) == under
    decreases |shdrs|
  {
    if shdrs != [] {
      hide Le64, RelocatedByte, Relatives, AllRelatives;
      var n := |shdrs| - 1;
      SectionsByte(shdrs, base, a, under);
      assert forall k, l :: SlotAt(shdrs[..n], k, l, a) ==> SlotAt(shdrs, k, l, a);
      ByteOfNoSlot(shdrs[..n], base, a, under);
      if shdrs[n].shType == SHT_RELA {
        assert forall l :: EntryAt(shdrs[n].relas, l, a) ==> SlotAt(shdrs, n, l, a);
        SectionByteKept(shdrs[n].relas, base, a, under);
      }
    }
  }

  lemma SectionsByte(shdrs: seq<Shdr>, base: u64, a: int, under: byte)
    requires shdrs != []
    ensures var n := |shdrs| - 1;
      var before := RelocatedByte(AllRelatives(shdrs[..n]), base, a, under);
      RelocatedByte(AllRelatives(shdrs), base, a, under)
        == if shdrs[n].shType == SHT_RELA then RelocatedByte(Relatives(shdrs[n].relas), base, a, before) else before
  {
    var n := |shdrs| - 1;
    AllRelativesSnoc(shdrs, n);
    assert shdrs[..n + 1] == shdrs;
    hide RelocatedByte, Relatives, AllRelatives;
    RelocatedByteJoin(AllRelatives(shdrs[..n]), Relatives(shdrs[n].relas), base, a, under);
  }

  // ---------------------------------------------------------------- the image

  /** Byte `a` of the finished image when it is loaded at `base`. */
  function ImageByte(elf: Elf, base: u64, a: int): byte {
    RelocatedByte(AllRelatives(elf.shdrs), base, a, SegmentByte(elf.phdrs, elf.file, a))
  }

  function Image(elf: Elf, base: u64, size: nat): (image: seq<byte>)
    ensures |image| == size
    ensures forall a :: 0 <= a < size ==> image[a] == ImageByte(elf, base, a)
  {
    seq(size, a => ImageByte(elf, base, a))
  }

  ghost predicate Fits(elf: Elf, size: int) {
    SegmentsFit(elf.phdrs, elf.file, size) && SlotsFit(AllRelatives(elf.shdrs), size)
  }

  /** Builds the mirror: fresh zero pages, then segments, then relocations. */
  method BuildMirror(elf: Elf, base: u64, size: nat) returns (mirror: array<byte>)
    requires Fits(elf, size)
    ensures fresh(mirror) && mirror.Length == size
    ensures mirror[..] == Image(elf, base, size)
  {
    mirror := new byte[size](_ => 0);
    LoadSegments(mirror, elf.file, elf.phdrs);
    ApplyRelocations(mirror, base, elf.shdrs);
  }

  /** A file whose lowest page is 0, with file parts no longer than memory
      parts, never makes a segment copy leave the mirror. */
  lemma CopiesStayInside(elf: Elf, lo: u64, hi: u64)
    requires NoWrap(elf.phdrs) && IsSpan(elf.phdrs, lo, hi) && TruncPg(lo) == 0
    requires forall ph :: ph in elf.phdrs ==>
      ph.filesz <= ph.memsz && (Copies(ph) ==> ph.offset + ph.filesz <= |elf.file|)
    ensures SegmentsFit(elf.phdrs, elf.file, RegionSize(lo, hi))
  {
    if elf.phdrs != [] {
      SpanIsLeastEnclosing(elf.phdrs, lo, hi);
    }
  }

  /** A file linked from the first page on: no wrap-around, file parts within the
      memory parts and within the file, and every slot in a header's range. */
  ghost predicate WellLinked(elf: Elf) {
    && NoWrap(elf.phdrs)
    && (exists ph :: ph in elf.phdrs && ph.vaddr < PAGE)
    && (forall ph :: ph in elf.phdrs ==>
          ph.filesz <= ph.memsz && (Copies(ph) ==> ph.offset + ph.filesz <= |elf.file|))
    && (forall sh, r :: sh in elf.shdrs && sh.shType == 4 && r in sh.relas && r.info % 0x1_0000_0000 == 8 ==>
          exists ph :: ph in elf.phdrs && r.offset + 8 <= ph.vaddr + ph.memsz)
  }

  /** Every such file fits the region computed for it. */
  lemma WellLinkedFits(elf: Elf, lo: u64, hi: u64)
    requires WellLinked(elf) && IsSpan(elf.phdrs, lo, hi)
    ensures Fits(elf, RegionSize(lo, hi))
  {
    hide AllRelatives, RegionSize;
    forall r | r in AllRelatives(elf.shdrs)
      ensures exists ph :: ph in elf.phdrs && r.offset + 8 <= ph.vaddr + ph.memsz
    {
      var i := RelativeOrigin(elf.shdrs, r);
    }
    var first :| first in elf.phdrs && first.vaddr < PAGE;
    assert TruncPg(lo) == 0;
    CopiesStayInside(elf, lo, hi);
    HeadersInsideIffLowestPageZero(elf.phdrs, lo, hi);
  }

  /** The loader indexes the region by the untranslated p_vaddr. Every header lies
      inside the region reserved for the span exactly when the lowest page is 0: in
      any other file the header with the greatest end reaches past it. */
  lemma HeadersInsideIffLowestPageZero(phdrs: seq<Phdr>, lo: u64, hi: u64)
    requires phdrs != [] && NoWrap(phdrs) && IsSpan(phdrs, lo, hi)
    ensures (forall ph :: ph in phdrs ==> ph.vaddr + ph.memsz <= RegionSize(lo, hi)) <==> TruncPg(lo) == 0
  {
    SpanIsLeastEnclosing(phdrs, lo, hi);
    SpanDoesNotWrap(phdrs, lo, hi);
    var low, top := SpanAttained(phdrs, lo, hi);
    EndExact(top);
    RoundPgLeast(hi);
    hide End, RoundPg, RegionSize;
    if TruncPg(lo) != 0 {
      assert TruncPg(lo) >= PAGE;
      assert top.vaddr + top.memsz > RegionSize(lo, hi);
    }
  }

  /** So a file linked higher whose last segment is copied in full does not fit:
      its copy leaves the mirror. */
  lemma LinkedHighDoesNotFit(elf: Elf, lo: u64, hi: u64, top: Phdr)
    requires NoWrap(elf.phdrs) && IsSpan(elf.phdrs, lo, hi) && TruncPg(lo) != 0
    requires top in elf.phdrs && Copies(top) && top.filesz == top.memsz && End(top) == hi
    ensures !SegmentsFit(elf.phdrs, elf.file, RegionSize(lo, hi))
  {
    SpanIsLeastEnclosing(elf.phdrs, lo, hi);
    SpanDoesNotWrap(elf.phdrs, lo, hi);
    EndExact(top);
    RoundPgLeast(hi);
    hide End, RoundPg, RegionSize;
    assert TruncPg(lo) >= PAGE;
  }

  /** An executable with one segment at 0x400000 is such a file. */
  lemma LinkedAt400000DoesNotFit()
    ensures var ph := Phdr(PT_LOAD, 5, 0, 0x40_0000, 1, 1);
      IsSpan([ph], 0x40_0000, 0x40_0001) && !SegmentsFit([ph], [0], RegionSize(0x40_0000, 0x40_0001))
  {
    var ph := Phdr(PT_LOAD, 5, 0, 0x40_0000, 1, 1);
    assert ph in [ph] && End(ph) == 0x40_0001;
    LinkedHighDoesNotFit(Elf([], 0, 0, [ph], [], [0]), 0x40_0000, 0x40_0001, ph);
  }

  // ---------------------------------------------------------------- rebasing

  /** The slot at relas[i] is not touched by any later relocation. */
  ghost predicate Survives(relas: seq<Rela>, i: nat)
    requires i < |relas|
  {
    forall k, a :: i < k < |relas| && SlotCovers(relas[i], a) ==> !SlotCovers(relas[k], a)
  }

  /** A surviving slot reads back as the relocated word. */
  lemma SurvivingSlotValue(elf: Elf, base: u64, size: nat, i: nat)
    requires Fits(elf, size) && i < |AllRelatives(elf.shdrs)| && Survives(AllRelatives(elf.shdrs), i)
    ensures var r := AllRelatives(elf.shdrs)[i];
      r.offset + 8 <= size
      && LeValue(Image(elf, base, size)[r.offset..r.offset + 8]) == Relocated(base, r)
  {
    hide Le64, RelocatedByte, Relocated, AllRelatives;
    var relas := AllRelatives(elf.shdrs);
    var r := relas[i];
    assert r in relas;
    var slot := Image(elf, base, size)[r.offset..r.offset + 8];
    forall k | 0 <= k < 8 ensures slot[k] == Le64(Relocated(base, r))[k] {
      var a := r.offset + k;
      assert SlotCovers(r, a);
      RelocatedByteOfLastCover(relas, base, a, SegmentByte(elf.phdrs, elf.file, a), i);
    }
    assert slot == Le64(Relocated(base, r));
    Le64RoundTrip(Relocated(base, r));
  }

  /** The slot at `o` of the image loaded at b1 exceeds the one loaded at b2 by
      exactly the base difference. */
  ghost predicate SlotShifted(elf: Elf, b1: u64, b2: u64, size: nat, o: int)
    requires 0 <= o && o + 8 <= size
  {
    Wrap(LeValue(Image(elf, b1, size)[o..o + 8]) - LeValue(Image(elf, b2, size)[o..o + 8])) == Wrap(b1 - b2)
  }

  /** Loading one file at two bases: outside the relocation slots the images
      agree, and each surviving slot is shifted by the base difference. */
  lemma RebaseShiftsSlotsOnly(elf: Elf, b1: u64, b2: u64, size: nat)
    requires Fits(elf, size)
    ensures forall a :: 0 <= a < size && (forall r :: r in AllRelatives(elf.shdrs) ==> !SlotCovers(r, a)) ==>
              Image(elf, b1, size)[a] == Image(elf, b2, size)[a]
    ensures var relas := AllRelatives(elf.shdrs);
      forall i :: 0 <= i < |relas| && Survives(relas, i) ==>
        relas[i].offset + 8 <= size && SlotShifted(elf, b1, b2, size, relas[i].offset)
    ensures Wrap(Wrap(b1 + elf.entry) - Wrap(b2 + elf.entry)) == Wrap(b1 - b2)
  {
    WrapDifference(b1 + elf.entry, b2 + elf.entry);
    assert (b1 + elf.entry) - (b2 + elf.entry) == b1 - b2;
    hide Le64, RelocatedByte, AllRelatives, LeValue, Image, SlotShifted, Survives, Wrap, Fits;
    var relas := AllRelatives(elf.shdrs);
    forall a | 0 <= a < size && forall r :: r in relas ==> !SlotCovers(r, a)
      ensures Image(elf, b1, size)[a] == Image(elf, b2, size)[a]
    {
      OutsideSlotsAgree(elf, b1, b2, size, a);
    }
    forall i | 0 <= i < |relas| && Survives(relas, i)
      ensures relas[i].offset + 8 <= size && SlotShifted(elf, b1, b2, size, relas[i].offset)
    {
      SurvivingSlotShifted(elf, b1, b2, size, i);
    }
  }

  lemma OutsideSlotsAgree(elf: Elf, b1: u64, b2: u64, size: nat, a: int)
    requires 0 <= a < size && forall r :: r in AllRelatives(elf.shdrs) ==> !SlotCovers(r, a)
    ensures Image(elf, b1, size)[a] == Image(elf, b2, size)[a]
  {
    hide Le64, RelocatedByte, AllRelatives;
    var under := SegmentByte(elf.phdrs, elf.file, a);
    RelocatedByteUncovered(AllRelatives(elf.shdrs), b1, a, under);
    RelocatedByteUncovered(AllRelatives(elf.shdrs), b2, a, under);
  }

  lemma SurvivingSlotShifted(elf: Elf, b1: u64, b2: u64, size: nat, i: nat)
    requires Fits(elf, size) && i < |AllRelatives(elf.shdrs)| && Survives(AllRelatives(elf.shdrs), i)
    ensures var o := AllRelatives(elf.shdrs)[i].offset;
      o + 8 <= size && SlotShifted(elf, b1, b2, size, o)
  {
    hide Le64, AllRelatives, LeValue, Image, Survives, Fits, Wrap;
    var r := AllRelatives(elf.shdrs)[i];
    SurvivingSlotValue(elf, b1, size, i);
    SurvivingSlotValue(elf, b2, size, i);
    WrapDifference(b1 + r.addend, b2 + r.addend);
    assert (b1 + r.addend) - (b2 + r.addend) == b1 - b2;
  }

  lemma WrapDifference(x: int, y: int)
    ensures Wrap(Wrap(x) - Wrap(y)) == Wrap(x - y)
  {
  }

  ghost predicate SlotsDisjoint(relas: seq<Rela>) {
    forall r, s :: r in relas && s in relas ==>
      r == s || r.offset + 8 <= s.offset || s.offset + 8 <= r.offset
  }

  /** With disjoint slots the order (and repetition) of relocations is irrelevant. */
  lemma RelocationOrderIrrelevant(relas: seq<Rela>, relas': seq<Rela>, base: u64, a: int, under: byte)
    requires SlotsDisjoint(relas)
    requires forall r :: r in relas <==> r in relas'
    ensures RelocatedByte(relas, base, a, under) == RelocatedByte(relas', base, a, under)
  {
    hide Le64, RelocatedByte;
    if exists r :: r in relas && SlotCovers(r, a) {
      var r :| r in relas && SlotCovers(r, a);
      OnlyCoverDecides(relas, base, a, under, r);
      OnlyCoverDecides(relas', base, a, under, r);
    } else {
      RelocatedByteUncovered(relas, base, a, under);
      RelocatedByteUncovered(relas', base, a, under);
    }
  }

  lemma {:induction false} OnlyCoverDecides(relas: seq<Rela>, base: u64, a: int, under: byte, r: Rela)
    requires r in relas && SlotCovers(r, a)
    requires forall s :: s in relas && SlotCovers(s, a) ==> s == r
    ensures RelocatedByte(relas, base, a, under) == Le64(Relocated(base, r))[a - r.offset]
    decreases |relas|
  {
    hide Le64, Relocated;
    var n := |relas| - 1;
    assert relas == relas[..n] + [relas[n]];
    if !SlotCovers(relas[n], a) {
      OnlyCoverDecides(relas[..n], base, a, under, r);
    }
  }
}
