/** The memory of a process as the loader uses it: which pages are mapped with
    which protection, and the bytes behind them. Every call may fail. */
module AddressSpaces {
  import opened Words

  datatype Prot = Prot(read: bool, write: bool, exec: bool)
  const READ_WRITE := Prot(true, true, false)

  /** Contents of an address space: page number to protection, address to byte. */
  datatype Space = Space(prot: map<int, Prot>, mem: map<int, byte>)

  predicate PageTouches(p: int, addr: int, len: int) {
    0 < len && addr < (p + 1) * PAGE && p * PAGE < addr + len
  }

  function PagesOf(addr: int, len: int): set<int>
  {
    set p: int | addr / PAGE <= p < (addr + len) / PAGE + 1 && PageTouches(p, addr, len)
  }

  predicate InRange(a: int, addr: int, len: int) {
    addr <= a < addr + len
  }

  function AddressesOf(addr: int, len: int): set<int> {
    set a: int | addr <= a < addr + len && InRange(a, addr, len)
  }

  /** No page of the range is mapped and no byte of it exists. */
  predicate Free(s: Space, addr: int, len: int) {
    s.prot.Keys !! PagesOf(addr, len) && s.mem.Keys !! AddressesOf(addr, len)
  }

  function Mapped(s: Space, addr: int, len: int): Space {
    Space(s.prot + (map p | p in PagesOf(addr, len) :: READ_WRITE),
          s.mem + (map a | a in AddressesOf(addr, len) :: 0))
  }

  function Unmapped(s: Space, addr: int, len: int): Space {
    Space(s.prot - PagesOf(addr, len), s.mem - AddressesOf(addr, len))
  }

  function Written(s: Space, addr: int, data: seq<byte>): Space {
    s.(mem := map a | a in s.mem :: if addr <= a < addr + |data| then data[a - addr] else s.mem[a])
  }

  function Protected(s: Space, addr: int, len: int, f: Prot): Space {
    s.(prot := map p | p in s.prot :: if PageTouches(p, addr, len) then f else s.prot[p])
  }

  /** Same mappings, and equal outside the range. */
  ghost predicate AgreeOutside(s: Space, t: Space, addr: int, len: int) {
    && s.prot.Keys == t.prot.Keys && s.mem.Keys == t.mem.Keys
    && (forall p :: p in s.prot && p !in PagesOf(addr, len) ==> s.prot[p] == t.prot[p])
    && (forall a :: a in s.mem && !InRange(a, addr, len) ==> s.mem[a] == t.mem[a])
  }

  /** Unmapping a region that was mapped over `s`, whatever was done inside it
      since, gives back `s` exactly when the region was free in `s`. */
  lemma UnmapRestoresIffFree(s: Space, t: Space, addr: int, len: int)
    requires AgreeOutside(Mapped(s, addr, len), t, addr, len)
    ensures Unmapped(t, addr, len) == Unmapped(s, addr, len)
    ensures Unmapped(t, addr, len) == s <==> Free(s, addr, len)
  {
    var u := Unmapped(t, addr, len);
    assert u.prot == s.prot - PagesOf(addr, len);
    assert u.mem == s.mem - AddressesOf(addr, len);
    if Free(s, addr, len) {
      assert u.prot == s.prot;
      assert u.mem == s.mem;
    }
  }

  /** A range mmap can hand out: page aligned and inside the address space. */
  predicate IsRange(addr: int, len: int) {
    0 <= addr < WORD && addr % PAGE == 0 && addr + len <= WORD
  }

  ghost predicate HasRoom(s: Space, len: int) {
    exists addr: int :: 0 < addr && IsRange(addr, len) && Free(s, addr, len)
  }

  class AddressSpace {
    var s: Space
    /** No call on this space fails that can be carried out. */
    const clean: bool

    /** mmap of anonymous private read-write memory; -1 is failure. Without
        MAP_FIXED the kernel picks a free range, with it the range is replaced. */
    method MapAnonymous(hint: int, len: nat, fixed: bool) returns (addr: int)
      modifies this
      ensures addr == -1 ==> s == old(s)
      ensures addr != -1 ==> IsRange(addr, len)
      ensures addr != -1 && fixed ==> addr == hint
      ensures addr != -1 && !fixed ==> 0 < addr && Free(old(s), addr, len)
      ensures addr != -1 ==> s == Mapped(old(s), addr, len)
      ensures clean && (if fixed then IsRange(hint, len) else HasRoom(old(s), len)) ==> addr != -1
    {
      addr := *;
      if fixed {
        addr := if clean then hint else addr;
        if !IsRange(addr, len) || addr != hint {
          return -1;
        }
      } else if !(0 < addr && IsRange(addr, len) && Free(s, addr, len)) {
        if !clean || !(exists a: int :: 0 < a < WORD && IsRange(a, len) && Free(s, a, len)) {
          return -1;
        }
        addr :| 0 < addr < WORD && IsRange(addr, len) && Free(s, addr, len);
      }
      s := Mapped(s, addr, len);
    }

    /** pt_mmap: the target runs the call, so it may have taken effect although a
        later ptrace request failed and -1 is reported. `at` is where it took
        effect, -1 if it did not. */
    method MapRemote(hint: int, len: nat, fixed: bool) returns (addr: int, ghost at: int)
      modifies this
      ensures addr == -1 || addr == at
      ensures at == -1 ==> s == old(s)
      ensures at != -1 ==> IsRange(at, len)
      ensures at != -1 && fixed ==> at == hint
      ensures at != -1 && !fixed ==> 0 < at && Free(old(s), at, len)
      ensures at != -1 ==> s == Mapped(old(s), at, len)
      ensures clean && (if fixed then IsRange(hint, len) else HasRoom(old(s), len)) ==> addr != -1
    {
      addr := MapAnonymous(hint, len, fixed);
      at := addr;
      var late: bool := *;
      if late && !clean {
        addr := -1;
      }
    }

    /** munmap of a range the caller has mapped. */
    method Unmap(addr: int, len: nat)
      modifies this
      ensures s == Unmapped(old(s), addr, len)
    {
      s := Unmapped(s, addr, len);
    }

    /** pt_munmap, whose result no caller looks at; `done` if it took effect. */
    method UnmapRemote(addr: int, len: nat) returns (ghost done: bool)
      modifies this
      ensures s == if done then Unmapped(old(s), addr, len) else old(s)
      ensures clean ==> done
    {
      var took: bool := *;
      took := took || clean;
      done := took;
      if took {
        Unmap(addr, len);
      }
    }

    /** PT_IO write; a failing transfer may have written any prefix. */
    method CopyIn(addr: int, data: seq<byte>) returns (ok: bool)
      modifies this
      ensures ok ==> s == Written(old(s), addr, data)
      ensures !ok ==> exists n: nat :: n <= |data| && s == Written(old(s), addr, data[..n])
      ensures clean ==> ok
    {
      ok := *;
      ok := ok || clean;
      if ok {
        s := Written(s, addr, data);
      } else {
        var n: int := *;
        if !(0 <= n <= |data|) {
          n := 0;
        }
        s := Written(s, addr, data[..n]);
      }
    }

    /** pt_mprotect or kernel_mprotect; it may have taken effect (`done`) and still
        report a failure. */
    method Protect(addr: int, len: nat, f: Prot) returns (ok: bool, ghost done: bool)
      modifies this
      ensures ok ==> done
      ensures s == if done then Protected(old(s), addr, len, f) else old(s)
      ensures clean ==> ok
    {
      var took: bool := *;
      took := took || clean;
      done := took;
      if took {
        s := Protected(s, addr, len, f);
      }
      var reported: bool := *;
      ok := took && (reported || clean);
    }
  }
}
