/** The loading loops of src/elf.c, run on the page tables in place; None is a page fault. */
module Elf {
  import opened Machine
  import opened PmmSpec
  import opened Memory
  import opened PagingSpec
  import opened Mmu
  import opened Fat32Spec
  import opened ElfSpec
  import opened Loader
  import F = Fat32
  import P = Paging

  /** What a loop that reports r did, against what it should have done. */
  ghost predicate Ended(expected: Option<(VM, bool)>, r: Option<bool>, t: VM) {
    expected == match r case None => None case Some(ok) => Some((t, ok))
  }

  method MapPages(vm: P.Paging, page: nat, n: nat, flags: nat) returns (r: Option<bool>)
    requires vm.Valid() && page + n <= PAGES && flags < PAGE
    modifies vm.ram, vm.pmm, vm.pmm.bitmap
    ensures vm.Valid() && Ended(LoadPagesThrough(old(vm.State()), page, n, flags), r, vm.State())
  {
    hide MapThrough, Alloc;
    var j := 0;
    r := Some(true);
    while j < n && r == Some(true)
      invariant 0 <= j <= n && vm.Valid() && vm.State().cur == old(vm.State()).cur
      invariant if r == Some(true)
                then LoadPagesThrough(old(vm.State()), page, n, flags) ==
                     LoadPagesThrough(vm.State(), page + j, n - j, flags)
                else Ended(LoadPagesThrough(old(vm.State()), page, n, flags), r, vm.State())
      decreases n - j, r == Some(true)
    {
      var frame := vm.pmm.AllocPage();
      if frame == 0 {
        r := Some(false);
      } else {
        var ok := vm.MapPage((page + j) * PAGE, frame, flags);
        if ok {
          j := j + 1;
        } else {
          r := None;
        }
      }
    }
  }

  /** A store by the kernel to virtual address v. */
  method StoreByte(vm: P.Paging, v: Word, b: Byte) returns (ok: bool)
    requires vm.Valid()
    modifies vm.ram
    ensures vm.Valid()
    ensures match Lookup(old(vm.State()).m, vm.State().cur, v)
            case None => !ok
            case Some(p) => ok && vm.State() == old(vm.State()).(m := old(vm.State()).m[p := b])
  {
    hide Ent, Present;
    ok := false;
    var pde := vm.ReadEnt(FrameNo(vm.currentPdPhys), SlotOf(v));
    if Present(pde) {
      var pte := vm.ReadEnt(FrameNo(pde), IndexOf(v));
      if Present(pte) {
        vm.ram[AddressIn(FrameNo(pte), v)] := b;
        ok := true;
      }
    }
  }

  method StoreBytes(vm: P.Paging, v: nat, bytes: seq<Byte>) returns (ok: bool)
    requires vm.Valid() && v + |bytes| <= MEM
    modifies vm.ram
    ensures vm.Valid() && Did(WriteThrough(old(vm.State()), v, bytes), ok, vm.State())
  {
    hide Lookup;
    var j := 0;
    ok := true;
    assert bytes[0..] == bytes;
    while j < |bytes| && ok
      invariant 0 <= j <= |bytes| && vm.Valid() && vm.State().cur == old(vm.State()).cur
      invariant WriteThrough(old(vm.State()), v, bytes) ==
                if ok then WriteThrough(vm.State(), v + j, bytes[j..]) else None
      decreases |bytes| - j, ok
    {
      assert bytes[j..][1..] == bytes[j + 1..];
      ok := StoreByte(vm, v + j, bytes[j]);
      if ok {
        j := j + 1;
      }
    }
  }

  method LoadOne(vm: P.Paging, f: File, h: Header) returns (r: Option<bool>)
    requires vm.Valid() && f.vol.Ok() && NoWrap(h)
    modifies vm.ram, vm.pmm, vm.pmm.bitmap
    ensures vm.Valid() && Ended(LoadSegmentThrough(old(vm.State()), f, h), r, vm.State())
  {
    hide LoadPagesThrough, WriteThrough, Read;
    r := MapPages(vm, FirstPage(h), PageCount(h), PageFlags(h));
    if r == Some(true) {
      var buffer := new Byte[h.filesz];
      var n := F.Fat32Read(f.disk, f.vol, f.inode, h.offset, h.filesz, buffer);
      var ok := StoreBytes(vm, h.vaddr, buffer[..n]);
      if ok {
        ok := StoreBytes(vm, h.vaddr + h.filesz, Zeros(h.memsz - h.filesz));
      }
      r := if ok then Some(true) else None;
    }
  }

  /** elf_exec from the segment loop up to the jump to user mode. */
  method ExecFile(vm: P.Paging, f: File, hs: seq<Header>) returns (r: Option<bool>)
    requires vm.Valid() && f.vol.Ok() && forall h :: h in hs && h.kind == PT_LOAD ==> NoWrap(h)
    modifies vm.ram, vm.pmm, vm.pmm.bitmap
    ensures vm.Valid() && Ended(ExecThrough(old(vm.State()), f, hs), r, vm.State())
  {
    hide LoadSegmentThrough, MapStackThrough;
    var i := 0;
    r := Some(true);
    assert hs[0..] == hs;
    while i < |hs| && r == Some(true)
      invariant 0 <= i <= |hs| && vm.Valid() && vm.State().cur == old(vm.State()).cur
      invariant if r == Some(true)
                then LoadAllThrough(old(vm.State()), f, hs) == LoadAllThrough(vm.State(), f, hs[i..])
                else Ended(LoadAllThrough(old(vm.State()), f, hs), r, vm.State())
      decreases |hs| - i, r == Some(true)
    {
      assert hs[i..][1..] == hs[i + 1..];
      if hs[i].kind == PT_LOAD {
        r := LoadOne(vm, f, hs[i]);
      }
      i := i + 1;
    }
    if r == Some(true) {
      r := MapUserStack(vm);
    }
  }

  method MapUserStack(vm: P.Paging) returns (r: Option<bool>)
    requires vm.Valid()
    modifies vm.ram, vm.pmm, vm.pmm.bitmap
    ensures vm.Valid() && Ended(MapStackThrough(old(vm.State())), r, vm.State())
  {
    hide LoadPagesThrough;
    var flags := PRESENT + WRITE + USER;
    r := MapPages(vm, STACK_PAGE, 1, flags);
    if r == Some(true) {
      r := MapPages(vm, STACK_PAGE - 1, 1, flags);
    }
  }
}
