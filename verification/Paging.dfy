/** The page-table code of src/paging.c, working in place. paging_init works on physical memory; everything after it
    reads and writes through the translation in force, and stops at the first access that faults. */
module Paging {
  import opened Machine
  import opened PmmSpec
  import opened Memory
  import opened PagingSpec
  import opened Mmu
  import P = Pmm

  class Paging {
    const ram: array<Byte>
    const pmm: P.Pmm
    var kernelPdPhys: Word
    var currentPdPhys: Word
    ghost var base: map<nat, set<nat>>

    ghost predicate Valid()
      reads this, pmm
    {
      ram.Length == MEM && pmm.Valid() && kernelPdPhys % PAGE == 0 && currentPdPhys % PAGE == 0
    }

    ghost function State(): VM
      requires Valid()
      reads this, ram, pmm, pmm.bitmap
    {
      VM(ram[..], pmm.Frames(), kernelPdPhys / PAGE, currentPdPhys / PAGE, base)
    }

    /** paging_init, with the kernel directory in frame k and the 256 static tables in frames t, t + 1, ... */
    constructor (memory: array<Byte>, frames: P.Pmm, k: nat, t: nat)
      requires memory.Length == MEM && frames.Valid() && k < PAGES && t + 256 <= PAGES && !(t <= k < t + 256)
      modifies memory
      ensures Valid() && ram == memory && pmm == frames
      ensures Booted(ram[..], k, t) && State() == VM(ram[..], frames.Frames(), k, k, map[k := AllSlots()])
    {
      ram := memory;
      pmm := frames;
      kernelPdPhys := k * PAGE;
      currentPdPhys := k * PAGE;
      base := map[k := AllSlots()];
      new;
      hide Ent, PutEnt, ZeroFrame, BootedUpTo, Filled;
      ClearTable(k);
      BootStart(old(memory[..]), k, t);
      var i := 0;
      while i < 256
        invariant 0 <= i <= 256 && Valid() && BootedUpTo(ram[..], k, t, i)
        invariant kernelPdPhys == currentPdPhys == k * PAGE && base == map[k := AllSlots()]
      {
        ghost var m := ram[..];
        FillTable(t, i);
        BootStep(m, ram[..], k, t, i);
        WriteEnt(k, i, (t + i) * PAGE + PRESENT + WRITE);
        i := i + 1;
      }
    }

    method FillTable(t: nat, i: nat)
      requires Valid() && i < 256 && t + 256 <= PAGES
      modifies ram
      ensures Filled(old(ram[..]), ram[..], t, i)
    {
      hide Ent, PutEnt;
      var j := 0;
      while j < 1024
        invariant 0 <= j <= 1024
        invariant forall n :: 0 <= n < j ==> IdentityEntry(ram[..], t, i, n)
        invariant forall g, n :: 0 <= g < PAGES && 0 <= n < 1024 && g != t + i ==>
                  Ent(ram[..], g, n) == Ent(old(ram[..]), g, n)
      {
        ghost var m := ram[..];
        PutEntFrame(m, t + i, j, (i * 1024 + j) * PAGE + PRESENT + WRITE);
        WriteEnt(t + i, j, (i * 1024 + j) * PAGE + PRESENT + WRITE);
        forall n | 0 <= n <= j ensures IdentityEntry(ram[..], t, i, n) {
          assert Ent(ram[..], t + i, n) == if n == j then (i * 1024 + j) * PAGE + PRESENT + WRITE else Ent(m, t + i, n);
          assert n < j ==> IdentityEntry(m, t, i, n);
        }
        j := j + 1;
      }
    }

    method ReadEnt(f: nat, i: nat) returns (w: Word)
      requires Valid() && f < PAGES && i < 1024
      ensures w == Ent(ram[..], f, i)
    {
      var a := f * PAGE + 4 * i;
      w := FromBytes(ram[a], ram[a + 1], ram[a + 2], ram[a + 3]);
    }

    method WriteEnt(f: nat, i: nat, w: Word)
      requires Valid() && f < PAGES && i < 1024
      modifies ram
      ensures ram[..] == PutEnt(old(ram[..]), f, i, w)
    {
      var a := f * PAGE + 4 * i;
      ram[a] := w % 0x100;
      ram[a + 1] := w / 0x100 % 0x100;
      ram[a + 2] := w / 0x1_0000 % 0x100;
      ram[a + 3] := w / 0x100_0000;
    }

    method ClearTable(t: nat)
      requires Valid() && t < PAGES
      modifies ram
      ensures ram[..] == ZeroFrame(old(ram[..]), t)
    {
      var i := 0;
      while i < 1024
        invariant 0 <= i <= 1024
        invariant forall x :: 0 <= x < MEM ==> ram[x] == if t * PAGE <= x < t * PAGE + 4 * i then 0 else old(ram[x])
      {
        WriteEnt(t, i, 0);
        i := i + 1;
      }
    }

    // ---------- Through the page tables ----------

    /** The hardware's walk for the page with this number. */
    method Translate(page: nat) returns (f: Option<nat>)
      requires Valid() && page < PAGES
      ensures f == FrameOf(ram[..], State().cur, page)
    {
      hide Ent, Present, SlotOf, IndexOf;
      PageStart(page);
      f := None;
      var pde := ReadEnt(FrameNo(currentPdPhys), SlotOf(page * PAGE));
      if Present(pde) {
        var pte := ReadEnt(FrameNo(pde), IndexOf(page * PAGE));
        if Present(pte) {
          f := Some(FrameNo(pte));
          FrameStart(FrameNo(pte), page * PAGE);
        }
      }
    }

    method LoadEnt(page: nat, i: nat) returns (w: Option<Word>)
      requires Valid() && page < PAGES && i < 1024
      ensures w == Load(State(), page, i)
    {
      var f := Translate(page);
      w := None;
      if f.Some? {
        var e := ReadEnt(f.value, i);
        w := Some(e);
      }
    }

    method StoreEnt(page: nat, i: nat, w: Word) returns (ok: bool)
      requires Valid() && page < PAGES && i < 1024
      modifies ram
      ensures Valid() && Did(Store(old(State()), page, i, w), ok, State())
    {
      var f := Translate(page);
      ok := f.Some?;
      if f.Some? {
        WriteEnt(f.value, i, w);
      }
    }

    method ClearPage(page: nat) returns (ok: bool)
      requires Valid() && page < PAGES
      modifies ram
      ensures Valid() && Did(ClearFrom(old(State()), page, 0), ok, State())
    {
      hide Store;
      var i := 0;
      ok := true;
      while i < 1024 && ok
        invariant 0 <= i <= 1024 && Valid() && State().cur == old(State()).cur
        invariant ClearFrom(old(State()), page, 0) == if ok then ClearFrom(State(), page, i) else None
        decreases 1024 - i, ok
      {
        ok := StoreEnt(page, i, 0);
        i := i + 1;
      }
    }

    method CopyPage(src: nat, dst: nat) returns (ok: bool)
      requires Valid() && src < PAGES && dst < PAGES
      modifies ram
      ensures Valid() && Did(CopyFrom(old(State()), src, dst, 0), ok, State())
    {
      hide Load, Store;
      var i := 0;
      ok := true;
      while i < 1024 && ok
        invariant 0 <= i <= 1024 && Valid() && State().cur == old(State()).cur
        invariant CopyFrom(old(State()), src, dst, 0) == if ok then CopyFrom(State(), src, dst, i) else None
        decreases 1024 - i, ok
      {
        var w := LoadEnt(src, i);
        ok := w.Some?;
        if ok {
          ok := StoreEnt(dst, i, w.value);
        }
        i := i + 1;
      }
    }

    /** paging_get_physical. */
    method GetPhysical(v: Word) returns (r: Option<Word>)
      requires Valid()
      ensures r == GetPhysicalThrough(State(), v)
    {
      hide Load, Present, SlotOf, IndexOf;
      var pde := LoadEnt(FrameNo(currentPdPhys), SlotOf(v));
      if pde.None? {
        return None;
      }
      r := Some(0);
      if Present(pde.value) {
        var pte := LoadEnt(FrameNo(pde.value), IndexOf(v));
        if pte.None? {
          return None;
        }
        if Present(pte.value) {
          r := Some(AddressIn(FrameNo(pte.value), v));
        }
      }
    }

    /** paging_map_page. */
    method MapPage(v: Word, p: Word, flags: nat) returns (ok: bool)
      requires Valid() && flags < PAGE
      modifies ram, pmm, pmm.bitmap
      ensures Valid() && Did(MapThrough(old(State()), v, p, flags), ok, State())
    {
      hide Load, Store, Alloc, Present, Pde, FillIn, NewTable;
      var pde := LoadEnt(FrameNo(currentPdPhys), SlotOf(v));
      if pde.None? {
        return false;
      }
      if !Present(pde.value) {
        var ptPhys := pmm.AllocPage();
        if ptPhys == 0 {
          return true;
        }
        ok := HangTable(SlotOf(v), FrameNo(ptPhys), flags);
        if !ok {
          return;
        }
      }
      ok := WriteEntry(v, p, flags);
    }

    method HangTable(slot: nat, a: nat, flags: nat) returns (ok: bool)
      requires Valid() && slot < 1024 && a < PAGES
      modifies ram
      ensures Valid() && Did(NewTable(old(State()), slot, a, flags), ok, State())
    {
      hide Store, ClearFrom;
      ok := ClearPage(a);
      if ok {
        ok := StoreEnt(FrameNo(currentPdPhys), slot, Pde(a, flags));
      }
    }

    method WriteEntry(v: Word, p: Word, flags: nat) returns (ok: bool)
      requires Valid() && flags < PAGE
      modifies ram
      ensures Valid() && Did(FillIn(old(State()), v, p, flags), ok, State())
    {
      hide Load, Store;
      var pde := LoadEnt(FrameNo(currentPdPhys), SlotOf(v));
      ok := pde.Some?;
      if ok {
        ok := StoreEnt(FrameNo(pde.value), IndexOf(v), Pte(p, flags));
      }
    }

    /** paging_unmap_page. */
    method UnmapPage(v: Word) returns (ok: bool)
      requires Valid()
      modifies ram
      ensures Valid() && Did(UnmapThrough(old(State()), v), ok, State())
    {
      hide Load, Store, Present;
      var pde := LoadEnt(FrameNo(currentPdPhys), SlotOf(v));
      ok := pde.Some?;
      if ok && Present(pde.value) {
        ok := StoreEnt(FrameNo(pde.value), IndexOf(v), 0);
      }
    }

    /** paging_clone_pd. */
    method ClonePd() returns (r: Option<Word>)
      requires Valid()
      modifies this, ram, pmm, pmm.bitmap
      ensures Valid()
      ensures CloneThrough(old(State())) == match r case None => None case Some(addr) => Some((State(), addr))
    {
      hide CopyFrom, Alloc;
      var addr := pmm.AllocPage();
      r := Some(addr);
      if addr != 0 {
        ghost var slots := PresentSlots(ram[..], FrameNo(kernelPdPhys));
        var ok := CopyPage(FrameNo(kernelPdPhys), FrameNo(addr));
        if !ok {
          return None;
        }
        base := base[FrameNo(addr) := slots];
      }
    }

    /** paging_switch. */
    method SwitchTo(pdPhys: Word)
      requires Valid() && pdPhys % PAGE == 0
      modifies this
      ensures Valid() && State() == Switch(old(State()), pdPhys / PAGE)
    {
      currentPdPhys := pdPhys;
    }

    /** The decision part of page_fault_handler. */
    method HandlePageFault(err: Word, addr: Word) returns (r: Option<bool>)
      requires Valid()
      modifies ram, pmm, pmm.bitmap
      ensures Valid()
      ensures FaultThrough(old(State()), err, addr) ==
              match r case None => None case Some(handled) => Some((State(), handled))
    {
      hide Alloc, MapThrough;
      if err % 2 == 1 || err / 8 % 2 == 1 {
        return Some(false);
      }
      var flags := PRESENT + WRITE + UserBit(err);
      var phys := pmm.AllocPage();
      if phys == 0 {
        return Some(false);
      }
      var ok := MapPage(addr / PAGE * PAGE, phys, flags);
      r := if ok then Some(true) else None;
    }
  }

  lemma FrameStart(f: nat, v: Word)
    requires f < PAGES && v % PAGE == 0
    ensures FrameNo(AddressIn(f, v)) == f
  {
  }
}
