/** The kernel with its page tables: every process has a directory of its own, heap growth maps pages in the current one
    (src/heap.c), process_create clones the kernel's, and schedule loads the next process's directory before it calls
    context_switch (src/process.c). While the heap stays in slots all directories share, this is the kernel of module
    Kernel; past them it is not. */
module Spaces {
  import opened Machine
  import opened PmmSpec
  import opened Memory
  import opened PagingSpec
  import opened Mmu
  import opened ElfSpec
  import opened Virtual
  import H = HeapSpec
  import S = SchedSpec
  import W = Switch
  import K = Kernel

  /** The kernel's own layout; the pages of the process table and the boot stack; how far the heap may grow; and the
      frames that tables and directories may be taken from. */
  datatype Config = Config(k: K.Config, image: set<nat>, limit: nat, near: nat)

  ghost predicate ConfigOk(c: Config) {
    && K.ConfigOk(c.k) && c.k.lo % PAGE == 0 && c.limit % PAGE == 0 && c.k.lo <= c.limit < MEM - 64
    && (forall p :: 0 <= p < S.MAX ==> c.k.cells[p] / PAGE in c.image)
    && (forall x: nat :: c.k.boot.Holds(x) ==> x / PAGE in c.image)
    && (forall p :: p in c.image ==> p < c.k.lo / PAGE)
  }

  predicate InHeap(c: Config, hi: nat, p: nat) {
    c.k.lo / PAGE <= p < hi / PAGE
  }

  function HeapPages(c: Config, hi: nat): set<nat> {
    set p: nat | p < hi / PAGE && InHeap(c, hi, p)
  }

  // ---------- The page tables ----------

  /** Every directory maps the kernel's data pages to the same frames. */
  ghost predicate Everywhere(vm: VM, fr: map<nat, nat>) {
    forall d, p: nat :: d in vm.base && p in fr ==> d < PAGES && p < PAGES && FrameOf(vm.m, d, p) == Some(fr[p])
  }

  /** Page p may be given to the heap: it is nothing the kernel reaches by its physical address, and its slot has a
      table that all directories share. */
  ghost predicate Growable(vm: VM, near: nat, p: nat) {
    && p < PAGES && vm.kpd < PAGES && !Used(vm, near, p) && Present(Ent(vm.m, vm.kpd, p / 1024))
    && forall d :: d in vm.base ==> p / 1024 in vm.base[d]
  }

  ghost predicate TablesFit(c: Config, vm: VM, fr: map<nat, nat>) {
    && PagingSpec.Inv(vm) && Reach(vm, c.near) && FreeOk(vm) && DataFrames(vm, fr) && Everywhere(vm, fr)
    && forall p: nat :: InHeap(c, c.limit, p) ==> Growable(vm, c.near, p)
  }

  ghost predicate VmOk(c: Config, vm: VM, fr: map<nat, nat>, hi: nat) {
    && TablesFit(c, vm, fr) && hi % PAGE == 0 && c.k.lo <= hi <= c.limit
    && fr.Keys == c.image + HeapPages(c, hi)
  }

  lemma SlotOfPage(p: nat)
    requires p < PAGES
    ensures p * PAGE < MEM && SlotOf(p * PAGE) == p / 1024
  {
  }

  lemma GrowableSlot(vm: VM, near: nat, p: nat, d: nat)
    requires PagingSpec.Inv(vm) && Growable(vm, near, p) && d in vm.base
    ensures d < PAGES && Present(Ent(vm.m, d, p / 1024))
  {
    hide Ent, TablesOk, Separate;
  }

  lemma EverywhereMapped(vm: VM, fr: map<nat, nat>)
    requires PagingSpec.Inv(vm) && Everywhere(vm, fr) && FreeOk(vm) && DataFrames(vm, fr)
    ensures Image(vm, fr)
  {
    hide Lookup, TablesOk, Separate, Inherited;
    forall x: Word | x / PAGE in fr ensures Lookup(vm.m, vm.cur, x) == Some(fr[x / PAGE] * PAGE + x % PAGE) {
      LookupPage(vm.m, vm.cur, x);
    }
  }

  /** Any directory will do to reach the kernel's data. */
  lemma EverywherePartly(vm: VM, fr: map<nat, nat>, d: nat)
    requires Everywhere(vm, fr) && DataFrames(vm, fr) && d in vm.base && d < PAGES
    ensures Partly(vm.m, d, fr) && forall x: Word :: x / PAGE in fr ==> Here(vm.m, d, x)
  {
    hide Lookup;
    forall x: Word | x / PAGE in fr ensures Here(vm.m, d, x) {
      LookupPage(vm.m, d, x);
    }
  }

  // ---------- Growing the heap ----------

  /** What paging_map_page does for a growth page is seen in every address space. */
  lemma GrowMaps(c: Config, vm: VM, fr: map<nat, nat>, page: nat)
    requires TablesFit(c, vm, fr) && Growable(vm, c.near, page) && page !in fr && Alloc(vm.pool).1 != 0
    ensures vm.cur < PAGES && page * PAGE < MEM
    ensures var u := vm.(pool := Alloc(vm.pool).0);
            var t := MapPage(u, page * PAGE, Alloc(vm.pool).1, PRESENT + WRITE);
            && MapThrough(u, page * PAGE, Alloc(vm.pool).1, PRESENT + WRITE) == Some(t)
            && TablesFit(c, t, fr[page := FrameNo(Alloc(vm.pool).1)])
  {
    hide PagingSpec.Inv, Reach, Used, Alloc, MapPage, MapThrough, Ent, Present, Lookup, DataFrames, FreeOk, EnsureTable,
         Sees;
    InvCur(vm);
    SlotOfPage(page);
    AllocFresh(vm.pool);
    var u, a, flags := vm.(pool := Alloc(vm.pool).0), Alloc(vm.pool).1, PRESENT + WRITE;
    var f, v: Word := FrameNo(a), page * PAGE;
    var t := MapPage(u, v, a, flags);
    PoolInv(vm, u);
    FewerFree(vm, c.near, u);
    CurIn(vm);
    GrowableSlot(vm, c.near, page, vm.cur);
    HasTable(u, v, flags);
    MapThroughIs(u, c.near, v, a, flags);
    MapPageInv(u, v, a, flags);
    PageStart(page);
    MapStays(u, c.near, v, a, flags);
    GrowData(vm, u, t, fr, page, f);
    GrowSeen(vm, u, t, fr, page, a);
    forall p: nat | InHeap(c, c.limit, p) ensures Growable(t, c.near, p) {
      assert Growable(vm, c.near, p);
      GrowableKept(u, t, c.near, p, v, a, flags);
    }
  }

  lemma GrowSeen(vm: VM, u: VM, t: VM, fr: map<nat, nat>, page: nat, a: Word)
    requires PagingSpec.Inv(u) && u == vm.(pool := u.pool) && Everywhere(vm, fr) && page < PAGES && page * PAGE < MEM
    requires forall d :: d in u.base ==> page / 1024 in u.base[d]
    requires EnsureTable(u, SlotOf(page * PAGE), PRESENT + WRITE).Some?
    requires t == MapPage(u, page * PAGE, a, PRESENT + WRITE)
    ensures Everywhere(t, fr[page := FrameNo(a)])
  {
    hide PagingSpec.Inv, MapPage, EnsureTable, FrameOf, Sees;
    var gr := fr[page := FrameNo(a)];
    SlotOfPage(page);
    PageStart(page);
    CurIn(u);
    forall d, p: nat | d in t.base && p in gr ensures d < PAGES && p < PAGES && FrameOf(t.m, d, p) == Some(gr[p]) {
      DirBound(u, d);
      assert p in fr ==> p < PAGES;
      MappedPage(u, page * PAGE, a, PRESENT + WRITE, d, p);
      SharedSees(u, d, page / 1024);
    }
  }

  lemma HasTable(u: VM, v: Word, flags: nat)
    requires u.cur < PAGES && Present(Ent(u.m, u.cur, SlotOf(v)))
    ensures EnsureTable(u, SlotOf(v), flags).Some? && !NeedsTable(u, v)
  {
  }

  lemma SharedSees(u: VM, d: nat, slot: nat)
    requires d in u.base && u.cur in u.base && slot in u.base[d] && slot in u.base[u.cur]
    ensures Sees(u, d, slot)
  {
  }

  lemma GrowData(vm: VM, u: VM, t: VM, fr: map<nat, nat>, page: nat, f: nat)
    requires PagingSpec.Inv(vm) && FreeOk(vm) && DataFrames(vm, fr) && Everywhere(vm, fr) && page < PAGES && page !in fr
    requires page * PAGE < MEM
    requires f in vm.pool.free && f < PAGES && u == vm.(pool := u.pool) && u.pool.free == vm.pool.free - {f}
    requires PagingSpec.Inv(u)
    requires EnsureTable(u, SlotOf(page * PAGE), PRESENT + WRITE).Some?
    requires t == MapPage(u, page * PAGE, f * PAGE, PRESENT + WRITE)
    ensures DataFrames(t, fr[page := f]) && FreeOk(t)
  {
    hide PagingSpec.Inv, MapPage, EnsureTable, DataFrames, Image;
    EverywhereMapped(vm, fr);
    MapPageFree(u, page * PAGE, f * PAGE, PRESENT + WRITE);
    NewDataFrame(vm, u, t, fr, page, f, PRESENT + WRITE);
  }

  lemma GrowableKept(u: VM, t: VM, near: nat, p: nat, v: Word, a: Word, flags: nat)
    requires PagingSpec.Inv(u) && flags < PAGE && EnsureTable(u, SlotOf(v), flags).Some? && t == MapPage(u, v, a, flags)
    requires p < PAGES && u.kpd < PAGES && Present(Ent(u.m, u.kpd, p / 1024)) && !Used(t, near, p)
    requires forall d :: d in u.base ==> p / 1024 in u.base[d]
    ensures Growable(t, near, p)
  {
    hide Ent, Present, Used, MapPage, EnsureTable, TablesOk, Separate, Inherited;
    MapKeepsTable(u, v, a, flags, u.kpd, p / 1024);
  }

  // ---------- Cloning and switching directories ----------

  lemma CloneFits(c: Config, vm: VM, fr: map<nat, nat>)
    requires TablesFit(c, vm, fr) && Near(vm.pool, c.near)
    ensures vm.cur < PAGES && vm.kpd < PAGES && CloneThrough(vm) == Some(Clone(vm)) && TablesFit(c, Clone(vm).0, fr)
    ensures vm.base.Keys <= Clone(vm).0.base.Keys
    ensures Clone(vm).1 % PAGE == 0 && (Clone(vm).1 != 0 ==> FrameNo(Clone(vm).1) in Clone(vm).0.base)
  {
    hide PagingSpec.Inv, Reach, Used, Alloc, Clone, CloneThrough, Ent, Present, Lookup, DataFrames, FreeOk, Near;
    ReachDirs(vm, c.near);
    CloneThroughIs(vm, c.near);
    CloneInv(vm);
    CloneStays(vm, c.near);
    var t := Clone(vm).0;
    if Clone(vm).1 == 0 {
      CloneNothing(vm);
      SameTables(c, vm, t, fr);
    } else {
      CloneDirs(vm);
      CloneData(vm, fr);
      CloneFrameAddress(vm);
      forall d, p: nat | d in t.base && p in fr ensures d < PAGES && p < PAGES && FrameOf(t.m, d, p) == Some(fr[p]) {
        PageStart(p);
        CloneEffect(vm, d, p * PAGE);
      }
      forall p: nat | InHeap(c, c.limit, p) ensures Growable(t, c.near, p) {
        assert Growable(vm, c.near, p);
        CloneSlot(vm, p / 1024);
      }
    }
  }

  lemma CloneFrameAddress(vm: VM)
    requires vm.kpd < PAGES && Clone(vm).1 != 0
    ensures Clone(vm).1 % PAGE == 0
  {
    AllocFresh(vm.pool);
  }

  /** Fewer free frames, or another current directory, make no difference. */
  lemma SameTables(c: Config, vm: VM, t: VM, fr: map<nat, nat>)
    requires TablesFit(c, vm, fr) && t.m == vm.m && t.base == vm.base && t.kpd == vm.kpd && t.pool.free <= vm.pool.free
    requires PagingSpec.Inv(t)
    ensures TablesFit(c, t, fr)
  {
    hide Ent, Present, FrameOf, PagingSpec.Inv, Used, Reach;
    FewerFree(vm, c.near, t);
    SameLive(vm, t);
    forall p: nat | InHeap(c, c.limit, p) ensures Growable(t, c.near, p) {
      assert Growable(vm, c.near, p);
    }
  }

  lemma CloneData(vm: VM, fr: map<nat, nat>)
    requires PagingSpec.Inv(vm) && Clone(vm).1 != 0 && FreeOk(vm) && DataFrames(vm, fr)
    ensures FreeOk(Clone(vm).0) && DataFrames(Clone(vm).0, fr)
  {
    hide Ent, CopyFrame, Alloc, Present, Separate, Inherited;
    AllocFresh(vm.pool);
    var a, t := Alloc(vm.pool).1 / PAGE, Clone(vm).0;
    CopyFrameEnts(vm.m, vm.kpd, a);
    forall d, i, p | Live(t, d, i) && p in fr ensures Table(t, d, i) != fr[p] {
      if d == a {
        assert Live(vm, vm.kpd, i) && Table(t, a, i) == Table(vm, vm.kpd, i);
      } else {
        assert Live(vm, d, i) && Table(t, d, i) == Table(vm, d, i);
      }
    }
  }

  /** A slot the kernel directory has is shared with the clone. */
  lemma CloneSlot(vm: VM, i: nat)
    requires PagingSpec.Inv(vm) && Clone(vm).1 != 0 && i < 1024 && Present(Ent(vm.m, vm.kpd, i))
    requires forall d :: d in vm.base ==> i in vm.base[d]
    ensures var t := Clone(vm).0;
            t.kpd == vm.kpd && Present(Ent(t.m, t.kpd, i)) && forall d :: d in t.base ==> i in t.base[d]
  {
    hide Ent, CopyFrame, Alloc, Separate, Inherited, TablesOk;
    AllocFresh(vm.pool);
    CopyFrameEnts(vm.m, vm.kpd, Alloc(vm.pool).1 / PAGE);
  }

  lemma SwitchFits(c: Config, vm: VM, fr: map<nat, nat>, d: nat)
    requires TablesFit(c, vm, fr) && d in vm.base
    ensures TablesFit(c, Switch(vm, d), fr)
  {
    hide PagingSpec.Inv, Reach, Used, Ent, Lookup;
    SwitchInv(vm, d);
    SameTables(c, vm, Switch(vm, d), fr);
  }

  // ---------- The kernel ----------

  /** The flat kernel; the page tables; the processor with physical memory; and the frames of the kernel's data
      pages. */
  datatype State = State(k: K.State, vm: VM, cpu: W.Cpu, fr: map<nat, nat>)

  /** Living processes have directories, and the current one's is loaded. */
  ghost predicate Dirs(s: S.Sched, vm: VM) {
    && |s.procs| == S.MAX && s.current < S.MAX && vm.cur == FrameNo(K.Dir(s, s.current))
    && forall p: nat :: K.AliveAt(s, p) ==> FrameNo(K.Dir(s, p)) in vm.base
  }

  ghost predicate FramesExist(fr: map<nat, nat>) {
    forall p :: p in fr ==> fr[p] < PAGES
  }

  ghost predicate Inv(c: Config, z: State) {
    && ConfigOk(c) && K.Inv(c.k, z.k) && VmOk(c, z.vm, z.fr, z.k.h.hi) && Dirs(z.k.y.sched, z.vm)
    && z.cpu.r == z.k.w.cpu.r && FramesExist(z.fr) && Agree(z.cpu.m, z.k.w.cpu.m, z.fr)
  }

  /** Stacks in use and saved stack pointers lie on data pages. */
  lemma StackOnData(c: Config, z: State, p: nat)
    requires Inv(c, z) && p in z.k.w.areas
    ensures p < S.MAX && z.k.w.areas[p].cell == c.k.cells[p] && c.k.cells[p] / PAGE in z.fr
    ensures forall x: nat :: z.k.w.areas[p].Holds(x) ==> x / PAGE in z.fr
  {
    hide TablesFit, Agree, W.Inv, S.Inv, H.Tiles, K.HasStack, K.Stacks;
    var s, h := z.k.y.sched, z.k.h;
    K.AreaFits(c.k, s, h, p);
    if p > 0 {
      TopWithin(c, z, p);
      forall x: nat | z.k.w.areas[p].Holds(x) ensures x / PAGE in z.fr {
        InHeapPages(c, h.hi, x);
      }
    }
  }

  lemma TopWithin(c: Config, z: State, p: nat)
    requires Inv(c, z) && 1 <= p < S.MAX && K.AliveAt(z.k.y.sched, p)
    ensures c.k.lo + S.STACK_SIZE <= K.Top(z.k.y.sched, p) <= z.k.h.hi
  {
    hide TablesFit, Agree, W.Inv, S.Inv, H.Tiles, K.HasStack, H.IsLive;
    K.StackWithin(z.k.h.blocks, c.k.lo, z.k.h.hi, K.Top(z.k.y.sched, p));
  }

  lemma InHeapPages(c: Config, hi: nat, x: nat)
    requires c.k.lo % PAGE == 0 && hi % PAGE == 0 && c.k.lo <= x < hi
    ensures x / PAGE in HeapPages(c, hi)
  {
  }

  // ---------- The switch ----------

  /** The end of schedule for next process q: its directory is loaded, its saved stack pointer read, context_switch
      called. None is a page fault. */
  ghost function SwitchCode(c: Config, z: State, q: nat, ret: Word): Option<W.Cpu>
    requires |c.k.cells| == S.MAX && q < S.MAX && z.k.w.cur < S.MAX && |z.k.y.sched.procs| == S.MAX
    requires c.k.cells[z.k.w.cur] < MEM
  {
    var d := FrameNo(K.Dir(z.k.y.sched, q));
    match Ld(z.vm.m, d, z.cpu.m, c.k.cells[q])
    case None => None
    case Some(newEsp) => SwitchThrough(z.vm.m, d, z.cpu, c.k.cells[z.k.w.cur], newEsp, ret)
  }

  lemma {:induction false} CoveredBelow(t: Ram, d: nat, fr: map<nat, nat>, esp: nat, n: nat)
    requires d < PAGES && 4 * n <= esp < MEM && forall x: Word :: x / PAGE in fr ==> Here(t, d, x)
    requires forall x: nat :: esp - 4 * n <= x < esp ==> x / PAGE in fr
    ensures Covered(fr, esp, n) && HereBelow(t, d, esp, n)
    decreases n
  {
    hide Here;
    if n > 0 {
      CoveredBelow(t, d, fr, esp - 4, n - 1);
    }
  }

  /** Where the call of context_switch goes. */
  lemma CallOnData(c: Config, z: State)
    requires Inv(c, z) && K.Room(z.k.w)
    ensures z.k.w.cur < S.MAX && |c.k.cells| == S.MAX && c.k.cells[z.k.w.cur] < MEM
    ensures c.k.cells[z.k.w.cur] / PAGE in z.fr
    ensures z.k.w.areas[z.k.w.cur].cell == c.k.cells[z.k.w.cur]
    ensures var esp, cell := z.k.w.cpu.r.esp, c.k.cells[z.k.w.cur];
            && 28 <= esp && esp + 64 < MEM && !(esp - 28 <= cell < esp)
            && forall x: nat :: esp - 28 <= x < esp ==> x / PAGE in z.fr
  {
    hide VmOk, Agree, S.Inv, K.Stacks, K.HeapOk, K.ConfigOk, W.Intact;
    var w, l := z.k.w, z.k.w.areas;
    K.SizeOk(c.k);
    StackOnData(c, z, w.cur);
    assert !l[w.cur].Holds(l[w.cur].cell);
  }

  /** Where its frame is popped from. */
  lemma FrameOnData(c: Config, z: State, q: nat)
    requires Inv(c, z) && q in z.k.w.saved
    ensures q in z.k.w.areas && K.AliveAt(z.k.y.sched, q) && q < S.MAX && |c.k.cells| == S.MAX
    ensures |z.k.y.sched.procs| == S.MAX
    ensures z.k.w.areas[q].cell == c.k.cells[q] < MEM && c.k.cells[q] / PAGE in z.fr
    ensures var sp := z.k.w.cpu.m[c.k.cells[q]];
            sp + 20 < MEM && forall x: nat :: sp <= x < sp + 20 ==> x / PAGE in z.fr
  {
    hide VmOk, Agree, S.Inv, K.Stacks, K.HeapOk, K.ConfigOk, W.FrameAt;
    K.SizeOk(c.k);
    StackOnData(c, z, q);
    AreaAlive(c.k, z.k, q);
    var a := z.k.w.areas[q];
    assert a.Ok() && W.Intact(z.k.w.areas, z.k.w.cpu.m, q, z.k.w.saved[q]);
    forall x: nat | z.k.w.cpu.m[a.cell] <= x < z.k.w.cpu.m[a.cell] + 20 ensures x / PAGE in z.fr {
      assert a.Holds(x);
    }
  }

  /** Everything the switch to q touches is mapped in q's directory. */
  lemma SwitchMapped(c: Config, z: State, q: nat)
    requires Inv(c, z) && q in z.k.w.saved && K.Room(z.k.w)
    ensures q in z.k.w.areas && q < S.MAX && z.k.w.cur < S.MAX && |c.k.cells| == S.MAX && |z.k.y.sched.procs| == S.MAX
    ensures z.k.w.areas[q].cell == c.k.cells[q] < MEM && z.k.w.areas[z.k.w.cur].cell == c.k.cells[z.k.w.cur] < MEM
    ensures var w, d := z.k.w, FrameNo(K.Dir(z.k.y.sched, q));
            var esp, cell, newEsp := w.cpu.r.esp, c.k.cells[w.cur], w.cpu.m[c.k.cells[q]];
            && 28 <= esp && esp + 64 < MEM && newEsp + 20 < MEM && !(esp - 28 <= cell < esp) && d < PAGES
            && Partly(z.vm.m, d, z.fr) && AllCovered(z.fr, esp, cell, newEsp) && AllHere(z.vm.m, d, esp, cell, newEsp)
            && c.k.cells[q] / PAGE in z.fr && Here(z.vm.m, d, c.k.cells[q])
  {
    hide VmOk, Agree, K.Inv, Partly, Here, Covered, HereBelow, ConfigOk;
    CallOnData(c, z);
    FrameOnData(c, z, q);
    var d := FrameNo(K.Dir(z.k.y.sched, q));
    DataHere(c, z, d);
    CoveredBelow(z.vm.m, d, z.fr, z.k.w.cpu.r.esp, 7);
  }

  /** In the kernel of this module the switch goes through, and does what the flat one does. */
  lemma SwitchRuns(c: Config, z: State, q: nat, ret: Word)
    requires Inv(c, z) && q in z.k.w.saved && K.Room(z.k.w)
    ensures |c.k.cells| == S.MAX && q < S.MAX && z.k.w.cur < S.MAX && |z.k.y.sched.procs| == S.MAX
    ensures c.k.cells[z.k.w.cur] < MEM
    ensures SwitchCode(c, z, q, ret).Some?
    ensures var u, v := SwitchCode(c, z, q, ret).value, W.SwitchStep(z.k.w, q, ret).cpu;
            u.r == v.r && Agree(u.m, v.m, z.fr)
  {
    hide VmOk, Agree, K.Inv, SwitchThrough, Partly, Here, W.ContextSwitch, W.Call, AllCovered, AllHere, ConfigOk, Dirs,
         Ld;
    SwitchMapped(c, z, q);
    var w, fr, d := z.k.w, z.fr, FrameNo(K.Dir(z.k.y.sched, q));
    var m, newEsp := w.cpu.m, w.cpu.m[c.k.cells[q]];
    LdIs(z.vm.m, d, fr, z.cpu.m, m, c.k.cells[q]);
    SwitchThroughIs(z.vm.m, d, fr, z.cpu, m, c.k.cells[w.cur], newEsp, ret);
    assert W.Cpu(z.cpu.r, m) == w.cpu;
  }

  lemma DataHere(c: Config, z: State, d: nat)
    requires Inv(c, z) && d in z.vm.base
    ensures Partly(z.vm.m, d, z.fr) && forall x: Word :: x / PAGE in z.fr ==> Here(z.vm.m, d, x)
  {
    hide Agree, K.Inv, Reach, Growable, Partly, Here;
    DirBound(z.vm, d);
    EverywherePartly(z.vm, z.fr, d);
  }

  // ---------- Scheduling steps ----------

  /** Yielding, sleeping and timer interrupts. */
  ghost function SchedStep(c: Config, z: State, o: S.Op, ret: Word): Option<State>
    requires Inv(c, z) && !o.DoCreate? && !o.DoExit? && K.Room(z.k.w)
  {
    var k := K.SchedStep(c.k, z.k, o, ret);
    SwitchTo(c, z, k, ret)
  }

  /** The switch to whomever the flat kernel k has picked. */
  ghost function SwitchTo(c: Config, z: State, k: K.State, ret: Word): Option<State>
    requires Inv(c, z) && k.y.sched.current < S.MAX
  {
    var q := k.y.sched.current;
    if q == z.k.w.cur then Some(z.(k := k)) else
    InRange(c, z);
    match SwitchCode(c, z, q, ret)
    case None => None
    case Some(u) => Some(State(k, Switch(z.vm, FrameNo(K.Dir(z.k.y.sched, q))), u, z.fr))
  }

  lemma InRange(c: Config, z: State)
    requires Inv(c, z)
    ensures |c.k.cells| == S.MAX && z.k.w.cur < S.MAX && |z.k.y.sched.procs| == S.MAX && c.k.cells[z.k.w.cur] < MEM
  {
    hide VmOk, Agree, S.Inv, K.Stacks, K.HeapOk;
  }

  /** The switch leaves everything in order, given that the flat kernel is. */
  lemma SwitchToInv(c: Config, z: State, k: K.State, ret: Word)
    requires Inv(c, z) && K.Room(z.k.w) && K.Inv(c.k, k) && k.h.hi == z.k.h.hi && k.y.sched.current < S.MAX
    requires var q := k.y.sched.current;
             if q == z.k.w.cur then k.w.cpu == z.k.w.cpu
             else q in z.k.w.saved && k.w.cpu == W.SwitchStep(z.k.w, q, ret).cpu
    requires forall p: nat :: K.AliveAt(k.y.sched, p) ==>
             K.AliveAt(z.k.y.sched, p) && K.Dir(k.y.sched, p) == K.Dir(z.k.y.sched, p)
    ensures SwitchTo(c, z, k, ret).Some? && Inv(c, SwitchTo(c, z, k, ret).value)
  {
    hide TablesFit, Agree, S.Inv, W.Inv, K.Stacks, K.HeapOk, SwitchCode, W.SwitchStep, K.ConfigOk, ConfigOk;
    var q := k.y.sched.current;
    CurrentAlive(c.k, k);
    if q != z.k.w.cur {
      SwitchRuns(c, z, q, ret);
      SwitchFits(c, z.vm, z.fr, FrameNo(K.Dir(z.k.y.sched, q)));
    }
  }

  lemma CurrentAlive(c: K.Config, k: K.State)
    requires K.Inv(c, k)
    ensures K.AliveAt(k.y.sched, k.y.sched.current) && k.w.cur == k.y.sched.current && |k.y.sched.procs| == S.MAX
  {
    hide K.Stacks, K.HeapOk, W.Inv;
    K.IdlePid(k.y.sched);
  }

  lemma SchedRuns(c: Config, z: State, o: S.Op, ret: Word)
    requires Inv(c, z) && !o.DoCreate? && !o.DoExit? && K.Room(z.k.w)
    ensures SchedStep(c, z, o, ret).Some? && Inv(c, SchedStep(c, z, o, ret).value)
    ensures SchedStep(c, z, o, ret).value.k == K.SchedStep(c.k, z.k, o, ret)
  {
    hide VmOk, Agree, S.Inv, W.Inv, K.Stacks, K.HeapOk, SwitchTo, S.Step, W.Step, K.ConfigOk, ConfigOk, K.SwitchOk;
    var k := K.SchedStep(c.k, z.k, o, ret);
    K.SchedInv(c.k, z.k, o, ret);
    K.PickedIsSuspended(c.k, z.k, o);
    forall p: nat | K.AliveAt(k.y.sched, p)
      ensures K.AliveAt(z.k.y.sched, p) && K.Dir(k.y.sched, p) == K.Dir(z.k.y.sched, p)
    {
      CurrentAlive(c.k, k);
      K.CalmStates(z.k.y, o, p);
    }
    CurrentAlive(c.k, k);
    SwitchIfCpu(z.k.w, k.y.sched.current, ret);
    SwitchToInv(c, z, k, ret);
    SwitchToFlat(c, z, k, ret);
  }

  lemma SwitchIfCpu(w: W.Sys, q: nat, ret: Word)
    requires W.Inv(w) && (q != w.cur ==> q in w.saved && K.Room(w))
    ensures q == w.cur ==> K.SwitchIf(w, q, ret) == w
    ensures q != w.cur ==> K.SwitchIf(w, q, ret).cpu == W.SwitchStep(w, q, ret).cpu
  {
    hide W.SwitchStep, W.Inv;
  }

  lemma SwitchToFlat(c: Config, z: State, k: K.State, ret: Word)
    requires Inv(c, z) && k.y.sched.current < S.MAX && SwitchTo(c, z, k, ret).Some?
    ensures SwitchTo(c, z, k, ret).value.k == k
  {
    hide Inv, SwitchCode;
  }

  /** process_exit. */
  ghost function ExitStep(c: Config, z: State, code: int, ret: Word): Option<State>
    requires Inv(c, z) && K.Room(z.k.w)
  {
    var k := K.ExitStep(c.k, z.k, code, ret);
    CurrentAlive(c.k, z.k);
    ExitPicks(c.k, z.k, code, ret);
    SwitchTo(c, z, k, ret)
  }

  lemma ExitPicks(c: K.Config, k: K.State, code: int, ret: Word)
    requires K.Inv(c, k) && K.Room(k.w)
    ensures K.ExitStep(c, k, code, ret).y.sched.current < S.MAX
  {
    hide S.Inv, W.Inv, K.Stacks, K.HeapOk, S.Step;
    CurrentAlive(c, k);
    if k.y.sched.procs[k.y.sched.current].pid != 0 {
      K.ExitStates(k.y, code, 0);
    }
  }

  lemma ExitRuns(c: Config, z: State, code: int, ret: Word)
    requires Inv(c, z) && K.Room(z.k.w)
    ensures ExitStep(c, z, code, ret).Some? && Inv(c, ExitStep(c, z, code, ret).value)
    ensures ExitStep(c, z, code, ret).value.k == K.ExitStep(c.k, z.k, code, ret)
  {
    hide VmOk, Agree, S.Inv, W.Inv, K.Stacks, K.HeapOk, SwitchTo, S.Step, W.Step, K.ConfigOk, ConfigOk, K.SwitchOk,
         H.Free;
    var k, s := K.ExitStep(c.k, z.k, code, ret), z.k.y.sched;
    CurrentAlive(c.k, z.k);
    ExitPicks(c.k, z.k, code, ret);
    K.ExitInv(c.k, z.k, code, ret);
    CurrentAlive(c.k, k);
    if s.procs[s.current].pid != 0 {
      K.PickedIsSuspended(c.k, z.k, S.DoExit(code));
      K.ExitStates(z.k.y, code, 0);
      forall p: nat | K.AliveAt(k.y.sched, p) ensures K.AliveAt(s, p) && K.Dir(k.y.sched, p) == K.Dir(s, p) {
        K.ExitStates(z.k.y, code, p);
      }
      ExitCpu(z.k.w, k.y.sched.current, ret);
    }
    SwitchToInv(c, z, k, ret);
    SwitchToFlat(c, z, k, ret);
  }

  lemma ExitCpu(w: W.Sys, q: nat, ret: Word)
    requires W.Inv(w) && q in w.saved && K.Room(w)
    ensures K.ExitInto(w, q, ret).cpu == W.SwitchStep(w, q, ret).cpu
  {
    hide W.SwitchStep, W.Inv;
  }

  // ---------- Memory steps ----------

  /** Flat memory as physical memory now has it. */
  ghost function Pull(phys: W.Store, fr: map<nat, nat>, m: W.Store): W.Store
    requires FramesExist(fr)
  {
    seq(MEM, x requires 0 <= x < MEM => if x / PAGE in fr then phys[AddressIn(fr[x / PAGE], x)] else m[x])
  }

  ghost function Refresh(k: K.State, regs: W.Regs, phys: W.Store, fr: map<nat, nat>): K.State
    requires FramesExist(fr)
  {
    k.(w := k.w.(cpu := W.Cpu(regs, Pull(phys, fr, k.w.cpu.m))))
  }

  /** phys leaves the stacks of others and the saved stack pointers alone. */
  ghost predicate WritesOwn(z: State, phys: W.Store)
    requires FramesExist(z.fr)
  {
    forall x: Word, p: nat :: x / PAGE in z.fr && Foreign(z.k.w, p, x) ==>
      phys[AddressIn(z.fr[x / PAGE], x)] == z.cpu.m[AddressIn(z.fr[x / PAGE], x)]
  }

  /** x is p's saved stack pointer, or on p's stack, and p is not the current process. */
  ghost predicate Foreign(w: W.Sys, p: nat, x: nat) {
    p in w.areas && (x == w.areas[p].cell || (p != w.cur && w.areas[p].Holds(x)))
  }

  /** More data pages, and writes by the current process, are nothing to the suspended ones. */
  lemma RefreshOk(c: Config, z: State, regs: W.Regs, phys: W.Store, gr: map<nat, nat>)
    requires Inv(c, z) && FramesExist(gr) && WritesOwn(z, phys)
    requires forall p :: p in z.fr ==> p in gr && gr[p] == z.fr[p]
    ensures K.Inv(c.k, Refresh(z.k, regs, phys, gr)) && Agree(phys, Refresh(z.k, regs, phys, gr).w.cpu.m, gr)
  {
    hide VmOk, S.Inv, K.Stacks, K.HeapOk, K.ConfigOk, K.SwitchOk, W.Inv, AddressIn;
    var w, m := z.k.w, Pull(phys, gr, z.k.w.cpu.m);
    forall x, p | 0 <= x < MEM && p in w.areas && (x == w.areas[p].cell || (p != w.cur && w.areas[p].Holds(x)))
      ensures m[x] == w.cpu.m[x]
    {
      StackOnData(c, z, p);
      assert x / PAGE in z.fr && Foreign(w, p, x);
    }
    assert W.KeepsOff(w, m);
    K.ComputeOk(c.k, z.k, regs, m);
  }

  /** The growth of kmalloc: a frame, and the page at the end of the heap mapped to it in the current directory. */
  ghost function GrowCode(vm: VM, fr: map<nat, nat>, hi: nat): Option<(VM, map<nat, nat>)>
    requires vm.cur < PAGES && hi < MEM
  {
    var (pool, a) := Alloc(vm.pool);
    match MapThrough(vm.(pool := pool), hi, a, PRESENT + WRITE)
    case None => None
    case Some(t) => Some((t, fr[hi / PAGE := FrameNo(a)]))
  }

  /** kmalloc grows the heap. */
  predicate Grows(h: H.State, vm: VM, size: nat) {
    size != 0 && H.FirstFit(h.blocks, H.Total(size)) == |h.blocks| && Alloc(vm.pool).1 != 0
  }

  ghost function GrowIf(vm: VM, fr: map<nat, nat>, h: H.State, size: nat): Option<(VM, map<nat, nat>)>
    requires vm.cur < PAGES && h.hi < MEM
  {
    if Grows(h, vm, size) then GrowCode(vm, fr, h.hi) else Some((vm, fr))
  }

  lemma GrowRuns(c: Config, vm: VM, fr: map<nat, nat>, h: H.State, size: nat)
    requires ConfigOk(c) && VmOk(c, vm, fr, h.hi) && H.NewEnd(h.blocks, h.hi, size, true) <= c.limit
    ensures vm.cur < PAGES && h.hi < MEM && GrowIf(vm, fr, h, size).Some?
    ensures var (t, gr) := GrowIf(vm, fr, h, size).value;
            && VmOk(c, t, gr, H.NewEnd(h.blocks, h.hi, size, Alloc(vm.pool).1 != 0)) && FramesExist(gr)
            && t.base == vm.base && t.cur == vm.cur && t.kpd == vm.kpd
            && forall p :: p in fr ==> p in gr && gr[p] == fr[p]
  {
    hide VmOk, K.ConfigOk, Alloc, GrowCode, H.FirstFit, H.Total;
    OkParts(c, vm, fr, h.hi);
    if Grows(h, vm, size) {
      GrowsOnce(c, vm, fr, h.hi);
    }
  }

  lemma OkParts(c: Config, vm: VM, fr: map<nat, nat>, hi: nat)
    requires ConfigOk(c) && VmOk(c, vm, fr, hi)
    ensures vm.cur < PAGES && FramesExist(fr) && hi < MEM
  {
    hide TablesFit;
    FitsParts(c, vm, fr);
  }

  lemma GrowsOnce(c: Config, vm: VM, fr: map<nat, nat>, hi: nat)
    requires ConfigOk(c) && VmOk(c, vm, fr, hi) && hi + PAGE <= c.limit && Alloc(vm.pool).1 != 0
    ensures vm.cur < PAGES && hi < MEM && GrowCode(vm, fr, hi).Some?
    ensures var (t, gr) := GrowCode(vm, fr, hi).value;
            && VmOk(c, t, gr, hi + PAGE) && FramesExist(gr) && t.base == vm.base && t.cur == vm.cur && t.kpd == vm.kpd
            && forall p :: p in fr ==> p in gr && gr[p] == fr[p]
  {
    hide TablesFit, K.ConfigOk, Alloc, GrowCode, HeapPages;
    FitsParts(c, vm, fr);
    PageAtEnd(c, fr, hi, FrameNo(Alloc(vm.pool).1));
    GrowAt(c, vm, fr, hi / PAGE);
    FitsParts(c, GrowCode(vm, fr, hi).value.0, GrowCode(vm, fr, hi).value.1);
  }

  lemma FitsParts(c: Config, vm: VM, fr: map<nat, nat>)
    requires TablesFit(c, vm, fr)
    ensures vm.cur < PAGES && FramesExist(fr)
  {
    hide Reach, Growable, Everywhere, TablesOk, Separate, Inherited;
  }

  lemma PageAtEnd(c: Config, fr: map<nat, nat>, hi: nat, f: nat)
    requires ConfigOk(c) && hi % PAGE == 0 && c.k.lo <= hi && hi + PAGE <= c.limit
    requires fr.Keys == c.image + HeapPages(c, hi)
    ensures var page := hi / PAGE;
            && page * PAGE == hi && page !in fr && InHeap(c, c.limit, page) && (hi + PAGE) % PAGE == 0
            && fr[page := f].Keys == c.image + HeapPages(c, hi + PAGE)
  {
    hide K.ConfigOk;
    var page := hi / PAGE;
    assert HeapPages(c, hi + PAGE) == HeapPages(c, hi) + {page};
  }

  lemma GrowAt(c: Config, vm: VM, fr: map<nat, nat>, page: nat)
    requires TablesFit(c, vm, fr) && InHeap(c, c.limit, page) && page !in fr && Alloc(vm.pool).1 != 0
    requires page * PAGE < MEM && vm.cur < PAGES
    ensures page * PAGE / PAGE == page && GrowCode(vm, fr, page * PAGE).Some?
    ensures var (t, gr) := GrowCode(vm, fr, page * PAGE).value;
            && TablesFit(c, t, gr) && gr == fr[page := FrameNo(Alloc(vm.pool).1)]
            && t.base == vm.base && t.cur == vm.cur && t.kpd == vm.kpd
  {
    hide PagingSpec.Inv, Reach, Growable, DataFrames, FreeOk, Everywhere, Alloc, MapThrough, MapPage;
    assert Growable(vm, c.near, page);
    GrowablePage(vm, c.near, page);
    GrowMaps(c, vm, fr, page);
  }

  lemma GrowablePage(vm: VM, near: nat, page: nat)
    requires Growable(vm, near, page)
    ensures page < PAGES && page * PAGE / PAGE == page
  {
    hide Used, Ent;
    PageStart(page);
  }

  /** kmalloc(size). */
  ghost function MallocStep(c: Config, z: State, size: nat): Option<State>
    requires Inv(c, z) && H.NewEnd(z.k.h.blocks, z.k.h.hi, size, true) <= c.limit
  {
    GrowRuns(c, z.vm, z.fr, z.k.h, size);
    match GrowIf(z.vm, z.fr, z.k.h, size)
    case None => None
    case Some((vm, fr)) =>
      var k := Refresh(z.k, z.cpu.r, z.cpu.m, fr);
      Some(State(Allocated(k, size, Alloc(z.vm.pool).1 != 0), vm, z.cpu, fr))
  }

  ghost function Allocated(k: K.State, size: nat, page: bool): K.State {
    k.(h := H.State(H.Malloc(k.h.blocks, k.h.hi, size, page).0, H.NewEnd(k.h.blocks, k.h.hi, size, page)))
  }

  lemma AllocatedOk(c: Config, k: K.State, size: nat, page: bool)
    requires K.Inv(c.k, k) && H.NewEnd(k.h.blocks, k.h.hi, size, page) < MEM - 64
    ensures K.Inv(c.k, Allocated(k, size, page))
  {
    hide S.Inv, W.Inv, K.HeapOk, K.Stacks, K.SwitchOk, K.ConfigOk, H.Malloc, H.NewEnd;
    K.GrownHeap(c.k, k.h, size, page);
    K.MallocStacks(c.k, k.y.sched, k.h, size, page);
  }

  lemma NewEndMore(h: H.State, size: nat, page: bool)
    ensures H.NewEnd(h.blocks, h.hi, size, page) <= H.NewEnd(h.blocks, h.hi, size, true)
  {
  }

  lemma MallocRuns(c: Config, z: State, size: nat)
    requires Inv(c, z) && H.NewEnd(z.k.h.blocks, z.k.h.hi, size, true) <= c.limit
    ensures MallocStep(c, z, size).Some? && Inv(c, MallocStep(c, z, size).value)
  {
    hide VmOk, Agree, K.Inv, H.Malloc, H.NewEnd, GrowIf, Alloc, Pull, WritesOwn, K.ConfigOk;
    var h, page := z.k.h, Alloc(z.vm.pool).1 != 0;
    GrowRuns(c, z.vm, z.fr, h, size);
    var (vm, fr) := GrowIf(z.vm, z.fr, h, size).value;
    SameWrites(z);
    RefreshOk(c, z, z.cpu.r, z.cpu.m, fr);
    NewEndMore(h, size, page);
    AllocatedOk(c, Refresh(z.k, z.cpu.r, z.cpu.m, fr), size, page);
  }

  lemma SameWrites(z: State)
    requires FramesExist(z.fr)
    ensures WritesOwn(z, z.cpu.m)
  {
  }

  // ---------- Creation ----------

  /** process_create. */
  ghost function CreateStep(c: Config, z: State, entry: Word): Option<State>
    requires Inv(c, z) && Near(z.vm.pool, c.near) && H.NewEnd(z.k.h.blocks, z.k.h.hi, S.STACK_SIZE, true) <= c.limit
  {
    HeapBelowTop(c, z);
    if S.FreeSlot(z.k.y.sched.procs, 1) == S.MAX then Some(z.(k := K.CreateStep(c.k, z.k, 0, false, entry))) else
    CloneRuns(c, z);
    match CloneThrough(z.vm)
    case None => None
    case Some((vm, pd)) =>
      if pd == 0 then Some(z.(k := K.CreateStep(c.k, z.k, 0, false, entry), vm := vm))
      else NewProcess(c, z.(vm := vm), pd, entry)
  }

  lemma HeapBelowTop(c: Config, z: State)
    requires Inv(c, z)
    ensures H.NewEnd(z.k.h.blocks, z.k.h.hi, S.STACK_SIZE, false) < MEM - 64
    ensures |z.k.y.sched.procs| == S.MAX && |c.k.cells| == S.MAX && forall p :: 0 <= p < S.MAX ==> c.k.cells[p] < MEM
  {
    hide VmOk, Agree, S.Inv, W.Inv, K.Stacks, K.SwitchOk, H.FirstFit;
  }

  /** A cloned directory changes nothing for the processes there are. */
  lemma CloneRuns(c: Config, z: State)
    requires Inv(c, z) && Near(z.vm.pool, c.near)
    ensures z.vm.cur < PAGES && z.vm.kpd < PAGES && CloneThrough(z.vm).Some?
    ensures var (vm, pd) := CloneThrough(z.vm).value; Inv(c, z.(vm := vm)) && (pd != 0 ==> FrameNo(pd) in vm.base)
  {
    hide TablesFit, Agree, K.Inv, ConfigOk, Clone, CloneThrough, Alloc;
    CloneFits(c, z.vm, z.fr);
    CloneCur(z.vm);
  }

  lemma CloneCur(vm: VM)
    requires vm.kpd < PAGES
    ensures Clone(vm).0.cur == vm.cur
  {
  }

  /** The rest of process_create, once it has a directory. */
  ghost function NewProcess(c: Config, z: State, pd: Word, entry: Word): Option<State>
    requires Inv(c, z) && pd != 0 && S.FreeSlot(z.k.y.sched.procs, 1) < S.MAX
    requires H.NewEnd(z.k.h.blocks, z.k.h.hi, S.STACK_SIZE, true) <= c.limit
  {
    GrowRuns(c, z.vm, z.fr, z.k.h, S.STACK_SIZE);
    match GrowIf(z.vm, z.fr, z.k.h, S.STACK_SIZE)
    case None => None
    case Some((vm, fr)) =>
      var page := Alloc(z.vm.pool).1 != 0;
      var i, ptr := S.FreeSlot(z.k.y.sched.procs, 1), H.Malloc(z.k.h.blocks, z.k.h.hi, S.STACK_SIZE, page).1;
      CreateFlat(c, z, fr, pd, page, entry);
      var k := K.CreateStep(c.k, Refresh(z.k, z.cpu.r, z.cpu.m, fr), pd, page, entry);
      if ptr == 0 then Some(State(k, vm, z.cpu, fr)) else
      match StoreAll(vm.m, vm.cur, z.cpu.m, FrameWords(ptr + S.STACK_SIZE, c.k.cells[i], entry, c.k.wrapper))
      case None => None
      case Some(phys) => Some(State(k, vm, z.cpu.(m := phys), fr))
  }

  /** The flat side of it. */
  lemma CreateFlat(c: Config, z: State, fr: map<nat, nat>, pd: Word, page: bool, entry: Word)
    requires Inv(c, z) && pd != 0 && S.FreeSlot(z.k.y.sched.procs, 1) < S.MAX && FramesExist(fr)
    requires H.NewEnd(z.k.h.blocks, z.k.h.hi, S.STACK_SIZE, true) <= c.limit
    requires forall p :: p in z.fr ==> p in fr && fr[p] == z.fr[p]
    ensures var k0, i := Refresh(z.k, z.cpu.r, z.cpu.m, fr), S.FreeSlot(z.k.y.sched.procs, 1);
            var ptr := H.Malloc(k0.h.blocks, k0.h.hi, S.STACK_SIZE, page).1;
            && K.Inv(c.k, k0) && Agree(z.cpu.m, k0.w.cpu.m, fr)
            && H.NewEnd(k0.h.blocks, k0.h.hi, S.STACK_SIZE, page) < MEM - 64
            && i < |c.k.cells| && c.k.cells[i] < MEM && |z.k.y.sched.procs| == S.MAX
            && K.Inv(c.k, K.CreateStep(c.k, k0, pd, page, entry))
            && K.CreateStep(c.k, k0, pd, page, entry).h.hi == H.NewEnd(k0.h.blocks, k0.h.hi, S.STACK_SIZE, page)
            && (ptr == 0 ==> K.CreateStep(c.k, k0, pd, page, entry).w == k0.w)
            && (ptr != 0 ==> c.k.lo <= ptr && ptr + S.STACK_SIZE <= H.NewEnd(k0.h.blocks, k0.h.hi, S.STACK_SIZE, page))
  {
    hide VmOk, Agree, K.Inv, H.Malloc, H.NewEnd, Pull, WritesOwn, S.FreeSlot, K.CreateStep;
    var k0 := Refresh(z.k, z.cpu.r, z.cpu.m, fr);
    SameWrites(z);
    RefreshOk(c, z, z.cpu.r, z.cpu.m, fr);
    NewEndMore(z.k.h, S.STACK_SIZE, page);
    HeapBelowTop(c, z);
    K.CreateInv(c.k, k0, pd, page, entry);
    CreateHeap(c.k, k0, pd, page, entry);
  }

  lemma CreateHeap(c: K.Config, k: K.State, pd: Word, page: bool, entry: Word)
    requires K.Inv(c, k) && pd != 0 && S.FreeSlot(k.y.sched.procs, 1) < S.MAX
    requires H.NewEnd(k.h.blocks, k.h.hi, S.STACK_SIZE, page) < MEM - 64
    ensures var t, ptr := K.CreateStep(c, k, pd, page, entry), H.Malloc(k.h.blocks, k.h.hi, S.STACK_SIZE, page).1;
            && t.h.hi == H.NewEnd(k.h.blocks, k.h.hi, S.STACK_SIZE, page) && (ptr == 0 ==> t.w == k.w)
            && (ptr != 0 ==> c.lo <= ptr && ptr + S.STACK_SIZE <= H.NewEnd(k.h.blocks, k.h.hi, S.STACK_SIZE, page))
  {
    hide S.Inv, W.Inv, S.Step, W.Step, K.SwitchOk, K.Stacks, H.Malloc, H.NewEnd, H.Tiles, K.HasStack, S.FreeSlot,
         H.IsLive;
    var h := k.h;
    if H.Malloc(h.blocks, h.hi, S.STACK_SIZE, page).1 != 0 {
      K.GrownHeap(c, h, S.STACK_SIZE, page);
      K.MallocGivesStack(h.blocks, c.lo, h.hi, page);
      var (r, ptr) := H.Malloc(h.blocks, h.hi, S.STACK_SIZE, page);
      K.StackWithin(r, c.lo, H.NewEnd(h.blocks, h.hi, S.STACK_SIZE, page), ptr + S.STACK_SIZE);
    }
  }

  /** The new process's memory, flat: its first frame, and nothing else. */
  lemma CreateCpu(c: K.Config, k: K.State, pd: Word, page: bool, entry: Word)
    requires K.Inv(c, k) && pd != 0 && S.FreeSlot(k.y.sched.procs, 1) < S.MAX
    requires H.NewEnd(k.h.blocks, k.h.hi, S.STACK_SIZE, page) < MEM - 64
    requires H.Malloc(k.h.blocks, k.h.hi, S.STACK_SIZE, page).1 != 0
    ensures var i, top := S.FreeSlot(k.y.sched.procs, 1),
            H.Malloc(k.h.blocks, k.h.hi, S.STACK_SIZE, page).1 + S.STACK_SIZE;
            && top < MEM && i < |c.cells| && c.cells[i] < MEM
            && var t := K.CreateStep(c, k, pd, page, entry);
               && t.w.cpu.r == k.w.cpu.r
               && t.w.cpu.m == W.InitialFrame(k.w.cpu.m, top, entry, c.wrapper)[c.cells[i] := top - 28]
  {
    hide S.Inv, W.Inv, S.Step, K.SwitchOk, K.Stacks, H.Malloc, H.NewEnd, K.HeapOk, S.FreeSlot, W.InitialFrame, W.Apart;
    K.CreateReady(c, k, pd, page, entry);
  }

  /** Whoever is alive after a creation has a directory, and the same process is current. */
  lemma CreateDirs(c: K.Config, k: K.State, vm: VM, pd: Word, page: bool, entry: Word)
    requires K.Inv(c, k) && Dirs(k.y.sched, vm) && H.NewEnd(k.h.blocks, k.h.hi, S.STACK_SIZE, page) < MEM - 64
    requires pd != 0 ==> FrameNo(pd) in vm.base
    ensures Dirs(K.CreateStep(c, k, pd, page, entry).y.sched, vm)
  {
    hide S.Inv, W.Inv, S.Step, W.Step, K.SwitchOk, K.Stacks, H.Malloc, H.NewEnd, K.HeapOk, K.ConfigOk, S.FreeSlot,
         W.Legal;
    CurrentAlive(c, k);
    var s := k.y.sched;
    var i, ptr := S.FreeSlot(s.procs, 1), H.Malloc(k.h.blocks, k.h.hi, S.STACK_SIZE, page).1;
    if i < S.MAX && pd != 0 && ptr != 0 {
      K.CreateReady(c, k, pd, page, entry);
      DirsAfter(k.y, vm, pd, ptr);
    } else {
      DirsAfter(k.y, vm, pd, 0);
    }
  }

  lemma DirsAfter(y: S.Sys, vm: VM, pd: Word, ptr: Word)
    requires S.Inv(y.sched) && Dirs(y.sched, vm) && ptr + S.STACK_SIZE < MEM && (pd != 0 ==> FrameNo(pd) in vm.base)
    requires K.AliveAt(y.sched, y.sched.current)
    ensures Dirs(S.Step(y, S.DoCreate(pd, ptr)).sched, vm)
  {
    hide S.Inv, S.Step, S.FreeSlot;
    var t := S.Step(y, S.DoCreate(pd, ptr)).sched;
    K.CreateStates(y, pd, ptr, y.sched.current);
    forall p: nat | K.AliveAt(t, p) ensures FrameNo(K.Dir(t, p)) in vm.base {
      K.CreateStates(y, pd, ptr, p);
    }
  }

  lemma NewProcessRuns(c: Config, z: State, pd: Word, entry: Word)
    requires Inv(c, z) && pd != 0 && FrameNo(pd) in z.vm.base && S.FreeSlot(z.k.y.sched.procs, 1) < S.MAX
    requires H.NewEnd(z.k.h.blocks, z.k.h.hi, S.STACK_SIZE, true) <= c.limit
    ensures NewProcess(c, z, pd, entry).Some? && Inv(c, NewProcess(c, z, pd, entry).value)
  {
    hide VmOk, Agree, K.Inv, H.Malloc, H.NewEnd, GrowIf, Alloc, Pull, S.FreeSlot, K.CreateStep, StoreAll, FrameWords,
         W.InitialFrame, K.ConfigOk;
    var page := Alloc(z.vm.pool).1 != 0;
    GrowRuns(c, z.vm, z.fr, z.k.h, S.STACK_SIZE);
    var (vm, fr) := GrowIf(z.vm, z.fr, z.k.h, S.STACK_SIZE).value;
    CreateFlat(c, z, fr, pd, page, entry);
    var k0 := Refresh(z.k, z.cpu.r, z.cpu.m, fr);
    CreateDirs(c.k, k0, vm, pd, page, entry);
    var ptr := H.Malloc(k0.h.blocks, k0.h.hi, S.STACK_SIZE, page).1;
    if ptr != 0 {
      CreateCpu(c.k, k0, pd, page, entry);
      var hi, i := H.NewEnd(k0.h.blocks, k0.h.hi, S.STACK_SIZE, page), S.FreeSlot(k0.y.sched.procs, 1);
      FirstFrame(c, vm, fr, hi, z.cpu.m, k0.w.cpu.m, i, ptr + S.STACK_SIZE, entry);
    }
  }

  /** The stores of process_create go through in the directory of the process that calls it. */
  lemma FirstFrame(c: Config, vm: VM, fr: map<nat, nat>, hi: nat, phys: W.Store, m: W.Store, i: nat, top: Word,
                   entry: Word)
    requires ConfigOk(c) && VmOk(c, vm, fr, hi) && FramesExist(fr) && Agree(phys, m, fr) && i < S.MAX
    requires c.k.lo + S.STACK_SIZE <= top <= hi
    ensures i < |c.k.cells| && c.k.cells[i] < MEM && vm.cur < PAGES
    ensures var r := StoreAll(vm.m, vm.cur, phys, FrameWords(top, c.k.cells[i], entry, c.k.wrapper));
            r.Some? && Agree(r.value, W.InitialFrame(m, top, entry, c.k.wrapper)[c.k.cells[i] := top - 28], fr)
  {
    hide Agree, StoreAll, W.InitialFrame, TablesFit, Here, Partly, HeapPages;
    FitsHere(c, vm, fr);
    forall x: nat | top - S.STACK_SIZE <= x < top ensures x / PAGE in fr {
      InHeapPages(c, hi, x);
    }
    FrameWordsIs(m, top, c.k.cells[i], entry, c.k.wrapper);
    StoreAllIs(vm.m, vm.cur, fr, phys, m, FrameWords(top, c.k.cells[i], entry, c.k.wrapper));
  }

  lemma FitsHere(c: Config, vm: VM, fr: map<nat, nat>)
    requires TablesFit(c, vm, fr)
    ensures vm.cur < PAGES && Partly(vm.m, vm.cur, fr) && forall x: Word :: x / PAGE in fr ==> Here(vm.m, vm.cur, x)
  {
    hide Partly, Here, Reach, Growable, Everywhere;
    FitsParts(c, vm, fr);
    CurIn(vm);
    EverywherePartly(vm, fr, vm.cur);
  }

  lemma CreateRuns(c: Config, z: State, entry: Word)
    requires Inv(c, z) && Near(z.vm.pool, c.near) && H.NewEnd(z.k.h.blocks, z.k.h.hi, S.STACK_SIZE, true) <= c.limit
    ensures CreateStep(c, z, entry).Some? && Inv(c, CreateStep(c, z, entry).value)
  {
    hide VmOk, Agree, K.Inv, H.NewEnd, S.FreeSlot, K.CreateStep, CloneThrough, NewProcess, K.ConfigOk, Near;
    HeapBelowTop(c, z);
    if S.FreeSlot(z.k.y.sched.procs, 1) == S.MAX {
      CreateNobody(c, z, entry);
    } else {
      CloneRuns(c, z);
      var (vm, pd) := CloneThrough(z.vm).value;
      if pd == 0 {
        CreateNobody(c, z.(vm := vm), entry);
      } else {
        FreeSlotBound(z.k.y.sched);
        NewProcessRuns(c, z.(vm := vm), pd, entry);
      }
    }
  }

  lemma FreeSlotBound(s: S.Sched)
    requires |s.procs| == S.MAX
    ensures S.FreeSlot(s.procs, 1) <= S.MAX
  {
  }

  lemma CreateNobody(c: Config, z: State, entry: Word)
    requires Inv(c, z) && H.NewEnd(z.k.h.blocks, z.k.h.hi, S.STACK_SIZE, false) < MEM - 64
    ensures Inv(c, z.(k := K.CreateStep(c.k, z.k, 0, false, entry)))
  {
    hide VmOk, Agree, K.Inv, H.NewEnd, S.FreeSlot, K.CreateStep, K.ConfigOk;
    K.CreateInv(c.k, z.k, 0, false, entry);
    CreateDirs(c.k, z.k, z.vm, 0, false, entry);
    NobodyKeeps(c.k, z.k, entry);
  }

  lemma NobodyKeeps(c: K.Config, k: K.State, entry: Word)
    requires K.Inv(c, k) && H.NewEnd(k.h.blocks, k.h.hi, S.STACK_SIZE, false) < MEM - 64
    ensures K.CreateStep(c, k, 0, false, entry).w == k.w && K.CreateStep(c, k, 0, false, entry).h == k.h
  {
    hide K.Inv, S.Step, H.NewEnd, S.FreeSlot;
  }

  // ---------- Paging steps ----------

  /** Mapping or unmapping a page that is not the kernel's data, nor where the heap may grow. */
  ghost predicate OwnPage(c: Config, z: State, op: PagingSpec.Op) {
    && (op.Map? || op.Unmap?) && PagingSpec.Legal(z.vm, op)
    && (z.vm.cur < PAGES && z.vm.kpd < PAGES ==> Safe(z.vm, c.near, op))
    && op.v / PAGE !in z.fr && !InHeap(c, c.limit, op.v / PAGE)
  }

  lemma PagingFits(c: Config, z: State, op: PagingSpec.Op)
    requires TablesFit(c, z.vm, z.fr) && OwnPage(c, z, op)
    ensures z.vm.cur < PAGES && z.vm.kpd < PAGES && StepThrough(z.vm, op) == Some(PagingSpec.Step(z.vm, op))
    ensures TablesFit(c, PagingSpec.Step(z.vm, op), z.fr)
    ensures PagingSpec.Step(z.vm, op).base == z.vm.base && PagingSpec.Step(z.vm, op).cur == z.vm.cur
  {
    hide PagingSpec.Inv, Reach, Used, MapPage, UnmapPage, StepThrough, FreeOk, DataFrames, Everywhere, Growable, Safe,
         EnsureTable;
    ReachDirs(z.vm, c.near);
    StepThroughIs(z.vm, c.near, op);
    StepInv(z.vm, op);
    if op.Map? {
      MapFits(c, z.vm, z.fr, op.v, op.p, op.flags);
    } else {
      UnmapFits(c, z.vm, z.fr, op.v);
    }
  }

  lemma MapFits(c: Config, vm: VM, fr: map<nat, nat>, v: Word, p: Word, flags: nat)
    requires TablesFit(c, vm, fr) && flags < PAGE && v / PAGE !in fr && vm.cur < PAGES
    requires var t := MapPage(vm, v, p, flags);
             PagingSpec.Inv(t) && Reach(t, c.near) && forall f: nat :: Used(t, c.near, f) ==> Used(vm, c.near, f)
    ensures TablesFit(c, MapPage(vm, v, p, flags), fr)
    ensures MapPage(vm, v, p, flags).base == vm.base && MapPage(vm, v, p, flags).cur == vm.cur
  {
    hide PagingSpec.Inv, Reach, Used, FreeOk, DataFrames, Present, Ent, Alloc, PutEnt, EnsureTable, FrameOf, Sees;
    var t := MapPage(vm, v, p, flags);
    if EnsureTable(vm, SlotOf(v), flags).Some? {
      MapData(vm, fr, v, p, flags);
      MapKeeps(vm, v, p, flags);
      forall d, q: nat | d in t.base && q in fr ensures d < PAGES && q < PAGES && FrameOf(t.m, d, q) == Some(fr[q]) {
        MappedPage(vm, v, p, flags, d, q);
      }
      forall q: nat | InHeap(c, c.limit, q) ensures Growable(t, c.near, q) {
        assert Growable(vm, c.near, q);
        GrowableKept(vm, t, c.near, q, v, p, flags);
      }
    } else {
      AllocShrinks(vm.pool);
      SameTables(c, vm, t, fr);
    }
  }

  lemma MapKeeps(vm: VM, v: Word, p: Word, flags: nat)
    requires PagingSpec.Inv(vm) && flags < PAGE && EnsureTable(vm, SlotOf(v), flags).Some?
    ensures vm.cur < PAGES
    ensures var t := MapPage(vm, v, p, flags); t.base == vm.base && t.cur == vm.cur && t.kpd == vm.kpd
  {
    EnsureTableInv(vm, SlotOf(v), flags);
  }

  lemma MapData(vm: VM, fr: map<nat, nat>, v: Word, p: Word, flags: nat)
    requires PagingSpec.Inv(vm) && FreeOk(vm) && DataFrames(vm, fr) && flags < PAGE
    requires EnsureTable(vm, SlotOf(v), flags).Some?
    ensures vm.cur < PAGES && FreeOk(MapPage(vm, v, p, flags)) && DataFrames(MapPage(vm, v, p, flags), fr)
  {
    hide Ent, PutEnt, EnsureTable, MapPage, Separate, Inherited, SlotOf;
    MapKeeps(vm, v, p, flags);
    MapPageFree(vm, v, p, flags);
    var t := MapPage(vm, v, p, flags);
    forall d, i, q | Live(t, d, i) && q in fr ensures Table(t, d, i) != fr[q] {
      MapPageTables(vm, v, p, flags, d, i);
    }
  }

  lemma UnmapFits(c: Config, vm: VM, fr: map<nat, nat>, v: Word)
    requires TablesFit(c, vm, fr) && v / PAGE !in fr && vm.cur < PAGES
    requires var t := UnmapPage(vm, v);
             PagingSpec.Inv(t) && Reach(t, c.near) && forall f: nat :: Used(t, c.near, f) ==> Used(vm, c.near, f)
    ensures TablesFit(c, UnmapPage(vm, v), fr)
    ensures UnmapPage(vm, v).base == vm.base && UnmapPage(vm, v).cur == vm.cur
  {
    hide PagingSpec.Inv, Reach, Used, FreeOk, DataFrames, Present, Ent, UnmapPage, Lookup, Sees;
    var t := UnmapPage(vm, v);
    UnmapData(vm, fr, v);
    forall d, q: nat | d in t.base && q in fr ensures d < PAGES && q < PAGES && FrameOf(t.m, d, q) == Some(fr[q]) {
      PageStart(q);
      UnmapPageEffect(vm, v, d, q * PAGE);
    }
    forall q: nat | InHeap(c, c.limit, q) ensures Growable(t, c.near, q) {
      assert Growable(vm, c.near, q);
      KernelIn(vm);
      UnmapEnts(vm, v, vm.kpd, q / 1024);
    }
  }

  lemma KernelIn(vm: VM)
    requires PagingSpec.Inv(vm)
    ensures vm.kpd in vm.base
  {
    hide TablesOk, Separate, Inherited;
  }

  lemma UnmapData(vm: VM, fr: map<nat, nat>, v: Word)
    requires PagingSpec.Inv(vm) && FreeOk(vm) && DataFrames(vm, fr) && vm.cur < PAGES
    ensures FreeOk(UnmapPage(vm, v)) && DataFrames(UnmapPage(vm, v), fr)
    ensures var t := UnmapPage(vm, v); t.base == vm.base && t.cur == vm.cur && t.kpd == vm.kpd
  {
    hide Ent, PutEnt, Present, Separate, Inherited, TablesOk;
    var t := UnmapPage(vm, v);
    forall d, i, q | Live(t, d, i) && q in fr ensures Table(t, d, i) != fr[q] {
      UnmapEnts(vm, v, d, i);
      assert Live(vm, d, i);
    }
  }

  // ---------- Steps ----------

  datatype Op =
    | Sched(op: S.Op, ret: Word)
    | Exit(code: int, ret: Word)
    | Create(entry: Word)
    | Malloc(size: nat)
    | Free(ptr: nat)
    | Compute(regs: W.Regs, phys: W.Store)
    | Paging(page: PagingSpec.Op)
    | Take

  /** Room on the stack for a call of context_switch; a heap that would stay below the limit; directories taken from the
      frames the kernel can reach; nobody frees a stack in use, writes to another's stack, or remaps the kernel's
      data. */
  ghost predicate Legal(c: Config, z: State, op: Op)
    requires Inv(c, z)
  {
    match op
    case Sched(o, _) => !o.DoCreate? && !o.DoExit? && K.Room(z.k.w)
    case Exit(_, _) => K.Room(z.k.w)
    case Create(_) => Near(z.vm.pool, c.near) && H.NewEnd(z.k.h.blocks, z.k.h.hi, S.STACK_SIZE, true) <= c.limit
    case Malloc(size) => H.NewEnd(z.k.h.blocks, z.k.h.hi, size, true) <= c.limit
    case Free(ptr) => K.Legal(c.k, z.k, K.Free(ptr))
    case Compute(_, phys) => WritesOwn(z, phys)
    case Paging(o) => OwnPage(c, z, o)
    case Take => true
  }

  ghost function FreeStep(z: State, ptr: nat): State {
    z.(k := z.k.(h := z.k.h.(blocks := H.Free(z.k.h.blocks, ptr))))
  }

  ghost function ComputeStep(c: Config, z: State, regs: W.Regs, phys: W.Store): State
    requires Inv(c, z)
  {
    z.(k := Refresh(z.k, regs, phys, z.fr), cpu := W.Cpu(regs, phys))
  }

  /** None is a page fault in the kernel. */
  ghost function Step(c: Config, z: State, op: Op): Option<State>
    requires Inv(c, z) && Legal(c, z, op)
  {
    match op
    case Sched(o, ret) => SchedStep(c, z, o, ret)
    case Exit(code, ret) => ExitStep(c, z, code, ret)
    case Create(entry) => CreateStep(c, z, entry)
    case _ => MemoryStep(c, z, op)
  }

  ghost function MemoryStep(c: Config, z: State, op: Op): Option<State>
    requires Inv(c, z) && Legal(c, z, op) && !op.Sched? && !op.Exit? && !op.Create?
  {
    match op
    case Malloc(size) => MallocStep(c, z, size)
    case Free(ptr) => Some(FreeStep(z, ptr))
    case Compute(regs, phys) => Some(ComputeStep(c, z, regs, phys))
    case Paging(o) => PagingStep(z, o)
    case Take => Some(z.(vm := z.vm.(pool := Alloc(z.vm.pool).0)))
  }

  function PagingStep(z: State, o: PagingSpec.Op): Option<State> {
    if z.vm.cur >= PAGES || z.vm.kpd >= PAGES || (o.Map? && o.flags >= PAGE) then None else
    match StepThrough(z.vm, o)
    case None => None
    case Some(vm) => Some(z.(vm := vm))
  }

  lemma PagingRuns(c: Config, z: State, o: PagingSpec.Op)
    requires Inv(c, z) && OwnPage(c, z, o)
    ensures PagingStep(z, o).Some? && Inv(c, PagingStep(z, o).value)
  {
    hide TablesFit, K.Inv, Agree, StepThrough, PagingSpec.Step, ConfigOk, Safe;
    PagingFits(c, z, o);
  }

  lemma TakeRuns(c: Config, z: State)
    requires Inv(c, z)
    ensures Inv(c, z.(vm := z.vm.(pool := Alloc(z.vm.pool).0)))
  {
    hide TablesFit, K.Inv, Agree, ConfigOk, Alloc;
    var vm := z.vm.(pool := Alloc(z.vm.pool).0);
    AllocShrinks(z.vm.pool);
    FitsInv(c, z.vm, z.fr);
    PoolInv(z.vm, vm);
    SameTables(c, z.vm, vm, z.fr);
  }

  lemma FitsInv(c: Config, vm: VM, fr: map<nat, nat>)
    requires TablesFit(c, vm, fr)
    ensures PagingSpec.Inv(vm)
  {
  }

  lemma ComputeRuns(c: Config, z: State, regs: W.Regs, phys: W.Store)
    requires Inv(c, z) && WritesOwn(z, phys)
    ensures Inv(c, ComputeStep(c, z, regs, phys))
  {
    hide VmOk, K.Inv, Agree, ConfigOk, Pull, WritesOwn;
    RefreshOk(c, z, regs, phys, z.fr);
  }

  lemma FreeRuns(c: Config, z: State, ptr: nat)
    requires Inv(c, z) && K.Legal(c.k, z.k, K.Free(ptr))
    ensures Inv(c, FreeStep(z, ptr))
  {
    hide VmOk, K.Inv, Agree, ConfigOk, H.Free, K.Legal;
    K.FreeInv(c.k, z.k, ptr);
  }

  /** No step faults, and every step keeps the invariant. */
  lemma StepRuns(c: Config, z: State, op: Op)
    requires Inv(c, z) && Legal(c, z, op)
    ensures Step(c, z, op).Some? && Inv(c, Step(c, z, op).value)
  {
    hide Inv, K.Room, Near, H.NewEnd, K.Legal, WritesOwn, OwnPage, SchedStep, ExitStep, CreateStep, MallocStep,
         PagingStep, FreeStep, ComputeStep, Alloc;
    match op {
      case Sched(o, ret) => SchedRuns(c, z, o, ret);
      case Exit(code, ret) => ExitRuns(c, z, code, ret);
      case Create(entry) => CreateRuns(c, z, entry);
      case Malloc(size) => MallocRuns(c, z, size);
      case Free(ptr) => FreeRuns(c, z, ptr);
      case Compute(regs, phys) => ComputeRuns(c, z, regs, phys);
      case Paging(o) => PagingRuns(c, z, o);
      case Take => TakeRuns(c, z);
    }
  }

  // ---------- Runs ----------

  ghost predicate LegalRun(c: Config, z: State, ops: seq<Op>)
    requires Inv(c, z)
    decreases |ops|
  {
    ops == [] || (Legal(c, z, ops[0]) && (StepRuns(c, z, ops[0]); LegalRun(c, Step(c, z, ops[0]).value, ops[1..])))
  }

  ghost function Run(c: Config, z: State, ops: seq<Op>): Option<State>
    requires Inv(c, z) && LegalRun(c, z, ops)
    decreases |ops|
  {
    if ops == [] then Some(z) else
    StepRuns(c, z, ops[0]);
    match Step(c, z, ops[0])
    case None => None
    case Some(t) => Run(c, t, ops[1..])
  }

  lemma {:induction false} RunRuns(c: Config, z: State, ops: seq<Op>)
    requires Inv(c, z) && LegalRun(c, z, ops)
    ensures Run(c, z, ops).Some? && Inv(c, Run(c, z, ops).value)
    decreases |ops|
  {
    hide Inv, Step, Legal;
    if ops != [] {
      StepRuns(c, z, ops[0]);
      RunRuns(c, Step(c, z, ops[0]).value, ops[1..]);
    }
  }

  /** When process_init has run: idle is current in the kernel's directory and nobody else exists; the data pages are
      mapped alike everywhere, and the slots the heap may grow into have tables. */
  lemma StartInv(c: Config, z: State)
    requires ConfigOk(c) && S.Booted(z.k.y) && K.HeapOk(c.k, z.k.h)
    requires z.k.w.cur == 0 && z.k.w.saved == map[] && z.k.w.areas == map[0 := c.k.boot]
    requires VmOk(c, z.vm, z.fr, z.k.h.hi) && z.vm.cur == z.vm.kpd == FrameNo(K.Dir(z.k.y.sched, 0))
    requires FramesExist(z.fr) && z.cpu == W.Cpu(z.k.w.cpu.r, z.cpu.m) && Agree(z.cpu.m, z.k.w.cpu.m, z.fr)
    ensures Inv(c, z)
  {
    hide TablesFit, Agree, K.HeapOk, K.ConfigOk;
    K.BootInv(c.k, z.k);
    FitsInv(c, z.vm, z.fr);
    KernelIn(z.vm);
  }

  /** Whomever schedule, called by way of o, would pick: if it is not the caller, the switch to it is safe. */
  ghost predicate NextIsSafe(c: Config, z: State, o: S.Op, ret: Word) {
    && W.Apart(z.k.w.areas) && S.Inv(z.k.y.sched) && !o.DoCreate?
    && var q := S.Step(z.k.y, o).sched.current; q != z.k.w.cur && K.Room(z.k.w) ==> Resumes(c, z, q, ret)
  }

  /** Over every run: no step faults; whomever the next call of schedule picks is suspended on an intact stack of its
      own; and context_switch, run through that process's page tables, gives it back its registers and its stack as it
      reads it in its own address space. */
  lemma EverySwitchIsSafe(c: Config, z: State, ops: seq<Op>, o: S.Op, ret: Word)
    requires Inv(c, z) && LegalRun(c, z, ops) && !o.DoCreate?
    ensures Run(c, z, ops).Some? && NextIsSafe(c, Run(c, z, ops).value, o, ret)
  {
    hide Inv, LegalRun, Run, K.Room, S.Step, Resumes, W.Apart;
    RunRuns(c, z, ops);
    var t := Run(c, z, ops).value;
    NextPicked(c, t, o);
    if S.Step(t.k.y, o).sched.current != t.k.w.cur && K.Room(t.k.w) {
      SwitchResumes(c, t, S.Step(t.k.y, o).sched.current, ret);
    }
  }

  lemma NextPicked(c: Config, z: State, o: S.Op)
    requires Inv(c, z) && !o.DoCreate?
    ensures S.Inv(z.k.y.sched) && W.Apart(z.k.w.areas)
    ensures S.Step(z.k.y, o).sched.current != z.k.w.cur ==> S.Step(z.k.y, o).sched.current in z.k.w.saved
  {
    hide VmOk, Agree, S.Inv, K.Stacks, K.HeapOk, K.ConfigOk, S.Step, W.Apart, K.SwitchOk;
    CurrentAlive(c.k, z.k);
    K.PickedIsSuspended(c.k, z.k, o);
  }

  /** The switch to q goes through, to the registers q was suspended with, and a stack that q reads as it left it. */
  ghost predicate Resumes(c: Config, z: State, q: nat, ret: Word) {
    && |c.k.cells| == S.MAX && q < S.MAX && z.k.w.cur < S.MAX && |z.k.y.sched.procs| == S.MAX
    && c.k.cells[z.k.w.cur] < MEM
    && q in z.k.w.saved && q in z.k.w.areas
    && SwitchCode(c, z, q, ret).Some?
    && var u := SwitchCode(c, z, q, ret).value;
       && u.r == z.k.w.saved[q].regs
       && forall x: Word :: u.r.esp <= x < z.k.w.areas[q].hi ==>
            Ld(z.vm.m, FrameNo(K.Dir(z.k.y.sched, q)), u.m, x) == Some(z.k.w.saved[q].m[x])
  }

  lemma SwitchResumes(c: Config, z: State, q: nat, ret: Word)
    requires Inv(c, z) && q in z.k.w.saved && K.Room(z.k.w)
    ensures Resumes(c, z, q, ret)
  {
    hide VmOk, Agree, S.Inv, K.Stacks, K.HeapOk, K.ConfigOk, SwitchCode, Ld, W.SwitchStep, W.Apart, W.Intact, Partly,
         Here;
    SwitchRuns(c, z, q, ret);
    var d, u, v := FrameNo(K.Dir(z.k.y.sched, q)), SwitchCode(c, z, q, ret).value, W.SwitchStep(z.k.w, q, ret).cpu;
    ResumedStack(z.k.w, q, ret);
    StackOnData(c, z, q);
    AreaAlive(c.k, z.k, q);
    DataHere(c, z, d);
    forall x: Word | u.r.esp <= x < z.k.w.areas[q].hi ensures Ld(z.vm.m, d, u.m, x) == Some(z.k.w.saved[q].m[x]) {
      assert z.k.w.areas[q].Holds(x);
      LdIs(z.vm.m, d, z.fr, u.m, v.m, x);
    }
  }

  lemma AreaAlive(c: K.Config, k: K.State, q: nat)
    requires K.Inv(c, k) && q in k.w.areas
    ensures K.AliveAt(k.y.sched, q)
  {
    hide S.Inv, W.Inv, K.Stacks, K.HeapOk, K.ConfigOk;
  }

  lemma ResumedStack(w: W.Sys, q: nat, ret: Word)
    requires W.Inv(w) && q in w.saved && K.Room(w) && q != w.cur
    ensures q in w.areas && W.CanSwitch(w, q) && w.areas[q].lo <= w.saved[q].regs.esp
    ensures var u := W.SwitchStep(w, q, ret).cpu;
            u.r == w.saved[q].regs && forall x :: u.r.esp <= x < w.areas[q].hi ==> u.m[x] == w.saved[q].m[x]
  {
    hide W.SwitchStep;
    W.ResumesNow(w, q, W.SwitchTo(q, ret));
  }
}
