/** The page-table code of src/paging.c as it runs with paging on: directories and tables are read and written through
    the very translation they define. Module PagingSpec says what the operations do to the tables themselves; here is
    when the code really does that. */
module Mmu {
  import opened Machine
  import opened PmmSpec
  import opened Memory
  import opened PagingSpec
  import opened Permissions

  // ---------- Loads and stores by the kernel ----------

  /** The frame that page number `page` is mapped to under directory d. */
  function FrameOf(m: Ram, d: nat, page: nat): (f: Option<nat>)
    requires d < PAGES && page < PAGES
    ensures f.Some? ==> f.value < PAGES
  {
    match Lookup(m, d, page * PAGE)
    case None => None
    case Some(p) => Some(FrameNo(p))
  }

  /** Word i of a page; None is a page fault. */
  function Load(s: VM, page: nat, i: nat): Option<Word>
    requires s.cur < PAGES && page < PAGES && i < 1024
  {
    match FrameOf(s.m, s.cur, page)
    case None => None
    case Some(f) => Some(Ent(s.m, f, i))
  }

  function Store(s: VM, page: nat, i: nat, w: Word): (r: Option<VM>)
    requires s.cur < PAGES && page < PAGES && i < 1024
    ensures r.Some? ==> r.value == s.(m := r.value.m)
  {
    match FrameOf(s.m, s.cur, page)
    case None => None
    case Some(f) => Some(s.(m := PutEnt(s.m, f, i, w)))
  }

  /** What a method that reports ok did, against what it should have done: None is a fault. */
  ghost predicate Did(r: Option<VM>, ok: bool, t: VM) {
    if ok then r == Some(t) else r == None
  }

  // ---------- The operations ----------

  /** The loop that clears a new table, from word i on. */
  function ClearFrom(s: VM, page: nat, i: nat): (r: Option<VM>)
    requires s.cur < PAGES && page < PAGES && i <= 1024
    ensures r.Some? ==> r.value == s.(m := r.value.m)
    decreases 1024 - i
  {
    if i == 1024 then Some(s) else
    match Store(s, page, i, 0)
    case None => None
    case Some(t) => ClearFrom(t, page, i + 1)
  }

  /** The loop that copies a directory, from word i on. */
  function CopyFrom(s: VM, src: nat, dst: nat, i: nat): (r: Option<VM>)
    requires s.cur < PAGES && src < PAGES && dst < PAGES && i <= 1024
    ensures r.Some? ==> r.value == s.(m := r.value.m)
    decreases 1024 - i
  {
    if i == 1024 then Some(s) else
    match Load(s, src, i)
    case None => None
    case Some(w) =>
      match Store(s, dst, i, w)
      case None => None
      case Some(t) => CopyFrom(t, src, dst, i + 1)
  }

  /** The end of paging_map_page: the directory entry is read again, and the table entry written. */
  function FillIn(s: VM, v: Word, p: Word, flags: nat): (r: Option<VM>)
    requires s.cur < PAGES && flags < PAGE
    ensures r.Some? ==> r.value == s.(m := r.value.m)
  {
    match Load(s, s.cur, SlotOf(v))
    case None => None
    case Some(pde) => Store(s, FrameNo(pde), IndexOf(v), Pte(p, flags))
  }

  /** A new table, cleared and hung into the current directory. */
  function NewTable(s: VM, slot: nat, a: nat, flags: nat): (r: Option<VM>)
    requires s.cur < PAGES && slot < 1024 && a < PAGES
    ensures r.Some? ==> r.value == s.(m := r.value.m)
  {
    match ClearFrom(s, a, 0)
    case None => None
    case Some(z) => Store(z, z.cur, slot, Pde(a, flags))
  }

  /** paging_map_page; None when one of its accesses faults. */
  function MapThrough(s: VM, v: Word, p: Word, flags: nat): (r: Option<VM>)
    requires s.cur < PAGES && flags < PAGE
    ensures r.Some? ==> r.value.cur == s.cur && r.value.kpd == s.kpd && r.value.base == s.base
  {
    match Load(s, s.cur, SlotOf(v))
    case None => None
    case Some(pde) =>
      if Present(pde) then FillIn(s, v, p, flags) else
      var (pool, addr) := Alloc(s.pool);
      var u := s.(pool := pool);
      if addr == 0 then Some(u) else
      match NewTable(u, SlotOf(v), FrameNo(addr), flags)
      case None => None
      case Some(t) => FillIn(t, v, p, flags)
  }

  /** paging_unmap_page. */
  function UnmapThrough(s: VM, v: Word): (r: Option<VM>)
    requires s.cur < PAGES
  {
    match Load(s, s.cur, SlotOf(v))
    case None => None
    case Some(pde) => if Present(pde) then Store(s, FrameNo(pde), IndexOf(v), 0) else Some(s)
  }

  /** paging_get_physical. */
  function GetPhysicalThrough(s: VM, v: Word): Option<Word>
    requires s.cur < PAGES
  {
    match Load(s, s.cur, SlotOf(v))
    case None => None
    case Some(pde) =>
      if !Present(pde) then Some(0) else
      match Load(s, FrameNo(pde), IndexOf(v))
      case None => None
      case Some(pte) => Some(if Present(pte) then AddressIn(FrameNo(pte), v) else 0)
  }

  /** paging_clone_pd. */
  function CloneThrough(s: VM): Option<(VM, Word)>
    requires s.cur < PAGES && s.kpd < PAGES
  {
    var (pool, addr) := Alloc(s.pool);
    var u := s.(pool := pool);
    if addr == 0 then Some((u, 0)) else
    var d := FrameNo(addr);
    match CopyFrom(u, s.kpd, d, 0)
    case None => None
    case Some(t) => Some((t.(base := s.base[d := PresentSlots(s.m, s.kpd)]), addr))
  }

  /** The decision part of page_fault_handler. */
  function FaultThrough(s: VM, err: Word, addr: Word): Option<(VM, bool)>
    requires s.cur < PAGES
  {
    if err % 2 == 1 || err / 8 % 2 == 1 then Some((s, false)) else
    var (pool, phys) := Alloc(s.pool);
    var u := s.(pool := pool);
    if phys == 0 then Some((u, false)) else
    match MapThrough(u, addr / PAGE * PAGE, phys, PRESENT + WRITE + UserBit(err))
    case None => None
    case Some(t) => Some((t, true))
  }

  // ---------- What the kernel must be able to reach ----------

  /** Frame f is a directory, a second-level table, or free to become one; of the free frames only those below near
      count, for the allocator hands out the lowest first. */
  ghost predicate Used(s: VM, near: nat, f: nat) {
    f in s.base || (f in s.pool.free && f < near) || exists d, i: nat :: Live(s, d, i) && Table(s, d, i) == f
  }

  /** Page f is mapped to frame f. */
  predicate SelfMapped(m: Ram, d: nat, f: nat)
    requires d < PAGES && f < PAGES
  {
    FrameOf(m, d, f) == Some(f)
  }

  /** Every such frame is mapped to itself in every address space. */
  ghost predicate Reach(s: VM, near: nat) {
    forall d, f: nat :: d in s.base && Used(s, near, f) ==> d < PAGES && f < PAGES && SelfMapped(s.m, d, f)
  }

  lemma SelfMappedAccess(s: VM, f: nat, i: nat, w: Word)
    requires s.cur < PAGES && f < PAGES && i < 1024 && SelfMapped(s.m, s.cur, f)
    ensures Load(s, f, i) == Some(Ent(s.m, f, i)) && Store(s, f, i, w) == Some(s.(m := PutEnt(s.m, f, i, w)))
  {
  }

  // ---------- The two loops ----------

  /** Writing to frame t cannot disturb translations under d. */
  ghost predicate Spare(m: Ram, d: nat, t: nat) {
    && d < PAGES && t < PAGES && t != d
    && forall i :: 0 <= i < 1024 && Present(Ent(m, d, i)) ==> FrameNo(Ent(m, d, i)) != t
  }

  lemma SpareKept(m: Ram, m': Ram, d: nat, t: nat)
    requires Spare(m, d, t)
    requires forall g, j :: 0 <= g < PAGES && 0 <= j < 1024 && g != t ==> Ent(m', g, j) == Ent(m, g, j)
    ensures Spare(m', d, t) && forall x: Word :: Lookup(m', d, x) == Lookup(m, d, x)
  {
    hide Ent, Present, FrameNo, AddressIn, SlotOf, IndexOf;
  }

  function ZeroedFrom(m: Ram, t: nat, i: nat): Ram
    requires t < PAGES && i <= 1024
  {
    seq(MEM, x requires 0 <= x < MEM => if t * PAGE + 4 * i <= x < t * PAGE + PAGE then 0 else m[x])
  }

  lemma ZeroedNext(m: Ram, t: nat, i: nat)
    requires t < PAGES && i < 1024
    ensures ZeroedFrom(PutEnt(m, t, i, 0), t, i + 1) == ZeroedFrom(m, t, i)
  {
  }

  lemma ZeroedAll(m: Ram, t: nat)
    requires t < PAGES
    ensures ZeroedFrom(m, t, 0) == ZeroFrame(m, t) && ZeroedFrom(m, t, 1024) == m
  {
  }

  lemma {:induction false} ClearFromIs(s: VM, t: nat, i: nat)
    requires s.cur < PAGES && Spare(s.m, s.cur, t) && SelfMapped(s.m, s.cur, t) && i <= 1024
    ensures ClearFrom(s, t, i) == Some(s.(m := ZeroedFrom(s.m, t, i)))
    decreases 1024 - i
  {
    hide Spare, Lookup, PutEnt, Ent, ZeroedFrom;
    SpareBounds(s.m, s.cur, t);
    ZeroedAll(s.m, t);
    if i < 1024 {
      SelfMappedAccess(s, t, i, 0);
      PutEntFrame(s.m, t, i, 0);
      var u := s.(m := PutEnt(s.m, t, i, 0));
      SpareKept(s.m, u.m, s.cur, t);
      ClearFromIs(u, t, i + 1);
      ZeroedNext(s.m, t, i);
    }
  }

  lemma SpareBounds(m: Ram, d: nat, t: nat)
    requires Spare(m, d, t)
    ensures d < PAGES && t < PAGES && t != d
  {
  }

  function CopiedFrom(m: Ram, src: nat, dst: nat, i: nat): Ram
    requires src < PAGES && dst < PAGES && i <= 1024
  {
    seq(MEM, x requires 0 <= x < MEM =>
          if dst * PAGE + 4 * i <= x < dst * PAGE + PAGE then m[src * PAGE + (x - dst * PAGE)] else m[x])
  }

  lemma CopiedNext(m: Ram, src: nat, dst: nat, i: nat)
    requires src < PAGES && dst < PAGES && src != dst && i < 1024
    ensures CopiedFrom(PutEnt(m, dst, i, Ent(m, src, i)), src, dst, i + 1) == CopiedFrom(m, src, dst, i)
  {
    hide FromBytes;
    CopyWord(m, src * PAGE + 4 * i, dst * PAGE + 4 * i);
  }

  lemma CopiedAll(m: Ram, src: nat, dst: nat)
    requires src < PAGES && dst < PAGES
    ensures CopiedFrom(m, src, dst, 0) == CopyFrame(m, src, dst) && CopiedFrom(m, src, dst, 1024) == m
  {
  }

  lemma {:induction false} CopyFromIs(s: VM, src: nat, dst: nat, i: nat)
    requires s.cur < PAGES && src < PAGES && src != dst && i <= 1024
    requires Spare(s.m, s.cur, dst) && SelfMapped(s.m, s.cur, dst) && SelfMapped(s.m, s.cur, src)
    ensures CopyFrom(s, src, dst, i) == Some(s.(m := CopiedFrom(s.m, src, dst, i)))
    decreases 1024 - i
  {
    hide Spare, Lookup, PutEnt, Ent, CopiedFrom;
    SpareBounds(s.m, s.cur, dst);
    CopiedAll(s.m, src, dst);
    if i < 1024 {
      SelfMappedAccess(s, src, i, 0);
      var w := Ent(s.m, src, i);
      SelfMappedAccess(s, dst, i, w);
      PutEntFrame(s.m, dst, i, w);
      var u := s.(m := PutEnt(s.m, dst, i, w));
      SpareKept(s.m, u.m, s.cur, dst);
      CopyFromIs(u, src, dst, i + 1);
      CopiedNext(s.m, src, dst, i);
    }
  }

  // ---------- The code does what PagingSpec says ----------

  lemma ReachDirs(s: VM, near: nat)
    requires Inv(s) && Reach(s, near)
    ensures s.cur < PAGES && s.kpd < PAGES && SelfMapped(s.m, s.cur, s.cur) && SelfMapped(s.m, s.cur, s.kpd)
  {
    hide SelfMapped, TablesOk, Separate, Inherited;
    assert Used(s, near, s.cur) && Used(s, near, s.kpd);
  }

  lemma ReachTable(s: VM, near: nat, slot: nat)
    requires Inv(s) && Reach(s, near) && Live(s, s.cur, slot)
    ensures SelfMapped(s.m, s.cur, Table(s, s.cur, slot))
  {
    hide SelfMapped, TablesOk, Separate, Inherited, Ent, Present;
    assert Used(s, near, Table(s, s.cur, slot));
  }

  lemma ReachFree(s: VM, near: nat, a: nat)
    requires Inv(s) && Reach(s, near) && a in s.pool.free && a < near
    ensures a < PAGES && s.cur < PAGES && SelfMapped(s.m, s.cur, a) && Spare(s.m, s.cur, a) && a != s.kpd
  {
    hide SelfMapped, Separate, Inherited, Ent, Present;
    assert Used(s, near, a);
    forall i | 0 <= i < 1024 && Present(Ent(s.m, s.cur, i)) ensures FrameNo(Ent(s.m, s.cur, i)) != a {
      assert Live(s, s.cur, i) && Table(s, s.cur, i) == FrameNo(Ent(s.m, s.cur, i));
    }
  }

  lemma FillInIs(s: VM, v: Word, p: Word, flags: nat)
    requires flags < PAGE && s.cur < PAGES && SelfMapped(s.m, s.cur, s.cur)
    requires SelfMapped(s.m, s.cur, FrameNo(Ent(s.m, s.cur, SlotOf(v))))
    ensures FillIn(s, v, p, flags) ==
            Some(s.(m := PutEnt(s.m, FrameNo(Ent(s.m, s.cur, SlotOf(v))), IndexOf(v), Pte(p, flags))))
  {
    hide SelfMapped, Load, Store, PutEnt, Ent;
    SelfMappedAccess(s, s.cur, SlotOf(v), 0);
    SelfMappedAccess(s, FrameNo(Ent(s.m, s.cur, SlotOf(v))), IndexOf(v), Pte(p, flags));
  }

  lemma NewTableIs(s: VM, slot: nat, a: nat, flags: nat)
    requires s.cur < PAGES && slot < 1024 && Spare(s.m, s.cur, a) && a < PAGES
    requires SelfMapped(s.m, s.cur, a) && SelfMapped(s.m, s.cur, s.cur)
    ensures NewTable(s, slot, a, flags) == Some(s.(m := PutEnt(ZeroFrame(s.m, a), s.cur, slot, Pde(a, flags))))
  {
    hide Lookup, Store, PutEnt, Ent, ClearFrom, Spare, ZeroFrame, ZeroedFrom;
    ClearFromIs(s, a, 0);
    ZeroedAll(s.m, a);
    ZeroFrameEnts(s.m, a);
    var z := s.(m := ZeroFrame(s.m, a));
    SpareKept(s.m, z.m, s.cur, a);
    SelfMappedAccess(z, s.cur, slot, Pde(a, flags));
  }

  /** paging_map_page faults nowhere and does what MapPage says. */
  lemma MapThroughIs(s: VM, near: nat, v: Word, p: Word, flags: nat)
    requires Inv(s) && Reach(s, near) && flags < PAGE && (NeedsTable(s, v) ==> Near(s.pool, near))
    ensures s.cur < PAGES && MapThrough(s, v, p, flags) == Some(MapPage(s, v, p, flags))
  {
    hide Inv, Reach, SelfMapped, Load, Store, NewTable, FillIn, PutEnt, Ent, Alloc, Present, ZeroFrame, Pde, Lookup;
    ReachDirs(s, near);
    var slot := SlotOf(v);
    SelfMappedAccess(s, s.cur, slot, 0);
    if Present(Ent(s.m, s.cur, slot)) {
      MapPresent(s, near, v, p, flags);
    } else if Alloc(s.pool).1 != 0 {
      MapAbsent(s, near, v, p, flags);
    }
  }

  lemma MapPresent(s: VM, near: nat, v: Word, p: Word, flags: nat)
    requires Inv(s) && Reach(s, near) && flags < PAGE && s.cur < PAGES && Present(Ent(s.m, s.cur, SlotOf(v)))
    ensures FillIn(s, v, p, flags) == Some(MapPage(s, v, p, flags))
  {
    hide Reach, SelfMapped, FillIn, PutEnt, Ent, Present, TablesOk, Separate, Inherited;
    ReachDirs(s, near);
    ReachTable(s, near, SlotOf(v));
    FillInIs(s, v, p, flags);
  }

  lemma MapAbsent(s: VM, near: nat, v: Word, p: Word, flags: nat)
    requires Inv(s) && Reach(s, near) && flags < PAGE && s.cur < PAGES
    requires !Present(Ent(s.m, s.cur, SlotOf(v))) && Alloc(s.pool).1 != 0 && Near(s.pool, near)
    ensures var u := s.(pool := Alloc(s.pool).0);
            var t := NewTable(u, SlotOf(v), FrameNo(Alloc(s.pool).1), flags);
            t.Some? && FillIn(t.value, v, p, flags) == Some(MapPage(s, v, p, flags))
  {
    hide Inv, Reach, FillIn, NewTable, PutEnt, Ent, Present, Alloc, ZeroFrame, Pde, Lookup, Spare;
    var slot := SlotOf(v);
    AllocFresh(s.pool);
    var a, u := Alloc(s.pool).1 / PAGE, s.(pool := Alloc(s.pool).0);
    ReachDirs(s, near);
    ReachFree(s, near, a);
    NewTableIs(u, slot, a, flags);
    var t := EnsureTable(s, slot, flags).value;
    EnsureTableInv(s, slot, flags);
    PdeParts(a, flags);
    TableEntry(s, t, slot, a, flags);
    EnsureTableLookup(s, slot, flags, s.cur, s.cur * PAGE);
    EnsureTableLookup(s, slot, flags, s.cur, a * PAGE);
    FillInIs(t, v, p, flags);
  }

  lemma TableEntry(s: VM, t: VM, slot: nat, a: nat, flags: nat)
    requires Inv(s) && slot < 1024 && a < PAGES && a in s.pool.free && s.cur < PAGES
    requires t.m == PutEnt(ZeroFrame(s.m, a), s.cur, slot, Pde(a, flags))
    ensures Ent(t.m, s.cur, slot) == Pde(a, flags) && s.cur in s.base
  {
    EntsAfterTable(s, t, a, slot, flags);
  }

  lemma UnmapThroughIs(s: VM, near: nat, v: Word)
    requires Inv(s) && Reach(s, near)
    ensures s.cur < PAGES && UnmapThrough(s, v) == Some(UnmapPage(s, v))
  {
    hide Reach, SelfMapped, Load, Store, PutEnt, Ent, Present, TablesOk, Separate, Inherited;
    ReachDirs(s, near);
    SelfMappedAccess(s, s.cur, SlotOf(v), 0);
    if Present(Ent(s.m, s.cur, SlotOf(v))) {
      ReachTable(s, near, SlotOf(v));
      SelfMappedAccess(s, Table(s, s.cur, SlotOf(v)), IndexOf(v), 0);
    }
  }

  /** paging_get_physical answers with the hardware's translation, or 0. */
  lemma GetPhysicalIs(s: VM, near: nat, v: Word)
    requires Inv(s) && Reach(s, near)
    ensures s.cur < PAGES
    ensures GetPhysicalThrough(s, v) == Some(match Lookup(s.m, s.cur, v) case None => 0 case Some(p) => p)
  {
    hide Reach, SelfMapped, Load, Ent, Present, TablesOk, Separate, Inherited, AddressIn;
    ReachDirs(s, near);
    SelfMappedAccess(s, s.cur, SlotOf(v), 0);
    if Present(Ent(s.m, s.cur, SlotOf(v))) {
      ReachTable(s, near, SlotOf(v));
      SelfMappedAccess(s, Table(s, s.cur, SlotOf(v)), IndexOf(v), 0);
    }
  }

  lemma CloneThroughIs(s: VM, near: nat)
    requires Inv(s) && Reach(s, near) && Near(s.pool, near)
    ensures s.cur < PAGES && s.kpd < PAGES && CloneThrough(s) == Some(Clone(s))
  {
    hide Inv, Reach, SelfMapped, CopyFrom, CopyFrame, CopiedFrom, Alloc, PresentSlots, Spare;
    ReachDirs(s, near);
    if Alloc(s.pool).1 != 0 {
      AllocFresh(s.pool);
      var a, u := Alloc(s.pool).1 / PAGE, s.(pool := Alloc(s.pool).0);
      ReachFree(s, near, a);
      CopyFromIs(u, s.kpd, a, 0);
      CopiedAll(s.m, s.kpd, a);
    }
  }

  // ---------- Staying within reach ----------

  lemma UsedWitness(s: VM, near: nat, d: nat, i: nat)
    requires Live(s, d, i)
    ensures Used(s, near, Table(s, d, i))
  {
  }

  /** A mapping makes no frame useful that was not, and none useless: a new table was free before. */
  lemma UsedMap(s: VM, near: nat, v: Word, p: Word, flags: nat, f: nat)
    requires Inv(s) && flags < PAGE && EnsureTable(s, SlotOf(v), flags).Some?
    requires NeedsTable(s, v) ==> Near(s.pool, near)
    ensures Used(MapPage(s, v, p, flags), near, f) <==> Used(s, near, f)
  {
    hide Inv, Ent, PutEnt, EnsureTable, MapPage, Present, Alloc, SlotOf;
    InvCur(s);
    var t := MapPage(s, v, p, flags);
    MapPageFree(s, v, p, flags);
    if Used(t, near, f) && f !in t.base && !(f in t.pool.free && f < near) {
      var d, i :| Live(t, d, i) && Table(t, d, i) == f;
      MapPageTables(s, v, p, flags, d, i);
      if Live(s, d, i) { UsedWitness(s, near, d, i); }
    }
    if Used(s, near, f) && f !in s.base {
      if f in s.pool.free && f < near {
        if f !in t.pool.free {
          MapTakes(s, v, p, flags, f);
          UsedWitness(t, near, s.cur, SlotOf(v));
        }
      } else {
        var d, i :| Live(s, d, i) && Table(s, d, i) == f;
        MapPageTables(s, v, p, flags, d, i);
        MapKeepsTable(s, v, p, flags, d, i);
        UsedWitness(t, near, d, i);
      }
    }
  }

  /** The one frame a mapping may take becomes the table of the slot. */
  lemma MapTakes(s: VM, v: Word, p: Word, flags: nat, f: nat)
    requires Inv(s) && flags < PAGE && EnsureTable(s, SlotOf(v), flags).Some?
    requires f in s.pool.free && f !in MapPage(s, v, p, flags).pool.free
    ensures var t := MapPage(s, v, p, flags); Live(t, s.cur, SlotOf(v)) && Table(t, s.cur, SlotOf(v)) == f
  {
    hide Ent, PutEnt, ZeroFrame, Pde, Pte, Present, Alloc, Separate, Inherited;
    var slot := SlotOf(v);
    var t := EnsureTable(s, slot, flags).value;
    EnsureTableInv(s, slot, flags);
    PutEntFrame(t.m, Table(t, t.cur, slot), IndexOf(v), Pte(p, flags));
    AllocFresh(s.pool);
    PdeParts(f, flags);
    EntsAfterTable(s, t, f, slot, flags);
  }

  lemma MapKeepsTable(s: VM, v: Word, p: Word, flags: nat, d: nat, i: nat)
    requires Inv(s) && flags < PAGE && EnsureTable(s, SlotOf(v), flags).Some? && Live(s, d, i)
    ensures var t := MapPage(s, v, p, flags); Live(t, d, i) && Table(t, d, i) == Table(s, d, i)
  {
    hide Ent, PutEnt, ZeroFrame, Pde, Pte, Present, Alloc, Separate, Inherited;
    var slot := SlotOf(v);
    var t := EnsureTable(s, slot, flags).value;
    EnsureTableInv(s, slot, flags);
    PutEntFrame(t.m, Table(t, t.cur, slot), IndexOf(v), Pte(p, flags));
    if !Present(Ent(s.m, s.cur, slot)) {
      AllocFresh(s.pool);
      EntsAfterTable(s, t, Alloc(s.pool).1 / PAGE, slot, flags);
    }
  }

  lemma PageStart(f: nat)
    requires f < PAGES
    ensures f * PAGE < MEM && f * PAGE / PAGE == f && f * PAGE % PAGE == 0
  {
  }

  /** A mapping keeps everything the kernel needs within reach exactly when its page is none of it, or it maps the page
      to itself. */
  lemma MapReach(s: VM, near: nat, v: Word, p: Word, flags: nat)
    requires Inv(s) && Reach(s, near) && flags < PAGE && EnsureTable(s, SlotOf(v), flags).Some?
    requires NeedsTable(s, v) ==> Near(s.pool, near)
    ensures Reach(MapPage(s, v, p, flags), near) <==> !Used(s, near, v / PAGE) || p / PAGE == v / PAGE
  {
    hide Inv, Used, Lookup, MapPage, EnsureTable, Sees;
    InvCur(s);
    var t := MapPage(s, v, p, flags);
    if Reach(t, near) && Used(s, near, v / PAGE) {
      UsedMap(s, near, v, p, flags, v / PAGE);
      CurIn(s);
      MappedPage(s, v, p, flags, s.cur, v / PAGE);
      SeesSelf(s, SlotOf(v));
    }
    if !Used(s, near, v / PAGE) || p / PAGE == v / PAGE {
      forall d, f: nat | d in t.base && Used(t, near, f) ensures d < PAGES && f < PAGES && SelfMapped(t.m, d, f) {
        UsedMap(s, near, v, p, flags, f);
        MappedPage(s, v, p, flags, d, f);
      }
    }
  }

  lemma CurIn(s: VM)
    requires Inv(s)
    ensures s.cur in s.base
  {
  }

  /** MapPageEffect, by page. */
  lemma MappedPage(s: VM, v: Word, p: Word, flags: nat, d: nat, f: nat)
    requires Inv(s) && flags < PAGE && EnsureTable(s, SlotOf(v), flags).Some? && d in s.base && d < PAGES && f < PAGES
    ensures FrameOf(MapPage(s, v, p, flags).m, d, f) ==
            if f == v / PAGE && Sees(s, d, SlotOf(v)) then Some(p / PAGE) else FrameOf(s.m, d, f)
  {
    hide Inv, Lookup, MapPage, EnsureTable, Sees;
    PageStart(f);
    MapPageEffect(s, v, p, flags, d, f * PAGE);
  }

  lemma UnmapEnts(s: VM, v: Word, d: nat, i: nat)
    requires Inv(s) && s.cur < PAGES && d in s.base && d < PAGES && i < 1024
    ensures Ent(UnmapPage(s, v).m, d, i) == Ent(s.m, d, i)
  {
    hide Ent, PutEnt, Present, Separate, Inherited;
    if Present(Ent(s.m, s.cur, SlotOf(v))) {
      assert Live(s, s.cur, SlotOf(v));
      PutEntFrame(s.m, Table(s, s.cur, SlotOf(v)), IndexOf(v), 0);
    }
  }

  lemma UsedUnmap(s: VM, near: nat, v: Word, f: nat)
    requires Inv(s)
    ensures s.cur < PAGES && (Used(UnmapPage(s, v), near, f) <==> Used(s, near, f))
  {
    hide Ent, PutEnt, Present, TablesOk, Separate, Inherited;
    var t := UnmapPage(s, v);
    forall d, i: nat | d in s.base && d < PAGES && i < 1024 ensures Ent(t.m, d, i) == Ent(s.m, d, i) {
      UnmapEnts(s, v, d, i);
    }
    assert forall d, i: nat :: Live(t, d, i) <==> Live(s, d, i);
    assert forall d, i: nat :: Live(t, d, i) ==> Table(t, d, i) == Table(s, d, i);
  }

  lemma UnmapReach(s: VM, near: nat, v: Word)
    requires Inv(s) && Reach(s, near)
    ensures s.cur < PAGES && (Reach(UnmapPage(s, v), near) <==> !Used(s, near, v / PAGE))
  {
    hide Inv, Used, Lookup, UnmapPage, Sees;
    InvCur(s);
    CurIn(s);
    var t := UnmapPage(s, v);
    UnmapSame(s, v);
    if Used(s, near, v / PAGE) {
      UsedUnmap(s, near, v, v / PAGE);
      PageStart(v / PAGE);
      UnmapPageEffect(s, v, s.cur, v / PAGE * PAGE);
      SeesSelf(s, SlotOf(v));
    } else {
      forall d, f: nat | d in t.base && Used(t, near, f) ensures d < PAGES && f < PAGES && SelfMapped(t.m, d, f) {
        UsedUnmap(s, near, v, f);
        PageStart(f);
        UnmapPageEffect(s, v, d, f * PAGE);
      }
    }
  }

  lemma UnmapSame(s: VM, v: Word)
    requires s.cur < PAGES
    ensures var t := UnmapPage(s, v); t == s.(m := t.m)
  {
  }

  lemma UsedClone(s: VM, near: nat, f: nat)
    requires Inv(s) && Clone(s).1 != 0 && Near(s.pool, near)
    ensures Used(Clone(s).0, near, f) <==> Used(s, near, f)
  {
    hide Ent, CopyFrame, Alloc, Present, Separate, Inherited;
    AllocFresh(s.pool);
    var a, t := Alloc(s.pool).1 / PAGE, Clone(s).0;
    CopyFrameEnts(s.m, s.kpd, a);
    assert forall d, i: nat :: d != a ==> (Live(t, d, i) <==> Live(s, d, i));
    assert forall i: nat :: Live(t, a, i) <==> Live(s, s.kpd, i);
    assert forall i: nat :: Live(t, a, i) ==> Table(t, a, i) == Table(s, s.kpd, i);
    assert forall d, i: nat :: Live(s, d, i) ==> Table(t, d, i) == Table(s, d, i);
  }

  lemma CloneReach(s: VM, near: nat)
    requires Inv(s) && Reach(s, near) && Near(s.pool, near)
    ensures Reach(Clone(s).0, near)
  {
    hide Inv, Used, Lookup, Clone, Alloc;
    ReachDirs(s, near);
    if Clone(s).1 == 0 {
      CloneNothing(s);
      FewerFree(s, near, Clone(s).0);
    } else {
      var t := Clone(s).0;
      CloneDirs(s);
      forall d, f: nat | d in t.base && Used(t, near, f) ensures d < PAGES && f < PAGES && SelfMapped(t.m, d, f) {
        UsedClone(s, near, f);
        PageStart(f);
        CloneEffect(s, d, f * PAGE);
      }
    }
  }

  lemma CloneNothing(s: VM)
    requires Inv(s) && Clone(s).1 == 0
    ensures var t := Clone(s).0; t == s.(pool := t.pool) && t.pool.free <= s.pool.free
  {
    AllocShrinks(s.pool);
  }

  lemma CloneDirs(s: VM)
    requires Inv(s) && Clone(s).1 != 0
    ensures var t := Clone(s).0; t.base.Keys == s.base.Keys + {Clone(s).1 / PAGE} && s.kpd in s.base
    ensures forall d :: d in Clone(s).0.base ==> d < PAGES
  {
    hide Ent, CopyFrame, Alloc, TablesOk, Separate, Inherited;
    AllocFresh(s.pool);
  }

  /** Taking frames away from the allocator asks less. */
  lemma FewerFree(s: VM, near: nat, t: VM)
    requires Reach(s, near) && t.m == s.m && t.base == s.base && t.pool.free <= s.pool.free
    ensures Reach(t, near) && forall f: nat :: Used(t, near, f) ==> Used(s, near, f)
  {
    hide Ent, SelfMapped;
    SameLive(s, t);
    forall f: nat | Used(t, near, f) ensures Used(s, near, f) {
      if f !in t.base && !(f in t.pool.free && f < near) {
        var d, i :| Live(t, d, i) && Table(t, d, i) == f;
        UsedWitness(s, near, d, i);
      }
    }
  }

  // ---------- Runs of the code ----------

  function StepThrough(s: VM, op: PagingSpec.Op): Option<VM>
    requires s.cur < PAGES && s.kpd < PAGES && (op.Map? ==> op.flags < PAGE)
  {
    match op
    case Map(v, p, flags) => MapThrough(s, v, p, flags)
    case Unmap(v) => UnmapThrough(s, v)
    case CloneDir => (match CloneThrough(s) case None => None case Some(r) => Some(r.0))
    case SwitchTo(d) => Some(Switch(s, d))
  }

  /** The page operated on is neither a directory, nor a table, nor a free frame below near; or it is mapped to
      itself. */
  ghost predicate KeepsOff(s: VM, near: nat, op: PagingSpec.Op) {
    match op
    case Map(v, p, _) => !Used(s, near, v / PAGE) || p / PAGE == v / PAGE
    case Unmap(v) => !Used(s, near, v / PAGE)
    case _ => true
  }

  /** The frame the operation takes for a table or a directory, if it takes one, is below near. */
  ghost predicate TakesNear(s: VM, near: nat, op: PagingSpec.Op)
    requires s.cur < PAGES
  {
    match op
    case Map(v, _, _) => NeedsTable(s, v) ==> Near(s.pool, near)
    case CloneDir => Near(s.pool, near)
    case _ => true
  }

  ghost predicate Safe(s: VM, near: nat, op: PagingSpec.Op)
    requires s.cur < PAGES
  {
    KeepsOff(s, near, op) && TakesNear(s, near, op)
  }

  /** The code does one step as PagingSpec says, without a fault, and stays within reach. */
  lemma StepThroughIs(s: VM, near: nat, op: PagingSpec.Op)
    requires Inv(s) && Reach(s, near) && Legal(s, op) && Safe(s, near, op)
    ensures s.cur < PAGES && s.kpd < PAGES && StepThrough(s, op) == Some(PagingSpec.Step(s, op))
    ensures Reach(PagingSpec.Step(s, op), near)
    ensures forall f: nat :: Used(PagingSpec.Step(s, op), near, f) ==> Used(s, near, f)
  {
    hide Inv, Reach, Used, MapThrough, UnmapThrough, CloneThrough, MapPage, UnmapPage, Clone;
    ReachDirs(s, near);
    match op {
      case Map(v, p, flags) =>
        MapThroughIs(s, near, v, p, flags);
        MapStays(s, near, v, p, flags);
      case Unmap(v) =>
        UnmapThroughIs(s, near, v);
        UnmapReach(s, near, v);
        forall f: nat ensures Used(UnmapPage(s, v), near, f) ==> Used(s, near, f) { UsedUnmap(s, near, v, f); }
      case CloneDir =>
        CloneThroughIs(s, near);
        CloneStays(s, near);
      case SwitchTo(d) =>
        SwitchStays(s, near, d);
    }
  }

  lemma MapStays(s: VM, near: nat, v: Word, p: Word, flags: nat)
    requires Inv(s) && Reach(s, near) && flags < PAGE && Safe(s, near, Map(v, p, flags))
    ensures s.cur < PAGES && Reach(MapPage(s, v, p, flags), near)
    ensures forall f: nat :: Used(MapPage(s, v, p, flags), near, f) ==> Used(s, near, f)
  {
    hide Inv, Reach, Used, EnsureTable, Alloc, Ent, PutEnt;
    InvCur(s);
    if EnsureTable(s, SlotOf(v), flags).Some? {
      MapReach(s, near, v, p, flags);
      forall f: nat ensures Used(MapPage(s, v, p, flags), near, f) ==> Used(s, near, f) {
        UsedMap(s, near, v, p, flags, f);
      }
    } else {
      AllocShrinks(s.pool);
      FewerFree(s, near, MapPage(s, v, p, flags));
    }
  }

  lemma CloneStays(s: VM, near: nat)
    requires Inv(s) && Reach(s, near) && Near(s.pool, near)
    ensures Reach(Clone(s).0, near) && forall f: nat :: Used(Clone(s).0, near, f) ==> Used(s, near, f)
  {
    hide Inv, Reach, Used, Clone;
    ReachDirs(s, near);
    CloneReach(s, near);
    if Clone(s).1 == 0 {
      CloneNothing(s);
      FewerFree(s, near, Clone(s).0);
    } else {
      forall f: nat ensures Used(Clone(s).0, near, f) ==> Used(s, near, f) { UsedClone(s, near, f); }
    }
  }

  lemma SwitchStays(s: VM, near: nat, d: nat)
    requires Reach(s, near)
    ensures Reach(Switch(s, d), near) && forall f: nat :: Used(Switch(s, d), near, f) ==> Used(s, near, f)
  {
    FewerFree(s, near, Switch(s, d));
  }

  /** Every operation is called on a safe page of the state the code has reached. */
  ghost predicate SafeRun(s: VM, near: nat, ops: seq<PagingSpec.Op>)
    decreases |ops|
  {
    ops == [] ||
    (&& s.cur < PAGES && s.kpd < PAGES && Legal(s, ops[0]) && Safe(s, near, ops[0])
     && (StepThrough(s, ops[0]).Some? ==> SafeRun(StepThrough(s, ops[0]).value, near, ops[1..])))
  }

  /** The run, or None if it faults. */
  ghost function RunThrough(s: VM, near: nat, ops: seq<PagingSpec.Op>): Option<VM>
    requires SafeRun(s, near, ops)
    decreases |ops|
  {
    if ops == [] then Some(s) else
    match StepThrough(s, ops[0])
    case None => None
    case Some(t) => RunThrough(t, near, ops[1..])
  }

  /** No safe run of map, unmap, clone and switch faults, and after every one of them two address spaces share exactly
      the second-level tables that were in the kernel directory when they were cloned; what a directory was cloned with
      never changes. */
  lemma {:induction false} RunShares(s: VM, near: nat, ops: seq<PagingSpec.Op>)
    requires Inv(s) && Reach(s, near) && SafeRun(s, near, ops)
    ensures RunThrough(s, near, ops).Some?
    ensures var t := RunThrough(s, near, ops).value;
            && Inv(t) && Reach(t, near) && s.base.Keys <= t.base.Keys
            && (forall d :: d in s.base ==> t.base[d] == s.base[d])
            && forall d, e, i :: d in t.base && e in t.base && d != e && 0 <= i < 1024 ==>
                 (Live(t, d, i) && Live(t, e, i) && Table(t, d, i) == Table(t, e, i) <==>
                     i in t.base[d] && i in t.base[e])
    decreases |ops|
  {
    hide DirsOk, TablesOk, Separate, Inherited, Used, Reach, StepThrough;
    if ops == [] {
      forall d, e, i | d in s.base && e in s.base && d != e && 0 <= i < 1024
        ensures Live(s, d, i) && Live(s, e, i) && Table(s, d, i) == Table(s, e, i) <==> i in s.base[d] && i in s.base[e]
      {
        SharedExactly(s, d, e, i);
      }
    } else {
      StepInv(s, ops[0]);
      StepThroughIs(s, near, ops[0]);
      RunShares(PagingSpec.Step(s, ops[0]), near, ops[1..]);
    }
  }

  // ---------- What each operation changes, in every address space ----------

  /** paging_map_page, as the code runs it: if there is a table or a frame for one, the mapping appears in exactly the
      address spaces that share the slot with the current one and nothing else changes in any of them; otherwise memory
      is untouched. */
  lemma MapEffect(s: VM, near: nat, v: Word, p: Word, flags: nat, d: nat, x: Word)
    requires Inv(s) && Reach(s, near) && flags < PAGE && d in s.base && (NeedsTable(s, v) ==> Near(s.pool, near))
    ensures s.cur < PAGES && d < PAGES && MapThrough(s, v, p, flags).Some?
    ensures var t := MapThrough(s, v, p, flags).value;
            && Inv(t)
            && Lookup(t.m, d, x) ==
               (if (NeedsTable(s, v) ==> Alloc(s.pool).1 != 0)
                   && x / PAGE == v / PAGE && Sees(s, d, SlotOf(v)) then Some(AddressIn(FrameNo(p), x))
                else Lookup(s.m, d, x))
            && RightsAt(t.m, d, x) ==
               (if (NeedsTable(s, v) ==> Alloc(s.pool).1 != 0)
                   && x / PAGE == v / PAGE && Sees(s, d, SlotOf(v))
                then Some(Both(SlotRights(s, d, v, flags), RightsIn(flags))) else RightsAt(s.m, d, x))
            && (Reach(t, near) <==>
                KeepsOff(s, near, PagingSpec.Map(v, p, flags)) || (NeedsTable(s, v) && Alloc(s.pool).1 == 0))
  {
    hide TablesOk, Separate, Inherited, Reach, Lookup, MapThrough, Alloc, Ent, PutEnt, Present, Sees, Used, RightsAt,
         RightsIn, SlotRights;
    MapThroughIs(s, near, v, p, flags);
    MapPageInv(s, v, p, flags);
    if EnsureTable(s, SlotOf(v), flags).Some? {
      MapPageEffect(s, v, p, flags, d, x);
      MapRights(s, v, p, flags, d, x);
      MapReach(s, near, v, p, flags);
    } else {
      AllocShrinks(s.pool);
      FewerFree(s, near, MapPage(s, v, p, flags));
    }
  }

  /** paging_unmap_page, as the code runs it. */
  lemma UnmapEffect(s: VM, near: nat, v: Word, d: nat, x: Word)
    requires Inv(s) && Reach(s, near) && d in s.base
    ensures s.cur < PAGES && d < PAGES && UnmapThrough(s, v).Some?
    ensures var t := UnmapThrough(s, v).value;
            && Inv(t) && (Reach(t, near) <==> KeepsOff(s, near, PagingSpec.Unmap(v)))
            && Lookup(t.m, d, x) == (if x / PAGE == v / PAGE && Sees(s, d, SlotOf(v)) then None else Lookup(s.m, d, x))
            && RightsAt(t.m, d, x) ==
               if x / PAGE == v / PAGE && Sees(s, d, SlotOf(v)) then None else RightsAt(s.m, d, x)
  {
    hide TablesOk, Separate, Inherited, Reach, Lookup, UnmapThrough, UnmapPage, Sees, Used, RightsAt;
    UnmapRights(s, v, d, x);
    UnmapThroughIs(s, near, v);
    UnmapPageInv(s, v);
    UnmapReach(s, near, v);
    UnmapPageEffect(s, v, d, x);
  }

  /** paging_clone_pd, as the code runs it: the clone translates exactly as the kernel directory does, and no other
      translation changes. */
  lemma CloneCopies(s: VM, near: nat, d: nat, x: Word)
    requires Inv(s) && Reach(s, near) && Near(s.pool, near)
    ensures s.cur < PAGES && s.kpd < PAGES && CloneThrough(s).Some?
    ensures var (t, addr) := CloneThrough(s).value;
            && Inv(t) && Reach(t, near) && (addr == 0 <==> Alloc(s.pool).1 == 0)
            && (addr != 0 && d in t.base ==>
                  d < PAGES && FrameNo(addr) !in s.base
                  && (d == FrameNo(addr) || d in s.base)
                  && Lookup(t.m, d, x) == Lookup(s.m, if d == FrameNo(addr) then s.kpd else d, x)
                  && RightsAt(t.m, d, x) == RightsAt(s.m, if d == FrameNo(addr) then s.kpd else d, x))
  {
    hide Inv, Reach, Lookup, CloneThrough, Clone, Alloc, RightsAt;
    CloneThroughIs(s, near);
    CloneInv(s);
    CloneReach(s, near);
    CloneAddress(s);
    if Clone(s).1 != 0 && d in Clone(s).0.base {
      CloneDirs(s);
      CloneEffect(s, d, x);
      CloneRights(s, d, x);
    }
  }

  lemma CloneAddress(s: VM)
    requires s.kpd < PAGES
    ensures Clone(s).1 == Alloc(s.pool).1
  {
  }

  /** A page fault that does not panic is resolved, to a frame that was free, exactly when the slot had a table or a
      second frame was free for one; otherwise the handler returns with the page still missing, having used up the last
      frame. Either way the kernel keeps what it needs within reach. */
  lemma FaultResolves(s: VM, near: nat, err: Word, addr: Word)
    requires Inv(s) && Reach(s, near) && s.cur < PAGES && Lookup(s.m, s.cur, addr) == None
    requires 0 !in s.pool.free && forall f :: f in s.pool.free ==> f < PAGES
    requires NeedsTable(s, addr) ==> Near(Alloc(s.pool).0, near)
    ensures FaultThrough(s, err, addr).Some?
    ensures var (t, handled) := FaultThrough(s, err, addr).value;
            handled ==>
              && Inv(t) && Reach(t, near)
              && (Lookup(t.m, s.cur, addr).Some? <==> Present(Ent(s.m, s.cur, SlotOf(addr))) || |s.pool.free| >= 2)
              && (Lookup(t.m, s.cur, addr).Some? ==>
                    var slot := SlotRights(s, s.cur, addr, UserBit(err));
                    RightsAt(t.m, s.cur, addr) == Some(Both(slot, Rights(true, Bit(err, USER)))))
              && (Lookup(t.m, s.cur, addr).Some? ==>
                    exists f :: f in s.pool.free && f !in t.pool.free &&
                        Lookup(t.m, s.cur, addr) == Some(f * PAGE + addr % PAGE))
    ensures FaultThrough(s, err, addr).value.1 <==> !(err % 2 == 1 || err / 8 % 2 == 1 || s.pool.free == {})
  {
    hide Inv, Reach, Used, Lookup, MapThrough, MapPage, Alloc, Ent, Present;
    AllocNothing(s.pool);
    var u := s.(pool := Alloc(s.pool).0);
    AllocShrinks(s.pool);
    PoolInv(s, u);
    FewerFree(s, near, u);
    if !(err % 2 == 1 || err / 8 % 2 == 1) && Alloc(s.pool).1 != 0 {
      var v, flags := addr / PAGE * PAGE, PRESENT + WRITE + UserBit(err);
      MapThroughIs(u, near, v, Alloc(s.pool).1, flags);
      PageFaultResolves(s, err, addr);
      UnmappedUnused(s, near, addr);
      MapStays(u, near, v, Alloc(s.pool).1, flags);
      FaultRights(s, u, err, addr);
    }
  }

  /** A resolved fault leaves the page writable, and open to user mode if that is where the fault came from, as far as
      the directory entry goes. */
  lemma FaultRights(s: VM, u: VM, err: Word, addr: Word)
    requires Inv(s) && Inv(u) && s.cur < PAGES && u == s.(pool := u.pool) && Lookup(s.m, s.cur, addr) == None
    ensures var t := MapPage(u, addr / PAGE * PAGE, Alloc(s.pool).1, PRESENT + WRITE + UserBit(err));
            Lookup(t.m, s.cur, addr).Some? ==>
              RightsAt(t.m, s.cur, addr) ==
              Some(Both(SlotRights(s, s.cur, addr, UserBit(err)), Rights(true, Bit(err, USER))))
  {
    hide Inv, Lookup, Ent, Present, RightsAt, RightsIn, Bit, SlotOf, Alloc, EnsureTable, Sees;
    var v: Word, flags := addr / PAGE * PAGE, PRESENT + WRITE + UserBit(err);
    PageOf(addr);
    SameSlot(addr, v);
    CurIn(u);
    SeesSelf(u, SlotOf(v));
    FaultFlags(err);
    UserOnly(err);
    if EnsureTable(u, SlotOf(v), flags).Some? {
      MapRights(u, v, Alloc(s.pool).1, flags, s.cur, addr);
    }
  }

  lemma PageOf(addr: Word)
    ensures addr / PAGE * PAGE / PAGE == addr / PAGE
  {
  }

  lemma UserOnly(err: Word)
    ensures Bit(PRESENT + WRITE + UserBit(err), USER) == Bit(UserBit(err), USER) == Bit(err, USER)
  {
  }

  lemma PoolInv(s: VM, u: VM)
    requires Inv(s) && u == s.(pool := u.pool) && u.pool.free <= s.pool.free
    ensures Inv(u)
  {
    InvFrame(s, u);
  }

  lemma AllocNothing(p: Pool)
    requires 0 !in p.free && forall f :: f in p.free ==> f < PAGES
    ensures Alloc(p).1 == 0 <==> p.free == {}
  {
    if p.free != {} {
      var f :| f in p.free;
    }
  }

  lemma UnmappedUnused(s: VM, near: nat, addr: Word)
    requires Inv(s) && Reach(s, near) && s.cur < PAGES && Lookup(s.m, s.cur, addr) == None
    ensures !Used(s, near, addr / PAGE) && addr / PAGE * PAGE / PAGE == addr / PAGE
  {
    hide Used, TablesOk, Separate, Inherited, Ent;
    if Used(s, near, addr / PAGE) {
      assert SelfMapped(s.m, s.cur, addr / PAGE);
      PageStart(addr / PAGE);
      SamePage(addr, addr / PAGE * PAGE);
    }
  }

  // ---------- From start-up, above the first gigabyte ----------

  const LOW_FRAMES: nat := 0x4_0000

  /** Directories and tables lie in the first gigabyte. */
  ghost predicate Low(s: VM) {
    forall f: nat :: Used(s, LOW_FRAMES, f) ==> f < LOW_FRAMES
  }

  lemma DirBound(s: VM, d: nat)
    requires Inv(s) && d in s.base
    ensures d < PAGES
  {
  }

  lemma LowReach(s: VM)
    requires Inv(s) && Identity(s) && Low(s)
    ensures Reach(s, LOW_FRAMES)
  {
    hide Used, Lookup, Inv;
    forall d, f: nat | d in s.base && Used(s, LOW_FRAMES, f) ensures d < PAGES && f < PAGES && SelfMapped(s.m, d, f) {
      PageStart(f);
      DirBound(s, d);
      assert Lookup(s.m, d, f * PAGE) == Some(f * PAGE);
    }
  }

  /** Mappings at or above 1 GB, where programs are linked. */
  predicate High(op: PagingSpec.Op) {
    op.Map? || op.Unmap? ==> op.v >= GIGABYTE
  }

  lemma HighSafe(s: VM, op: PagingSpec.Op)
    requires Low(s) && High(op)
    ensures KeepsOff(s, LOW_FRAMES, op)
  {
    hide Used;
    match op {
      case Map(v, p, _) => assert v / PAGE >= LOW_FRAMES;
      case Unmap(v) => assert v / PAGE >= LOW_FRAMES;
      case _ =>
    }
  }

  /** As SafeRun, but asking only that mappings stay above the first gigabyte and frames taken come from it. */
  ghost predicate HighRun(s: VM, ops: seq<PagingSpec.Op>)
    decreases |ops|
  {
    ops == [] ||
    (&& s.cur < PAGES && s.kpd < PAGES && Legal(s, ops[0]) && High(ops[0]) && TakesNear(s, LOW_FRAMES, ops[0])
     && (StepThrough(s, ops[0]).Some? ==> HighRun(StepThrough(s, ops[0]).value, ops[1..])))
  }

  /** With everything the kernel needs in the identity-mapped first gigabyte, runs that map above it are safe, and leave
      it that way. */
  lemma {:induction false} HighRunSafe(s: VM, ops: seq<PagingSpec.Op>)
    requires Inv(s) && Identity(s) && Low(s) && HighRun(s, ops)
    ensures SafeRun(s, LOW_FRAMES, ops) && RunThrough(s, LOW_FRAMES, ops).Some?
    ensures Identity(RunThrough(s, LOW_FRAMES, ops).value) && Low(RunThrough(s, LOW_FRAMES, ops).value)
    ensures KernelOnly(s) ==> KernelOnly(RunThrough(s, LOW_FRAMES, ops).value)
    decreases |ops|
  {
    hide Inv, Identity, Used, StepThrough, KeepsOff, TakesNear, High, Reach, Low, PagingSpec.Step, KernelOnly;
    if ops != [] {
      LowReach(s);
      HighSafe(s, ops[0]);
      StepThroughIs(s, LOW_FRAMES, ops[0]);
      StepInv(s, ops[0]);
      HighIdentity(s, ops[0]);
      HighKernelOnly(s, ops[0]);
      LowKept(s, PagingSpec.Step(s, ops[0]));
      HighRunSafe(PagingSpec.Step(s, ops[0]), ops[1..]);
    }
  }

  lemma HighKernelOnly(s: VM, op: PagingSpec.Op)
    requires Inv(s) && Legal(s, op) && High(op)
    ensures s.cur < PAGES && s.kpd < PAGES && (KernelOnly(s) ==> KernelOnly(PagingSpec.Step(s, op)))
  {
    hide TablesOk, Separate, Inherited, KernelOnly, PagingSpec.Step;
    if KernelOnly(s) {
      StepKernelOnly(s, op);
    }
  }

  lemma LowKept(s: VM, t: VM)
    requires Low(s) && forall f: nat :: Used(t, LOW_FRAMES, f) ==> Used(s, LOW_FRAMES, f)
    ensures Low(t)
  {
    hide Used;
  }

  lemma HighIdentity(s: VM, op: PagingSpec.Op)
    requires Inv(s) && Legal(s, op) && Identity(s) && High(op) && s.cur < PAGES && s.kpd < PAGES
    ensures Identity(PagingSpec.Step(s, op))
  {
    hide Inv, Identity, Legal;
    StepIdentity(s, op);
  }

  /** paging_init leaves directories and tables low if the kernel image is. */
  lemma BootLow(m: Ram, pool: Pool, k: nat, t: nat)
    requires Booted(m, k, t) && k < LOW_FRAMES && t + 256 <= LOW_FRAMES
    ensures Low(VM(m, pool, k, k, map[k := AllSlots()]))
  {
    hide Ent;
    var s := VM(m, pool, k, k, map[k := AllSlots()]);
    forall d, i: nat | Live(s, d, i) ensures Table(s, d, i) < LOW_FRAMES {
    }
  }

  /** From start-up: over every run of map, unmap, clone and switch that maps above the first gigabyte, and as long as
      frames below it last for tables and directories, nothing faults, the first gigabyte stays identity-mapped and out
      of bounds for user mode everywhere, and two address spaces share exactly the tables that were in the kernel
      directory when they were cloned. */
  lemma BootRunShares(m: Ram, pool: Pool, k: nat, t: nat, ops: seq<PagingSpec.Op>)
    requires Booted(m, k, t) && k < LOW_FRAMES && t + 256 <= LOW_FRAMES && !(t <= k < t + 256)
    requires k !in pool.free && Range(t, 256) !! pool.free
    requires HighRun(VM(m, pool, k, k, map[k := AllSlots()]), ops)
    ensures var s := VM(m, pool, k, k, map[k := AllSlots()]);
            && SafeRun(s, LOW_FRAMES, ops) && RunThrough(s, LOW_FRAMES, ops).Some?
            && var u := RunThrough(s, LOW_FRAMES, ops).value;
               && Inv(u) && Identity(u) && KernelOnly(u)
               && forall d, e, i :: d in u.base && e in u.base && d != e && 0 <= i < 1024 ==>
                    (Live(u, d, i) && Live(u, e, i) && Table(u, d, i) == Table(u, e, i) <==>
                        i in u.base[d] && i in u.base[e])
  {
    hide Booted, Inv, Identity, Low, Reach, HighRun, SafeRun, RunThrough, KernelOnly;
    var s := VM(m, pool, k, k, map[k := AllSlots()]);
    BootInv(m, pool, k, t);
    BootLow(m, pool, k, t);
    BootKernelOnly(s, k, t);
    LowReach(s);
    HighRunSafe(s, ops);
    RunShares(s, LOW_FRAMES, ops);
  }

  // ---------- Out of reach ----------

  /** Mapping over the page of the current directory: from then on the kernel takes the frame mapped there for its
      directory, while the hardware still uses the real one. */
  lemma MapOverDirectory(s: VM, near: nat, p: Word, flags: nat, i: nat)
    requires Inv(s) && Reach(s, near) && flags < PAGE && i < 1024
    ensures s.cur < PAGES && MapThrough(s, s.cur * PAGE, p, flags).Some?
    ensures var t := MapThrough(s, s.cur * PAGE, p, flags).value; Load(t, t.cur, i) == Some(Ent(t.m, FrameNo(p), i))
  {
    hide Inv, Reach, Lookup, MapThrough, MapPage, Ent, PutEnt, EnsureTable, Sees;
    ReachDirs(s, near);
    CurIn(s);
    PageStart(s.cur);
    SlotPresent(s, s.cur, flags);
    MapThroughIs(s, near, s.cur * PAGE, p, flags);
    MappedPage(s, s.cur * PAGE, p, flags, s.cur, s.cur);
    SeesSelf(s, SlotOf(s.cur * PAGE));
  }

  lemma SlotPresent(s: VM, f: nat, flags: nat)
    requires s.cur < PAGES && f < PAGES && f * PAGE < MEM && SelfMapped(s.m, s.cur, f)
    ensures EnsureTable(s, SlotOf(f * PAGE), flags).Some? && !NeedsTable(s, f * PAGE)
  {
  }

  /** A table in a frame that is not mapped: paging_map_page faults while clearing it. */
  lemma TableOutOfReach(s: VM, v: Word, p: Word, flags: nat)
    requires flags < PAGE && s.cur < PAGES && SelfMapped(s.m, s.cur, s.cur) && !Present(Ent(s.m, s.cur, SlotOf(v)))
    requires Alloc(s.pool).1 != 0 && FrameOf(s.m, s.cur, FrameNo(Alloc(s.pool).1)) == None
    ensures MapThrough(s, v, p, flags) == None
  {
    hide Lookup, Ent, PutEnt, Alloc, Present;
    SelfMappedAccess(s, s.cur, SlotOf(v), 0);
  }

  /** Precisely: with directories and tables within reach, paging_map_page faults if and only if it needs a table and
      the frame it gets for it is not mapped. (A frame mapped, but not to itself, is left aside.) */
  lemma MapFaults(s: VM, near: nat, v: Word, p: Word, flags: nat)
    requires Inv(s) && Reach(s, near) && flags < PAGE
    requires NeedsTable(s, v) ==> Near(s.pool, near) || FrameOf(s.m, s.cur, FrameNo(Alloc(s.pool).1)) == None
    ensures s.cur < PAGES
    ensures MapThrough(s, v, p, flags) == None <==>
            NeedsTable(s, v) && Alloc(s.pool).1 != 0 && FrameOf(s.m, s.cur, FrameNo(Alloc(s.pool).1)) == None
  {
    hide Inv, Reach, MapThrough, Alloc, Ent, Present, Lookup, Spare;
    ReachDirs(s, near);
    if NeedsTable(s, v) && Alloc(s.pool).1 != 0 {
      if FrameOf(s.m, s.cur, FrameNo(Alloc(s.pool).1)) == None {
        TableOutOfReach(s, v, p, flags);
      } else {
        AllocFresh(s.pool);
        MapThroughIs(s, near, v, p, flags);
      }
    } else {
      MapThroughIs(s, near, v, p, flags);
    }
  }

  /** So it goes right after start-up on a machine whose lowest free frame is past the first gigabyte. */
  lemma HighTableFaults(m: Ram, pool: Pool, k: nat, t: nat, v: Word, p: Word, flags: nat)
    requires Booted(m, k, t) && k < LOW_FRAMES && flags < PAGE && v >= GIGABYTE && Alloc(pool).1 >= GIGABYTE
    ensures MapThrough(VM(m, pool, k, k, map[k := AllSlots()]), v, p, flags) == None
  {
    hide Booted, Ent, Alloc, MapThrough;
    var s := VM(m, pool, k, k, map[k := AllSlots()]);
    var a := FrameNo(Alloc(pool).1);
    PageStart(k);
    BootLookup(m, k, t, k * PAGE);
    BootEmpty(m, k, t, SlotOf(v));
    PageStart(a);
    BootEmpty(m, k, t, SlotOf(a * PAGE));
    TableOutOfReach(s, v, p, flags);
  }

  lemma BootEmpty(m: Ram, k: nat, t: nat, i: nat)
    requires Booted(m, k, t) && 256 <= i < 1024
    ensures !Present(Ent(m, k, i))
  {
    hide Ent;
    NotPresentZero();
  }
}
