/** Two-level page tables of src/paging.c, as functions on physical memory. */
module PagingSpec {
  import opened Machine
  import opened PmmSpec
  import opened Memory

  const SLOT: nat := 0x40_0000
  const PRESENT: nat := 1
  const WRITE: nat := 2
  const USER: nat := 4

  /** Physical memory, the frame allocator, the kernel directory, the current one, and, for every directory, the slots
      that were present in the kernel directory when it was cloned. Directories are named by frame number. */
  datatype VM = VM(m: Ram, pool: Pool, kpd: nat, cur: nat, base: map<nat, set<nat>>)

  predicate Present(e: Word) { e % 2 == 1 }

  function SlotOf(v: Word): (i: nat)
    ensures i < 1024
  {
    v / SLOT
  }

  function IndexOf(v: Word): (i: nat)
    ensures i < 1024
  {
    v / PAGE % 1024
  }

  function AllSlots(): set<nat> { Range(0, 1024) }

  /** The frame an entry points to. */
  function FrameNo(e: Word): (f: nat)
    ensures f < PAGES
  {
    e / PAGE
  }

  /** The byte of frame f at the page offset of v. */
  function AddressIn(f: nat, v: Word): Word
    requires f < PAGES
  {
    f * PAGE + v % PAGE
  }

  /** What the hardware, and paging_get_physical, make of virtual address v under directory d. */
  function Lookup(m: Ram, d: nat, v: Word): Option<Word>
    requires d < PAGES
  {
    var pde := Ent(m, d, SlotOf(v));
    if !Present(pde) then None else
    var pte := Ent(m, FrameNo(pde), IndexOf(v));
    if !Present(pte) then None else Some(AddressIn(FrameNo(pte), v))
  }

  function PresentSlots(m: Ram, d: nat): set<nat>
    requires d < PAGES
  {
    set i: nat | i < 1024 && Present(Ent(m, d, i))
  }

  // ---------- The operations ----------

  /** flags | PAGE_PRESENT */
  function WithPresent(flags: nat): nat {
    if flags % 2 == 1 then flags else flags + 1
  }

  /** flags & PAGE_USER */
  function UserBit(flags: nat): nat {
    if flags / USER % 2 == 1 then USER else 0
  }

  function Pte(p: Word, flags: nat): Word
    requires flags < PAGE
  {
    p / PAGE * PAGE + WithPresent(flags)
  }

  function Pde(table: nat, flags: nat): Word
    requires table < PAGES
  {
    table * PAGE + PRESENT + WRITE + UserBit(flags)
  }

  lemma PdeParts(table: nat, flags: nat)
    requires table < PAGES
    ensures Present(Pde(table, flags)) && Pde(table, flags) / PAGE == table
  {
  }

  lemma PteParts(p: Word, flags: nat)
    requires flags < PAGE
    ensures Present(Pte(p, flags)) && Pte(p, flags) / PAGE == p / PAGE
  {
  }

  /** Mapping v takes a frame for a table. */
  predicate NeedsTable(s: VM, v: Word)
    requires s.cur < PAGES
  {
    !Present(Ent(s.m, s.cur, SlotOf(v)))
  }

  /** The next frame to be allocated, if there is one, is below near. */
  predicate Near(p: Pool, near: nat) {
    Alloc(p).1 == 0 || FrameNo(Alloc(p).1) < near
  }

  /** The part of paging_map_page that makes sure there is a table; fails when no frame is left. */
  function EnsureTable(s: VM, slot: nat, flags: nat): (r: Option<VM>)
    requires s.cur < PAGES && slot < 1024
    ensures r.Some? ==> r.value.kpd == s.kpd && r.value.cur == s.cur && r.value.base == s.base
  {
    if Present(Ent(s.m, s.cur, slot)) then Some(s) else
    var (pool, addr) := Alloc(s.pool);
    if addr == 0 then None else
    var t := addr / PAGE;
    Some(s.(m := PutEnt(ZeroFrame(s.m, t), s.cur, slot, Pde(t, flags)), pool := pool))
  }

  function MapPage(s: VM, v: Word, p: Word, flags: nat): (t: VM)
    requires s.cur < PAGES && flags < PAGE
    ensures t.kpd == s.kpd && t.cur == s.cur && t.base == s.base
  {
    match EnsureTable(s, SlotOf(v), flags)
    case None => s.(pool := Alloc(s.pool).0)
    case Some(t) => t.(m := PutEnt(t.m, Ent(t.m, t.cur, SlotOf(v)) / PAGE, IndexOf(v), Pte(p, flags)))
  }

  function UnmapPage(s: VM, v: Word): VM
    requires s.cur < PAGES
  {
    var pde := Ent(s.m, s.cur, SlotOf(v));
    if Present(pde) then s.(m := PutEnt(s.m, pde / PAGE, IndexOf(v), 0)) else s
  }

  /** paging_clone_pd; the result is the address of the new directory, or 0. */
  function Clone(s: VM): (VM, Word)
    requires s.kpd < PAGES
  {
    var (pool, addr) := Alloc(s.pool);
    if addr == 0 then (s.(pool := pool), 0) else
    var d := addr / PAGE;
    (VM(CopyFrame(s.m, s.kpd, d), pool, s.kpd, s.cur, s.base[d := PresentSlots(s.m, s.kpd)]), addr)
  }

  function Switch(s: VM, d: nat): VM {
    s.(cur := d)
  }

  // ---------- The invariant ----------

  ghost predicate Live(s: VM, d: nat, i: nat) {
    d in s.base && d < PAGES && i < 1024 && Present(Ent(s.m, d, i))
  }

  function Table(s: VM, d: nat, i: nat): nat
    requires d < PAGES && i < 1024
  {
    Ent(s.m, d, i) / PAGE
  }

  /** Directories are allocated frames; the kernel's counts as sharing every slot. */
  ghost predicate DirsOk(s: VM) {
    && s.kpd in s.base && s.cur in s.base && s.base[s.kpd] == AllSlots()
    && (forall d :: d in s.base ==> d < PAGES && d !in s.pool.free && s.base[d] <= AllSlots())
  }

  /** Second-level tables are allocated frames and not directories. */
  ghost predicate TablesOk(s: VM) {
    forall d, i :: Live(s, d, i) ==> Table(s, d, i) !in s.pool.free && Table(s, d, i) !in s.base
  }

  /** A table sits in one slot only, and is shared only between directories that both had it from the kernel. */
  ghost predicate Separate(s: VM) {
    forall d, i, e, j :: Live(s, d, i) && Live(s, e, j) && Table(s, d, i) == Table(s, e, j) ==>
      i == j && (d == e || (i in s.base[d] && i in s.base[e]))
  }

  /** A clone keeps the entries it was cloned with. */
  ghost predicate Inherited(s: VM) {
    forall d, i :: d in s.base && d != s.kpd && i in s.base[d] ==>
      d < PAGES && i < 1024 && s.kpd < PAGES && Ent(s.m, d, i) == Ent(s.m, s.kpd, i) && Present(Ent(s.m, d, i))
  }

  ghost predicate Inv(s: VM) {
    DirsOk(s) && TablesOk(s) && Separate(s) && Inherited(s)
  }

  /** d sees what is mapped through slot i of the current directory. */
  ghost predicate Sees(s: VM, d: nat, i: nat) {
    d == s.cur || (d in s.base && s.cur in s.base && i in s.base[d] && i in s.base[s.cur])
  }

  /** Two address spaces share exactly the tables that were in the kernel directory when each was cloned. */
  lemma SharedExactly(s: VM, d: nat, e: nat, i: nat)
    requires Inv(s) && d in s.base && e in s.base && d != e && i < 1024
    ensures (Live(s, d, i) && Live(s, e, i) && Table(s, d, i) == Table(s, e, i)) <==> i in s.base[d] && i in s.base[e]
  {
  }

  // ---------- The invariant is kept ----------

  lemma AllocFresh(p: Pool)
    requires Alloc(p).1 != 0
    ensures var a := Alloc(p).1 / PAGE;
            a in p.free && a < PAGES && Alloc(p).0.free == p.free - {a} && Alloc(p).1 == a * PAGE
  {
  }

  lemma AllocShrinks(p: Pool)
    ensures Alloc(p).0.free <= p.free
  {
  }

  /** Memory changes that touch no directory entry and free no frame keep the invariant. */
  lemma InvFrame(s: VM, t: VM)
    requires Inv(s) && t.kpd == s.kpd && t.cur in s.base && t.base == s.base && t.pool.free <= s.pool.free
    requires forall d, i :: d in s.base && 0 <= i < 1024 && d < PAGES ==> Ent(t.m, d, i) == Ent(s.m, d, i)
    ensures Inv(t)
  {
    hide Ent;
    assert forall d, i :: Live(t, d, i) <==> Live(s, d, i);
  }

  /** Hanging a fresh table into an empty slot of the current directory keeps the invariant. */
  lemma EnsureTableInv(s: VM, slot: nat, flags: nat)
    requires Inv(s) && slot < 1024 && EnsureTable(s, slot, flags).Some?
    ensures var t := EnsureTable(s, slot, flags).value;
            && Inv(t) && t.kpd == s.kpd && t.cur == s.cur && t.base == s.base && t.pool.free <= s.pool.free
            && Live(t, s.cur, slot)
  {
    hide Ent, PutEnt, ZeroFrame, Alloc, Pde, Present, TablesOk, Separate, Inherited;
    if !Present(Ent(s.m, s.cur, slot)) {
      AllocFresh(s.pool);
      var a := Alloc(s.pool).1 / PAGE;
      PdeParts(a, flags);
      var t := EnsureTable(s, slot, flags).value;
      EntsAfterTable(s, t, a, slot, flags);
      NewTableInv(s, t, a, slot);
    }
  }

  lemma EntsAfterTable(s: VM, t: VM, a: nat, slot: nat, flags: nat)
    requires Inv(s) && slot < 1024 && a < PAGES && a in s.pool.free
    requires t.m == PutEnt(ZeroFrame(s.m, a), s.cur, slot, Pde(a, flags))
    ensures Ent(t.m, s.cur, slot) == Pde(a, flags)
    ensures forall g, j :: 0 <= g < PAGES && 0 <= j < 1024 && g != a && (g != s.cur || j != slot) ==>
            Ent(t.m, g, j) == Ent(s.m, g, j)
    ensures forall j :: 0 <= j < 1024 ==> Ent(t.m, a, j) == 0
  {
    hide Ent, PutEnt, ZeroFrame;
    ZeroFrameEnts(s.m, a);
    PutEntFrame(ZeroFrame(s.m, a), s.cur, slot, Pde(a, flags));
  }

  lemma NewTableInv(s: VM, t: VM, a: nat, slot: nat)
    requires Inv(s) && slot < 1024 && a < PAGES && a in s.pool.free && !Present(Ent(s.m, s.cur, slot))
    requires t.kpd == s.kpd && t.cur == s.cur && t.base == s.base && t.pool.free == s.pool.free - {a}
    requires Present(Ent(t.m, s.cur, slot)) && Ent(t.m, s.cur, slot) / PAGE == a
    requires forall g, j :: 0 <= g < PAGES && 0 <= j < 1024 && g != a && (g != s.cur || j != slot) ==>
             Ent(t.m, g, j) == Ent(s.m, g, j)
    ensures Inv(t)
  {
    hide Ent;
    assert forall d, i :: Live(t, d, i) <==> Live(s, d, i) || (d == s.cur && i == slot);
    assert forall d, i :: Live(s, d, i) ==> Table(t, d, i) == Table(s, d, i) != a;
  }

  lemma MapPageInv(s: VM, v: Word, p: Word, flags: nat)
    requires Inv(s) && flags < PAGE
    ensures Inv(MapPage(s, v, p, flags))
  {
    hide Ent, PutEnt, EnsureTable, TablesOk, Separate, Inherited;
    var slot := SlotOf(v);
    if EnsureTable(s, slot, flags).Some? {
      EnsureTableInv(s, slot, flags);
      var t := EnsureTable(s, slot, flags).value;
      TablePut(t, slot, IndexOf(v), Pte(p, flags));
    } else {
      AllocShrinks(s.pool);
      InvFrame(s, s.(pool := Alloc(s.pool).0));
    }
  }

  /** Writing into a table of the current directory touches no directory. */
  lemma TablePut(t: VM, slot: nat, i: nat, w: Word)
    requires Inv(t) && Live(t, t.cur, slot) && i < 1024
    ensures Inv(t.(m := PutEnt(t.m, Table(t, t.cur, slot), i, w)))
  {
    hide Ent, PutEnt, Separate, Inherited;
    PutEntFrame(t.m, Table(t, t.cur, slot), i, w);
    InvFrame(t, t.(m := PutEnt(t.m, Table(t, t.cur, slot), i, w)));
  }

  lemma UnmapPageInv(s: VM, v: Word)
    requires Inv(s)
    ensures Inv(UnmapPage(s, v))
  {
    hide Ent, PutEnt, TablesOk, Separate, Inherited;
    if Present(Ent(s.m, s.cur, SlotOf(v))) {
      TablePut(s, SlotOf(v), IndexOf(v), 0);
    }
  }

  lemma CloneInv(s: VM)
    requires Inv(s)
    ensures Inv(Clone(s).0)
  {
    hide Ent, CopyFrame, Alloc;
    if Alloc(s.pool).1 != 0 {
      AllocFresh(s.pool);
      var a := Alloc(s.pool).1 / PAGE;
      CopyFrameEnts(s.m, s.kpd, a);
      NewDirInv(s, Clone(s).0, a);
    } else {
      AllocShrinks(s.pool);
      InvFrame(s, s.(pool := Alloc(s.pool).0));
    }
  }

  lemma NewDirInv(s: VM, t: VM, a: nat)
    requires Inv(s) && a < PAGES && a in s.pool.free
    requires t.kpd == s.kpd && t.cur == s.cur && t.pool.free == s.pool.free - {a}
    requires t.base == s.base[a := PresentSlots(s.m, s.kpd)]
    requires forall j :: 0 <= j < 1024 ==> Ent(t.m, a, j) == Ent(s.m, s.kpd, j)
    requires forall g, j :: 0 <= g < PAGES && 0 <= j < 1024 && g != a ==> Ent(t.m, g, j) == Ent(s.m, g, j)
    ensures Inv(t)
  {
    hide Ent;
    assert forall d, i :: d != a ==> (Live(t, d, i) <==> Live(s, d, i));
    assert forall i :: Live(t, a, i) <==> Live(s, s.kpd, i);
    assert forall i :: Live(t, a, i) ==> Table(t, a, i) == Table(s, s.kpd, i);
    assert forall d, i :: Live(s, d, i) ==> Table(t, d, i) == Table(s, d, i) != a;
  }

  // ---------- What each operation changes, in every address space ----------

  lemma SamePage(x: Word, y: Word)
    ensures x / PAGE == y / PAGE <==> SlotOf(x) == SlotOf(y) && IndexOf(x) == IndexOf(y)
  {
    hide SlotOf, IndexOf;
    SlotAndIndex(x);
    SlotAndIndex(y);
  }

  /** The page number, taken apart. */
  lemma SlotAndIndex(x: Word)
    ensures x / PAGE == SlotOf(x) * 1024 + IndexOf(x)
  {
    var p := x / PAGE;
    SlotHalf(x);
    assert p == p / 1024 * 1024 + p % 1024;
  }

  lemma SlotHalf(x: Word)
    ensures SlotOf(x) == x / PAGE / 1024
  {
  }

  /** Hanging in an empty table changes no translation. */
  lemma EnsureTableLookup(s: VM, slot: nat, flags: nat, d: nat, x: Word)
    requires Inv(s) && slot < 1024 && EnsureTable(s, slot, flags).Some? && d in s.base
    ensures Lookup(EnsureTable(s, slot, flags).value.m, d, x) == Lookup(s.m, d, x)
  {
    hide Ent, PutEnt, ZeroFrame, Alloc, Pde, Present, Separate, Inherited;
    if !Present(Ent(s.m, s.cur, slot)) {
      AllocFresh(s.pool);
      var a := Alloc(s.pool).1 / PAGE;
      PdeParts(a, flags);
      NotPresentZero();
      var t := EnsureTable(s, slot, flags).value;
      EntsAfterTable(s, t, a, slot, flags);
      if d != s.cur || SlotOf(x) != slot {
        assert Live(s, d, SlotOf(x)) ==> Table(s, d, SlotOf(x)) != a && Table(s, d, SlotOf(x)) != s.cur;
      }
    }
  }

  lemma NotPresentZero()
    ensures !Present(0)
  {
  }

  /** Who else reads the table behind slot i of the current directory. */
  lemma SameTable(s: VM, slot: nat, d: nat, i: nat)
    requires Inv(s) && Live(s, s.cur, slot) && Live(s, d, i)
    ensures Table(s, d, i) == Table(s, s.cur, slot) <==> i == slot && Sees(s, d, slot)
  {
    hide Ent, Present;
  }

  lemma SeersHaveSlot(s: VM, slot: nat, d: nat)
    requires Inv(s) && d in s.base && slot < 1024 && Sees(s, d, slot)
    ensures Live(s, d, slot) <==> Live(s, s.cur, slot)
  {
    hide Ent, Present;
  }

  lemma PutLookup(s: VM, v: Word, w: Word, d: nat, x: Word)
    requires Inv(s) && Live(s, s.cur, SlotOf(v)) && d in s.base
    ensures Lookup(PutEnt(s.m, Table(s, s.cur, SlotOf(v)), IndexOf(v), w), d, x) ==
            if x / PAGE == v / PAGE && Sees(s, d, SlotOf(v))
            then (if Present(w) then Some(w / PAGE * PAGE + x % PAGE) else None)
            else Lookup(s.m, d, x)
  {
    hide Ent, PutEnt, Present, Separate, Inherited, SlotOf, IndexOf, Sees;
    var slot, i := SlotOf(v), SlotOf(x);
    var t := Table(s, s.cur, slot);
    PutEntFrame(s.m, t, IndexOf(v), w);
    SamePage(x, v);
    if Live(s, d, i) {
      SameTable(s, slot, d, i);
    } else if Sees(s, d, slot) {
      SeersHaveSlot(s, slot, d);
    }
  }

  /** A mapping shows up in exactly the address spaces that share the slot with the current one, and nothing else
      changes in any of them. */
  lemma MapPageEffect(s: VM, v: Word, p: Word, flags: nat, d: nat, x: Word)
    requires Inv(s) && flags < PAGE && d in s.base && EnsureTable(s, SlotOf(v), flags).Some?
    ensures Lookup(MapPage(s, v, p, flags).m, d, x) ==
            if x / PAGE == v / PAGE && Sees(s, d, SlotOf(v)) then Some(p / PAGE * PAGE + x % PAGE)
            else Lookup(s.m, d, x)
  {
    hide Lookup, Pte, Present, EnsureTable, TablesOk, Separate, Inherited, Ent, PutEnt;
    var slot := SlotOf(v);
    EnsureTableInv(s, slot, flags);
    EnsureTableLookup(s, slot, flags, d, x);
    PteParts(p, flags);
    PutLookup(EnsureTable(s, slot, flags).value, v, Pte(p, flags), d, x);
  }

  /** Directory entries after a mapping: at most one is new, and it points to a frame that was free. */
  lemma MapPageTables(s: VM, v: Word, p: Word, flags: nat, d: nat, i: nat)
    requires Inv(s) && flags < PAGE && EnsureTable(s, SlotOf(v), flags).Some? && d in s.base && i < 1024
    ensures var t := MapPage(s, v, p, flags);
            && (Live(t, d, i) <==> Live(s, d, i) || (d == s.cur && i == SlotOf(v)))
            && (Live(t, d, i) ==>
                  || (Live(s, d, i) && Table(t, d, i) == Table(s, d, i))
                  || (Table(t, d, i) in s.pool.free && Table(t, d, i) == FrameNo(Alloc(s.pool).1)
                      && NeedsTable(s, v) && Alloc(s.pool).1 != 0))
  {
    hide Ent, PutEnt, ZeroFrame, Pde, Pte, Present, Alloc, Separate, Inherited;
    var slot := SlotOf(v);
    var t := EnsureTable(s, slot, flags).value;
    EnsureTableInv(s, slot, flags);
    PutEntFrame(t.m, Table(t, t.cur, slot), IndexOf(v), Pte(p, flags));
    if !Present(Ent(s.m, s.cur, slot)) {
      AllocFresh(s.pool);
      var a := Alloc(s.pool).1 / PAGE;
      PdeParts(a, flags);
      EntsAfterTable(s, t, a, slot, flags);
    }
  }

  lemma MapPageFree(s: VM, v: Word, p: Word, flags: nat)
    requires Inv(s) && flags < PAGE && EnsureTable(s, SlotOf(v), flags).Some?
    ensures MapPage(s, v, p, flags).pool.free <= s.pool.free
  {
    EnsureTableInv(s, SlotOf(v), flags);
  }

  lemma SameLive(s: VM, u: VM)
    requires u.m == s.m && u.base == s.base
    ensures forall d, i :: Live(u, d, i) <==> Live(s, d, i)
    ensures forall d, i :: Live(u, d, i) ==> Table(u, d, i) == Table(s, d, i)
  {
    hide Ent;
  }

  lemma SeesSelf(s: VM, i: nat)
    ensures Sees(s, s.cur, i)
  {
  }

  lemma InvCur(s: VM)
    requires Inv(s)
    ensures s.cur < PAGES
  {
  }

  /** When the slot was empty nobody else can share it: the mapping is private. */
  lemma MapPagePrivate(s: VM, v: Word, d: nat)
    requires Inv(s) && d in s.base && d != s.cur && !Present(Ent(s.m, s.cur, SlotOf(v)))
    ensures !Sees(s, d, SlotOf(v))
  {
    hide Ent, Present;
  }

  /** When no frame can be had for a table, paging_map_page silently does nothing. */
  lemma MapPageFails(s: VM, v: Word, p: Word, flags: nat)
    requires s.cur < PAGES && flags < PAGE
    ensures EnsureTable(s, SlotOf(v), flags).None? <==>
            !Present(Ent(s.m, s.cur, SlotOf(v))) && ((forall f :: f in s.pool.free ==> f >= PAGES) || 0 in s.pool.free)
    ensures EnsureTable(s, SlotOf(v), flags).None? ==> MapPage(s, v, p, flags).m == s.m
  {
    hide Ent, Present;
  }

  lemma UnmapPageEffect(s: VM, v: Word, d: nat, x: Word)
    requires Inv(s) && d in s.base
    ensures Lookup(UnmapPage(s, v).m, d, x) ==
            if x / PAGE == v / PAGE && Sees(s, d, SlotOf(v)) then None else Lookup(s.m, d, x)
  {
    hide Ent, PutEnt, Present, TablesOk, Separate, Inherited, SlotOf, IndexOf, Sees;
    SamePage(x, v);
    if Live(s, s.cur, SlotOf(v)) {
      NotPresentZero();
      PutLookup(s, v, 0, d, x);
    } else if Sees(s, d, SlotOf(v)) {
      SeersHaveSlot(s, SlotOf(v), d);
    }
  }

  /** A clone translates exactly as the kernel directory does, and cloning changes no other translation. */
  lemma CloneEffect(s: VM, d: nat, x: Word)
    requires Inv(s) && Clone(s).1 != 0 && d in Clone(s).0.base
    ensures var a := Clone(s).1 / PAGE;
            a !in s.base && Lookup(Clone(s).0.m, d, x) == Lookup(s.m, if d == a then s.kpd else d, x)
  {
    hide Ent, CopyFrame, Alloc, Present, Separate, Inherited;
    AllocFresh(s.pool);
    var a := Alloc(s.pool).1 / PAGE;
    CopyFrameEnts(s.m, s.kpd, a);
    var e := if d == a then s.kpd else d;
    assert Live(s, e, SlotOf(x)) ==> Table(s, e, SlotOf(x)) != a;
  }

  // ---------- Steps ----------

  datatype Op = Map(v: Word, p: Word, flags: nat) | Unmap(v: Word) | CloneDir | SwitchTo(d: nat)

  function Step(s: VM, op: Op): VM
    requires s.cur < PAGES && s.kpd < PAGES && (op.Map? ==> op.flags < PAGE)
  {
    match op
    case Map(v, p, flags) => MapPage(s, v, p, flags)
    case Unmap(v) => UnmapPage(s, v)
    case CloneDir => Clone(s).0
    case SwitchTo(d) => Switch(s, d)
  }

  /** Only directories that exist are switched to, and flags fit below the frame number. */
  ghost predicate Legal(s: VM, op: Op) {
    (op.Map? ==> op.flags < PAGE) && (op.SwitchTo? ==> op.d in s.base)
  }

  lemma StepInv(s: VM, op: Op)
    requires Inv(s) && Legal(s, op)
    ensures Inv(Step(s, op))
    ensures s.base.Keys <= Step(s, op).base.Keys && Step(s, op).kpd == s.kpd
    ensures forall d :: d in s.base ==> Step(s, op).base[d] == s.base[d]
  {
    hide TablesOk, Separate, Inherited, Ent, PutEnt, CopyFrame, Alloc, EnsureTable;
    match op {
      case Map(v, p, flags) =>
        MapPageInv(s, v, p, flags);
        if EnsureTable(s, SlotOf(v), flags).Some? {
          EnsureTableInv(s, SlotOf(v), flags);
        }
      case Unmap(v) => UnmapPageInv(s, v);
      case CloneDir =>
        CloneInv(s);
        if Alloc(s.pool).1 != 0 {
          AllocFresh(s.pool);
        }
      case SwitchTo(d) =>
        SwitchInv(s, d);
    }
  }

  lemma SwitchInv(s: VM, d: nat)
    requires Inv(s) && d in s.base
    ensures Inv(Switch(s, d))
  {
    InvFrame(s, Switch(s, d));
  }

  // ---------- The identity map ----------

  const GIGABYTE: nat := 0x4000_0000

  /** Every address space maps the first gigabyte to itself, which is how the kernel reaches frames and tables. */
  ghost predicate Identity(s: VM) {
    forall d, x: Word :: d in s.base && x < GIGABYTE ==> d < PAGES && Lookup(s.m, d, x) == Some(x)
  }

  lemma StepIdentity(s: VM, op: Op)
    requires Inv(s) && Legal(s, op) && Identity(s)
    requires op.Map? || op.Unmap? ==> op.v >= GIGABYTE
    ensures Identity(Step(s, op))
  {
    StepInv(s, op);
    hide Inv, Lookup, EnsureTable, MapPage, UnmapPage, Clone, Sees;
    var t := Step(s, op);
    forall d, x: Word | d in t.base && x < GIGABYTE ensures Lookup(t.m, d, x) == Some(x) {
      LookupAfter(s, op, d, x);
    }
  }

  lemma LookupAfter(s: VM, op: Op, d: nat, x: Word)
    requires Inv(s) && Legal(s, op) && Identity(s) && x < GIGABYTE && d in Step(s, op).base
    requires op.Map? || op.Unmap? ==> op.v >= GIGABYTE
    requires d < PAGES
    ensures Lookup(Step(s, op).m, d, x) == Some(x)
  {
    hide TablesOk, Separate, Inherited, Lookup, Alloc, Ent, PutEnt, CopyFrame, Sees;
    match op {
      case Map(v, p, flags) =>
        if EnsureTable(s, SlotOf(v), flags).Some? {
          MapPageEffect(s, v, p, flags, d, x);
        } else {
          MapPageFails(s, v, p, flags);
        }
      case Unmap(v) =>
        UnmapPageEffect(s, v, d, x);
      case CloneDir =>
        if Clone(s).1 != 0 {
          CloneEffect(s, d, x);
        }
      case SwitchTo(e) =>
    }
  }

  // ---------- Start-up and page faults ----------

  /** Memory as paging_init leaves it after n rounds: kernel directory in frame k, its tables in frames t, t + 1, ... */
  ghost predicate BootedUpTo(m: Ram, k: nat, t: nat, n: nat) {
    && k < PAGES && t + 256 <= PAGES && n <= 256
    && (forall i :: 0 <= i < 1024 ==> Ent(m, k, i) == if i < n then (t + i) * PAGE + PRESENT + WRITE else 0)
    && (forall i, j :: 0 <= i < n && 0 <= j < 1024 ==> IdentityEntry(m, t, i, j))
  }

  ghost predicate Booted(m: Ram, k: nat, t: nat) {
    BootedUpTo(m, k, t, 256)
  }

  lemma BootStart(m: Ram, k: nat, t: nat)
    requires k < PAGES && t + 256 <= PAGES
    ensures BootedUpTo(ZeroFrame(m, k), k, t, 0)
  {
    ZeroFrameEnts(m, k);
  }

  /** m' is m with the i-th kernel table filled in. */
  ghost predicate Filled(m: Ram, m': Ram, t: nat, i: nat) {
    && i < 256 && t + 256 <= PAGES
    && (forall j :: 0 <= j < 1024 ==> IdentityEntry(m', t, i, j))
    && (forall g, j :: 0 <= g < PAGES && 0 <= j < 1024 && g != t + i ==> Ent(m', g, j) == Ent(m, g, j))
  }

  lemma BootStep(m: Ram, m1: Ram, k: nat, t: nat, i: nat)
    requires BootedUpTo(m, k, t, i) && i < 256 && !(t <= k < t + 256) && Filled(m, m1, t, i)
    ensures BootedUpTo(PutEnt(m1, k, i, (t + i) * PAGE + PRESENT + WRITE), k, t, i + 1)
  {
    hide Ent, PutEnt;
    var m2 := PutEnt(m1, k, i, (t + i) * PAGE + PRESENT + WRITE);
    PutEntFrame(m1, k, i, (t + i) * PAGE + PRESENT + WRITE);
    forall n, j | 0 <= n <= i && 0 <= j < 1024 ensures IdentityEntry(m2, t, n, j) {
      assert Ent(m2, t + n, j) == Ent(m1, t + n, j);
      if n < i {
        assert IdentityEntry(m, t, n, j) && Ent(m1, t + n, j) == Ent(m, t + n, j);
      } else {
        assert IdentityEntry(m1, t, i, j);
      }
    }
  }

  /** Entry j of the i-th kernel table maps its page to itself. */
  ghost predicate IdentityEntry(m: Ram, t: nat, i: nat, j: nat)
    requires t + i < PAGES && i < 256 && j < 1024
  {
    Ent(m, t + i, j) == (i * 1024 + j) * PAGE + PRESENT + WRITE
  }

  lemma BootInv(m: Ram, pool: Pool, k: nat, t: nat)
    requires Booted(m, k, t) && k !in pool.free && !(t <= k < t + 256) && Range(t, 256) !! pool.free
    ensures var s := VM(m, pool, k, k, map[k := AllSlots()]); Inv(s) && Identity(s)
  {
    var s := VM(m, pool, k, k, map[k := AllSlots()]);
    hide Ent;
    forall d, i | Live(s, d, i) ensures i < 256 && Table(s, d, i) == t + i {
    }
    forall x: Word | x < GIGABYTE ensures Lookup(m, k, x) == Some(x) {
      BootLookup(m, k, t, x);
    }
  }

  lemma BootLookup(m: Ram, k: nat, t: nat, x: Word)
    requires Booted(m, k, t) && x < GIGABYTE
    ensures Lookup(m, k, x) == Some(x)
  {
    var i, j := SlotOf(x), IndexOf(x);
    hide Ent, Booted;
    BootEntries(m, k, t, i, j);
    PageNumber(x);
    FlagBits(t + i);
    FlagBits(i * 1024 + j);
  }

  lemma BootEntries(m: Ram, k: nat, t: nat, i: nat, j: nat)
    requires Booted(m, k, t) && i < 256 && j < 1024
    ensures Ent(m, k, i) == (t + i) * PAGE + PRESENT + WRITE
    ensures Ent(m, t + i, j) == (i * 1024 + j) * PAGE + PRESENT + WRITE
  {
    hide Ent;
    assert IdentityEntry(m, t, i, j);
  }

  lemma PageNumber(x: Word)
    ensures SlotOf(x) * 1024 + IndexOf(x) == x / PAGE
    ensures x < GIGABYTE ==> SlotOf(x) < 256
  {
  }

  lemma FlagBits(f: nat)
    requires f < PAGES
    ensures Present(f * PAGE + PRESENT + WRITE) && (f * PAGE + PRESENT + WRITE) / PAGE == f
  {
  }

  /** The decision part of page_fault_handler: protection and reserved-bit faults panic, and so does running out of
      frames; anything else is mapped to a fresh frame. */
  function PageFault(s: VM, err: Word, addr: Word): (VM, bool)
    requires s.cur < PAGES
  {
    if err % 2 == 1 || err / 8 % 2 == 1 then (s, false) else
    var flags := PRESENT + WRITE + UserBit(err);
    var (pool, phys) := Alloc(s.pool);
    if phys == 0 then (s.(pool := pool), false) else (MapPage(s.(pool := pool), addr / PAGE * PAGE, phys, flags), true)
  }

  /** A fault that does not panic really is resolved exactly when the slot had a table or a second frame was free for
      one; otherwise the handler returns with the page still missing, having used up the last frame. */
  lemma PageFaultResolves(s: VM, err: Word, addr: Word)
    requires Inv(s) && PageFault(s, err, addr).1 && Lookup(s.m, s.cur, addr) == None
    requires 0 !in s.pool.free && forall f :: f in s.pool.free ==> f < PAGES
    ensures var t := PageFault(s, err, addr).0;
            && Inv(t)
            && (Lookup(t.m, s.cur, addr).Some? <==> Present(Ent(s.m, s.cur, SlotOf(addr))) || |s.pool.free| >= 2)
            && (Lookup(t.m, s.cur, addr).Some? ==>
                  exists f :: f in s.pool.free && f !in t.pool.free &&
                      Lookup(t.m, s.cur, addr) == Some(f * PAGE + addr % PAGE))
  {
    hide TablesOk, Separate, Inherited, Ent, PutEnt, Present, Lookup, Alloc, EnsureTable;
    AllocFresh(s.pool);
    AllocShrinks(s.pool);
    var (pool, phys) := Alloc(s.pool);
    var f := phys / PAGE;
    var u := s.(pool := pool);
    InvFrame(s, u);
    var v := addr / PAGE * PAGE;
    var flags := PRESENT + WRITE + UserBit(err);
    SamePage(v, addr);
    MapPageInv(u, v, phys, flags);
    MapPageFails(u, v, phys, flags);
    OneLeft(s.pool.free, f);
    if EnsureTable(u, SlotOf(v), flags).Some? {
      MapPageEffect(u, v, phys, flags, s.cur, addr);
      EnsureTableInv(u, SlotOf(v), flags);
    }
  }

  lemma OneLeft(free: set<nat>, f: nat)
    requires f in free
    ensures |free| >= 2 <==> exists g :: g in free - {f}
  {
    assert |free - {f}| == |free| - 1;
    if forall g :: g !in free - {f} {
      assert free - {f} == {};
    }
  }
}
