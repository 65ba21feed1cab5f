/** What the page tables let a program do. The hardware checks the write and user bits of both the directory entry and
    the table entry (Intel manual, volume 3, section 4.6): a page may be written, or used in user mode, exactly when the
    bit is set in both. */
module Permissions {
  import opened Machine
  import opened PmmSpec
  import opened Memory
  import opened PagingSpec

  datatype Rights = Rights(write: bool, user: bool)

  predicate Bit(e: nat, mask: nat)
    requires mask > 0
  {
    e / mask % 2 == 1
  }

  /** Bit 1 of an entry allows writing, bit 2 user mode. */
  function RightsIn(e: nat): Rights { Rights(Bit(e, 2), Bit(e, 4)) }

  function Both(a: Rights, b: Rights): Rights { Rights(a.write && b.write, a.user && b.user) }

  /** The table entry for v, if both levels are present. */
  function PteOf(m: Ram, d: nat, v: Word): Option<Word>
    requires d < PAGES
  {
    var pde := Ent(m, d, SlotOf(v));
    if !Present(pde) then None else
    var pte := Ent(m, FrameNo(pde), IndexOf(v));
    if !Present(pte) then None else Some(pte)
  }

  /** What may be done at v under directory d; None if it is not mapped. */
  function RightsAt(m: Ram, d: nat, v: Word): Option<Rights>
    requires d < PAGES
  {
    match PteOf(m, d, v)
    case None => None
    case Some(pte) => Some(Both(RightsIn(Ent(m, d, SlotOf(v))), RightsIn(pte)))
  }

  /** Rights and translation are two readings of one entry. */
  lemma MappedHasRights(m: Ram, d: nat, v: Word)
    requires d < PAGES
    ensures RightsAt(m, d, v).Some? <==> Lookup(m, d, v).Some?
  {
    hide Ent, Present, SlotOf, IndexOf;
  }

  // ---------- The entries the code writes ----------

  lemma Halved(q: nat, r: nat)
    ensures (2 * q + r) / 2 == q + r / 2 && (2 * q + r) % 2 == r % 2
  {
  }

  lemma HighPart(q: nat, r: nat)
    requires r < PAGE
    ensures RightsIn(q * PAGE + r) == RightsIn(r)
  {
    Halved(q * 2048, r);
    Halved(q * 1024, r / 2);
    Halved(q * 512, r / 4);
    Quarter(q * PAGE + r);
    Quarter(r);
  }

  lemma Quarter(x: nat)
    ensures x / 4 == x / 2 / 2
  {
  }

  lemma PresentBit(flags: nat)
    requires flags < PAGE
    ensures WithPresent(flags) < PAGE && RightsIn(WithPresent(flags)) == RightsIn(flags)
  {
  }

  /** A table entry grants what was asked for. */
  lemma PteGrants(p: Word, flags: nat)
    requires flags < PAGE
    ensures RightsIn(Pte(p, flags)) == RightsIn(flags)
  {
    PresentBit(flags);
    HighPart(p / PAGE, WithPresent(flags));
  }

  /** A new directory entry is writable, and for user mode if the mapping is. */
  lemma PdeGrants(table: nat, flags: nat)
    requires table < PAGES
    ensures RightsIn(Pde(table, flags)) == Rights(true, Bit(flags, USER))
  {
    HighPart(table, PRESENT + WRITE + UserBit(flags));
  }

  // ---------- What each operation changes, in every address space ----------

  lemma EnsureTablePte(s: VM, slot: nat, flags: nat, d: nat, x: Word)
    requires Inv(s) && slot < 1024 && EnsureTable(s, slot, flags).Some? && d in s.base
    ensures d < PAGES && PteOf(EnsureTable(s, slot, flags).value.m, d, x) == PteOf(s.m, d, x)
  {
    hide Ent, PutEnt, ZeroFrame, Alloc, Pde, Present, Separate, Inherited;
    if !Present(Ent(s.m, s.cur, slot)) {
      AllocFresh(s.pool);
      var a := Alloc(s.pool).1 / PAGE;
      PdeParts(a, flags);
      NotPresentZero();
      var t := EnsureTable(s, slot, flags).value;
      EntsAfterTable(s, t, a, slot, flags);
      if d != s.cur || SlotOf(x) != slot {
        assert Live(s, d, SlotOf(x)) ==> Table(s, d, SlotOf(x)) != a && Table(s, d, SlotOf(x)) != s.cur;
      }
    }
  }

  lemma PutPte(s: VM, v: Word, w: Word, d: nat, x: Word)
    requires Inv(s) && Live(s, s.cur, SlotOf(v)) && d in s.base
    ensures d < PAGES
    ensures PteOf(PutEnt(s.m, Table(s, s.cur, SlotOf(v)), IndexOf(v), w), d, x) ==
            if x / PAGE == v / PAGE && Sees(s, d, SlotOf(v)) then (if Present(w) then Some(w) else None)
            else PteOf(s.m, d, x)
  {
    hide Ent, PutEnt, Present, Separate, Inherited, SlotOf, IndexOf, Sees;
    var slot, i := SlotOf(v), SlotOf(x);
    var t := Table(s, s.cur, slot);
    PutEntFrame(s.m, t, IndexOf(v), w);
    SamePage(x, v);
    if Live(s, d, i) {
      SameTable(s, slot, d, i);
    } else if Sees(s, d, slot) {
      SeersHaveSlot(s, slot, d);
    }
  }

  lemma MapPte(s: VM, v: Word, p: Word, flags: nat, d: nat, x: Word)
    requires Inv(s) && flags < PAGE && d in s.base && EnsureTable(s, SlotOf(v), flags).Some?
    ensures s.cur < PAGES && d < PAGES
    ensures PteOf(MapPage(s, v, p, flags).m, d, x) ==
            if x / PAGE == v / PAGE && Sees(s, d, SlotOf(v)) then Some(Pte(p, flags)) else PteOf(s.m, d, x)
  {
    hide PteOf, Pte, Present, EnsureTable, TablesOk, Separate, Inherited, Ent, PutEnt;
    var slot := SlotOf(v);
    EnsureTableInv(s, slot, flags);
    EnsureTablePte(s, slot, flags, d, x);
    PteParts(p, flags);
    PutPte(EnsureTable(s, slot, flags).value, v, Pte(p, flags), d, x);
  }

  /** Directory entries after a mapping: a new one only where a table was needed. */
  lemma MapPde(s: VM, v: Word, p: Word, flags: nat, d: nat, i: nat)
    requires Inv(s) && flags < PAGE && d in s.base && EnsureTable(s, SlotOf(v), flags).Some? && i < 1024
    ensures s.cur < PAGES && d < PAGES
    ensures Ent(MapPage(s, v, p, flags).m, d, i) ==
            if NeedsTable(s, v) && d == s.cur && i == SlotOf(v) then Pde(FrameNo(Alloc(s.pool).1), flags)
            else Ent(s.m, d, i)
  {
    hide Ent, PutEnt, ZeroFrame, Alloc, Pde, Pte, Present, Separate, Inherited, SlotOf, IndexOf;
    var slot := SlotOf(v);
    EnsureTableInv(s, slot, flags);
    var t := EnsureTable(s, slot, flags).value;
    PutEntFrame(t.m, Table(t, t.cur, slot), IndexOf(v), Pte(p, flags));
    if !Present(Ent(s.m, s.cur, slot)) {
      AllocFresh(s.pool);
      EntsAfterTable(s, t, Alloc(s.pool).1 / PAGE, slot, flags);
    }
  }

  /** What the directory entry of v allows once v is mapped: what it did before, or for a new table everything, user
      mode only if flags asks for it. */
  function SlotRights(s: VM, d: nat, v: Word, flags: nat): Rights
    requires s.cur < PAGES && d < PAGES
  {
    if NeedsTable(s, v) then Rights(true, Bit(flags, USER)) else RightsIn(Ent(s.m, d, SlotOf(v)))
  }

  /** In every sharer the mapped page may be used as flags and its directory entry say; nothing else changes
      anywhere. */
  lemma MapRights(s: VM, v: Word, p: Word, flags: nat, d: nat, x: Word)
    requires Inv(s) && flags < PAGE && d in s.base && EnsureTable(s, SlotOf(v), flags).Some?
    ensures s.cur < PAGES && d < PAGES
    ensures RightsAt(MapPage(s, v, p, flags).m, d, x) ==
            if x / PAGE == v / PAGE && Sees(s, d, SlotOf(v))
            then Some(Both(SlotRights(s, d, v, flags), RightsIn(flags)))
            else RightsAt(s.m, d, x)
  {
    hide PteOf, Pte, Pde, MapPage, EnsureTable, Inv, Ent, Sees, RightsIn, SlotOf, Alloc, Present;
    MapPte(s, v, p, flags, d, x);
    MapPde(s, v, p, flags, d, SlotOf(x));
    PteGrants(p, flags);
    PdeGrants(FrameNo(Alloc(s.pool).1), flags);
    if x / PAGE == v / PAGE {
      SameSlot(x, v);
      if NeedsTable(s, v) && Sees(s, d, SlotOf(v)) && d != s.cur {
        MapPagePrivate(s, v, d);
      }
    }
    if NeedsTable(s, v) && d == s.cur && SlotOf(x) == SlotOf(v) {
      NoTableNoPte(s.m, d, x);
      SeesSelf(s, SlotOf(v));
    }
  }

  lemma SameSlot(x: Word, v: Word)
    requires x / PAGE == v / PAGE
    ensures SlotOf(x) == SlotOf(v)
  {
    hide SlotOf, IndexOf;
    SamePage(x, v);
  }

  lemma NoTableNoPte(m: Ram, d: nat, x: Word)
    requires d < PAGES && !Present(Ent(m, d, SlotOf(x)))
    ensures PteOf(m, d, x) == None
  {
  }

  lemma UnmapRights(s: VM, v: Word, d: nat, x: Word)
    requires Inv(s) && d in s.base
    ensures s.cur < PAGES && d < PAGES
    ensures RightsAt(UnmapPage(s, v).m, d, x) ==
            if x / PAGE == v / PAGE && Sees(s, d, SlotOf(v)) then None else RightsAt(s.m, d, x)
  {
    hide Ent, PutEnt, Present, TablesOk, Separate, Inherited, SlotOf, IndexOf, Sees, RightsIn;
    SamePage(x, v);
    if Live(s, s.cur, SlotOf(v)) {
      NotPresentZero();
      PutPte(s, v, 0, d, x);
      TableKeepsDirs(s, SlotOf(v), IndexOf(v), d, SlotOf(x));
    } else if Sees(s, d, SlotOf(v)) {
      SeersHaveSlot(s, SlotOf(v), d);
    }
  }

  lemma TableKeepsDirs(s: VM, slot: nat, j: nat, d: nat, i: nat)
    requires Inv(s) && Live(s, s.cur, slot) && j < 1024 && d in s.base && i < 1024
    ensures d < PAGES && Ent(PutEnt(s.m, Table(s, s.cur, slot), j, 0), d, i) == Ent(s.m, d, i)
  {
    hide Ent, PutEnt, Present, Separate, Inherited;
    PutEntFrame(s.m, Table(s, s.cur, slot), j, 0);
  }

  lemma CloneRights(s: VM, d: nat, x: Word)
    requires Inv(s) && Clone(s).1 != 0 && d in Clone(s).0.base
    ensures var a := Clone(s).1 / PAGE;
            a !in s.base && d < PAGES && s.kpd < PAGES && (d != a ==> d in s.base)
            && RightsAt(Clone(s).0.m, d, x) == RightsAt(s.m, if d == a then s.kpd else d, x)
  {
    hide Ent, CopyFrame, Alloc, Present, Separate, Inherited, RightsIn;
    AllocFresh(s.pool);
    var a := Alloc(s.pool).1 / PAGE;
    CopyFrameEnts(s.m, s.kpd, a);
    var e := if d == a then s.kpd else d;
    assert Live(s, e, SlotOf(x)) ==> Table(s, e, SlotOf(x)) != a;
  }

  // ---------- Runs ----------

  /** In every address space the first gigabyte is the kernel's: writable, and out of bounds in user mode. */
  ghost predicate KernelOnly(s: VM) {
    forall d, x: Word :: d in s.base && x < GIGABYTE ==> d < PAGES && RightsAt(s.m, d, x) == Some(Rights(true, false))
  }

  lemma StepKernelOnly(s: VM, op: PagingSpec.Op)
    requires Inv(s) && Legal(s, op) && KernelOnly(s)
    requires op.Map? || op.Unmap? ==> op.v >= GIGABYTE
    ensures KernelOnly(PagingSpec.Step(s, op))
  {
    hide RightsAt, EnsureTable, MapPage, UnmapPage, Clone, Sees, TablesOk, Separate, Inherited;
    StepInv(s, op);
    var t := PagingSpec.Step(s, op);
    forall d, x: Word | d in t.base && x < GIGABYTE
      ensures d < PAGES && RightsAt(t.m, d, x) == Some(Rights(true, false))
    {
      RightsAfter(s, op, d, x);
    }
  }

  lemma RightsAfter(s: VM, op: PagingSpec.Op, d: nat, x: Word)
    requires Inv(s) && Legal(s, op) && KernelOnly(s) && x < GIGABYTE && d in PagingSpec.Step(s, op).base && d < PAGES
    requires op.Map? || op.Unmap? ==> op.v >= GIGABYTE
    ensures RightsAt(PagingSpec.Step(s, op).m, d, x) == Some(Rights(true, false))
  {
    hide TablesOk, Separate, Inherited, RightsAt, Alloc, Ent, PutEnt, CopyFrame, Sees, SlotRights;
    match op {
      case Map(v, p, flags) =>
        if EnsureTable(s, SlotOf(v), flags).Some? {
          MapRights(s, v, p, flags, d, x);
        } else {
          MapPageFails(s, v, p, flags);
        }
      case Unmap(v) =>
        UnmapRights(s, v, d, x);
      case CloneDir =>
        if Clone(s).1 != 0 {
          CloneRights(s, d, x);
        }
      case SwitchTo(e) =>
    }
  }

  /** paging_init sets it up so. */
  lemma BootKernelOnly(s: VM, k: nat, t: nat)
    requires Booted(s.m, k, t) && s.base.Keys == {k}
    ensures KernelOnly(s)
  {
    forall d, x: Word | d in s.base && x < GIGABYTE
      ensures d < PAGES && RightsAt(s.m, d, x) == Some(Rights(true, false))
    {
      assert d in s.base.Keys;
      BootRights(s.m, k, t, x);
    }
  }

  lemma BootRights(m: Ram, k: nat, t: nat, x: Word)
    requires Booted(m, k, t) && x < GIGABYTE
    ensures k < PAGES && RightsAt(m, k, x) == Some(Rights(true, false))
  {
    hide Ent, RightsIn;
    var i, j := SlotOf(x), IndexOf(x);
    PageNumber(x);
    BootEntries(m, k, t, i, j);
    FlagBits(t + i);
    FlagBits(i * 1024 + j);
    HighPart(t + i, PRESENT + WRITE);
    HighPart(i * 1024 + j, PRESENT + WRITE);
    KernelFlags();
  }

  /** The flags of the page fault handler: writable, and for user mode if the fault was one. */
  lemma FaultFlags(err: Word)
    ensures RightsIn(PRESENT + WRITE + UserBit(err)) == Rights(true, Bit(err, USER))
  {
  }

  lemma KernelFlags()
    ensures RightsIn(PRESENT + WRITE) == Rights(true, false)
  {
  }
}
