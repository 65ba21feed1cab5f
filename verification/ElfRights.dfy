/** What a loaded program may do with its pages: the write and user bits elf_exec asks for in src/elf.c, followed
    through the page loop, the copying and the stack. */
module ElfRights {
  import opened Machine
  import opened PmmSpec
  import opened Memory
  import opened PagingSpec
  import opened Permissions
  import opened Mmu
  import opened ElfSpec

  /** The rights in the table entry of v alone. */
  function OwnRights(m: Ram, d: nat, v: Word): Option<Rights>
    requires d < PAGES
  {
    match PteOf(m, d, v)
    case None => None
    case Some(pte) => Some(RightsIn(pte))
  }

  ghost predicate Granted(t: VM, p: nat, r: Rights) {
    t.cur < PAGES && p < PAGES && p * PAGE < MEM && OwnRights(t.m, t.cur, p * PAGE) == Some(r)
  }

  ghost predicate SamePte(s: VM, t: VM, p: nat) {
    && s.cur < PAGES && t.cur < PAGES && p < PAGES && p * PAGE < MEM
    && PteOf(t.m, t.cur, p * PAGE) == PteOf(s.m, s.cur, p * PAGE)
  }

  /** No table entry changes but those of the pages given. */
  ghost predicate OnlyGrants(s: VM, t: VM, pages: set<nat>) {
    forall p: nat :: p < PAGES && p !in pages ==> SamePte(s, t, p)
  }

  /** Slot i keeps its table, or has a new one, open to everything. */
  ghost predicate SlotGrows(s: VM, t: VM, i: nat)
    requires i < 1024
  {
    && s.cur < PAGES && t.cur < PAGES
    && (Present(Ent(s.m, s.cur, i)) ==> Ent(t.m, t.cur, i) == Ent(s.m, s.cur, i))
    && (!Present(Ent(s.m, s.cur, i)) && Present(Ent(t.m, t.cur, i)) ==>
          RightsIn(Ent(t.m, t.cur, i)) == Rights(true, true))
  }

  ghost predicate SlotsGrow(s: VM, t: VM) {
    forall i: nat :: i < 1024 ==> SlotGrows(s, t, i)
  }

  lemma GrowTrans(s: VM, t: VM, u: VM)
    requires SlotsGrow(s, t) && SlotsGrow(t, u)
    ensures SlotsGrow(s, u)
  {
    hide Ent, Present, RightsIn;
    forall i: nat | i < 1024 ensures SlotGrows(s, u, i) {
      assert SlotGrows(s, t, i) && SlotGrows(t, u, i);
    }
  }

  lemma OnlyTrans(s: VM, t: VM, u: VM, a: set<nat>, b: set<nat>)
    requires OnlyGrants(s, t, a) && OnlyGrants(t, u, b)
    ensures OnlyGrants(s, u, a + b)
  {
    hide PteOf;
    forall p: nat | p < PAGES && p !in a + b ensures SamePte(s, u, p) {
      assert SamePte(s, t, p) && SamePte(t, u, p);
    }
  }

  lemma GrantKept(s: VM, t: VM, pages: set<nat>, p: nat, r: Rights)
    requires OnlyGrants(s, t, pages) && Granted(s, p, r) && p !in pages
    ensures Granted(t, p, r)
  {
    hide PteOf, RightsIn;
    assert SamePte(s, t, p);
  }

  // ---------- Mapping ----------

  /** One round of the page loop. */
  lemma PageGrants(s: VM, u: VM, t: VM, page: nat, a: Word, flags: nat)
    requires Inv(s) && Inv(u) && u == s.(pool := u.pool) && page < PAGES && page * PAGE < MEM && flags < PAGE
    requires s.cur < PAGES && Bit(flags, USER)
    requires EnsureTable(u, SlotOf(page * PAGE), flags).Some? && t == MapPage(u, page * PAGE, a, flags)
    ensures SlotsGrow(s, t) && Granted(t, page, RightsIn(flags)) && OnlyGrants(s, t, {page})
  {
    hide Inv, Ent, Present, EnsureTable, MapPage, PteOf, Pte, Pde, Alloc, SlotOf, Sees, RightsIn, Bit;
    CurIn(u);
    MapKept(u, page * PAGE, a, flags);
    forall i: nat | i < 1024 ensures SlotGrows(s, t, i) {
      MapPde(u, page * PAGE, a, flags, u.cur, i);
      PdeGrants(FrameNo(Alloc(u.pool).1), flags);
    }
    SeesSelf(u, SlotOf(page * PAGE));
    forall p: nat | p < PAGES && p !in {page} ensures SamePte(s, t, p) {
      PageStart(p);
      PageStart(page);
      MapPte(u, page * PAGE, a, flags, u.cur, p * PAGE);
    }
    MapPte(u, page * PAGE, a, flags, u.cur, page * PAGE);
    PteGrants(a, flags);
  }

  lemma MapKept(u: VM, v: Word, a: Word, flags: nat)
    requires u.cur < PAGES && flags < PAGE
    ensures MapPage(u, v, a, flags).cur == u.cur
  {
  }

  /** The page loop. */
  lemma {:induction false} LoadPagesGrants(s: VM, near: nat, fr: map<nat, nat>, page: nat, n: nat, flags: nat,
                                           more: set<nat>)
    requires Image(s, fr) && page + n <= PAGES && flags < PAGE && Bit(flags, USER)
    requires Range(page, n) !! fr.Keys && Range(page, n) !! more && Enough(s, near, Range(page, n) + more)
    ensures var t := LoadPages(s, page, n, flags).0;
            && SlotsGrow(s, t) && OnlyGrants(s, t, Range(page, n))
            && forall p :: p in Range(page, n) ==> Granted(t, p, RightsIn(flags))
    decreases n
  {
    hide Alloc, MapPage, Image, Enough, Extends, SameReads, Range, EnsureTable, RightsIn, Bit, SlotsGrow, OnlyGrants,
         Granted;
    ImageCur(s, fr);
    if n == 0 {
      NoPages(page, more);
      NothingChanges(s);
    } else {
      var u := s.(pool := Alloc(s.pool).0);
      var t := MapPage(u, page * PAGE, Alloc(s.pool).1, flags);
      var pages := Range(page, n) + more;
      NextRange(page, n, more);
      ImageParts(s, fr);
      PageStart(page);
      PageSucceeds(s, near, u, t, page, flags, pages);
      PageImage(s, near, t, fr, page, flags, pages);
      AllocShrinks(s.pool);
      PoolInv(s, u);
      PageGrants(s, u, t, page, Alloc(s.pool).1, flags);
      LoadPagesGrants(t, near, fr[page := Alloc(s.pool).1 / PAGE], page + 1, n - 1, flags, more);
      var w := LoadPages(t, page + 1, n - 1, flags).0;
      GrowTrans(s, t, w);
      OnlyTrans(s, t, w, {page}, Range(page + 1, n - 1));
      GrantKept(t, w, Range(page + 1, n - 1), page, RightsIn(flags));
    }
  }

  lemma NothingChanges(s: VM)
    requires s.cur < PAGES
    ensures SlotsGrow(s, s) && OnlyGrants(s, s, {})
  {
    hide Ent, PteOf;
    forall p: nat | p < PAGES ensures SamePte(s, s, p) {
      PageStart(p);
    }
  }

  // ---------- Copying ----------

  /** Same directory entries, same table entries. */
  ghost predicate SameView(s: VM, t: VM) {
    && s.cur < PAGES && t.cur == s.cur
    && (forall i: nat :: i < 1024 ==> Ent(t.m, s.cur, i) == Ent(s.m, s.cur, i))
    && (forall x: Word :: PteOf(t.m, s.cur, x) == PteOf(s.m, s.cur, x))
  }

  lemma ViewGrants(s: VM, t: VM)
    requires SameView(s, t)
    ensures SlotsGrow(s, t) && OnlyGrants(s, t, {})
  {
    hide Ent, PteOf, Present, RightsIn;
    forall p: nat | p < PAGES ensures SamePte(s, t, p) {
      PageStart(p);
    }
  }

  /** A byte of a data page is in no table. */
  lemma WriteView(s: VM, fr: map<nat, nat>, v: Word, b: Byte)
    requires Image(s, fr) && v / PAGE in fr && s.cur < PAGES
    ensures SameView(s, VmWrite(s, v, b))
  {
    hide Ent, Lookup, Present, TablesOk, Separate, Inherited;
    var t, f := VmWrite(s, v, b), fr[v / PAGE];
    var a := f * PAGE + v % PAGE;
    FrameOffset(f, v % PAGE);
    assert Lookup(s.m, s.cur, v) == Some(a);
    ByteEnts(s.m, a, b);
    forall x: Word ensures PteOf(t.m, s.cur, x) == PteOf(s.m, s.cur, x) {
      if Present(Ent(s.m, s.cur, SlotOf(x))) {
        assert Live(s, s.cur, SlotOf(x)) && Table(s, s.cur, SlotOf(x)) != f;
      }
    }
  }

  lemma {:induction false} WriteBytesView(s: VM, fr: map<nat, nat>, v: nat, bytes: seq<Byte>)
    requires Image(s, fr) && s.cur < PAGES && v + |bytes| <= MEM
    requires forall y: nat :: v <= y < v + |bytes| ==> y / PAGE in fr
    ensures SameView(s, WriteBytes(s, v, bytes))
    decreases |bytes|
  {
    hide Image, VmRead, VmWrite, PresentSlots, Ent, PteOf;
    if bytes != [] {
      var u := VmWrite(s, v, bytes[0]);
      WriteView(s, fr, v, bytes[0]);
      WriteImage(s, u, fr, v, bytes[0]);
      WriteBytesView(u, fr, v + 1, bytes[1..]);
    }
  }

  lemma FillView(t: VM, f: File, h: Header, gr: map<nat, nat>)
    requires Image(t, gr) && t.cur < PAGES && f.vol.Ok() && NoWrap(h) && |FileBytes(f, h)| == h.filesz
    requires PagesOf(h) <= gr.Keys
    ensures var u := WriteBytes(t, h.vaddr, FileBytes(f, h));
            SameView(t, WriteBytes(u, h.vaddr + h.filesz, Zeros(h.memsz - h.filesz)))
  {
    hide WriteBytes, Image, VmRead, FileBytes, PresentSlots, PagesOf, Zeros, Ent, PteOf;
    ZerosLength(h.memsz - h.filesz);
    SegmentMapped(h, gr);
    var bytes, zeros := FileBytes(f, h), Zeros(h.memsz - h.filesz);
    WriteBytesImage(t, gr, h.vaddr, bytes);
    WriteBytesView(t, gr, h.vaddr, bytes);
    WriteBytesView(WriteBytes(t, h.vaddr, bytes), gr, h.vaddr + h.filesz, zeros);
  }

  // ---------- The whole program ----------

  /** What the program header asks for: user mode always, writing with PF_W, which is 2 in the ELF specification. */
  function Asked(h: Header): Rights { Rights(h.flags / 2 % 2 == 1, true) }

  lemma FlagsAsked(h: Header)
    ensures PageFlags(h) < PAGE && Bit(PageFlags(h), USER) && RightsIn(PageFlags(h)) == Asked(h)
  {
  }

  lemma LoadSegmentGrants(s: VM, near: nat, f: File, h: Header, fr: map<nat, nat>, more: set<nat>)
    requires Image(s, fr) && s.cur < PAGES && f.vol.Ok() && NoWrap(h) && |FileBytes(f, h)| == h.filesz
    requires PagesOf(h) !! fr.Keys && PagesOf(h) !! more && Enough(s, near, PagesOf(h) + more)
    ensures var t := LoadSegment(s, f, h).0;
            && SlotsGrow(s, t) && OnlyGrants(s, t, PagesOf(h))
            && forall p :: p in PagesOf(h) ==> Granted(t, p, Asked(h))
  {
    hide LoadPages, WriteBytes, Image, VmRead, FileBytes, Need, FirstPage, PageCount, PresentSlots, Loaded, PageFlags,
         Asked,
         RightsIn, Bit, SlotsGrow, OnlyGrants, Granted, SameView, Enough, Extends, SameReads, Range;
    FlagsAsked(h);
    var gr := LoadPagesImage(s, near, fr, FirstPage(h), PageCount(h), PageFlags(h), more);
    LoadPagesGrants(s, near, fr, FirstPage(h), PageCount(h), PageFlags(h), more);
    var t, w := LoadPages(s, FirstPage(h), PageCount(h), PageFlags(h)).0, LoadSegment(s, f, h).0;
    FillView(t, f, h, gr);
    ViewGrants(t, w);
    GrowTrans(s, t, w);
    OnlyTrans(s, t, w, PagesOf(h), {});
    assert PagesOf(h) + {} == PagesOf(h);
    forall p | p in PagesOf(h) ensures Granted(w, p, Asked(h)) {
      GrantKept(t, w, {}, p, Asked(h));
    }
  }

  ghost predicate AllGranted(t: VM, hs: seq<Header>)
    requires forall h :: h in hs && h.kind == PT_LOAD ==> NoWrap(h)
  {
    forall h, p :: h in hs && h.kind == PT_LOAD && p in PagesOf(h) ==> Granted(t, p, Asked(h))
  }

  lemma {:induction false} LoadAllGrants(s: VM, near: nat, f: File, hs: seq<Header>, fr: map<nat, nat>, more: set<nat>)
    requires Image(s, fr) && s.cur < PAGES && Loadable(f, hs) && PageDisjoint(hs)
    requires AllPages(hs) !! fr.Keys && AllPages(hs) !! more && Enough(s, near, AllPages(hs) + more)
    ensures var t := LoadAll(s, f, hs).0; SlotsGrow(s, t) && OnlyGrants(s, t, AllPages(hs)) && AllGranted(t, hs)
    decreases |hs|
  {
    hide LoadSegment, Image, FileBytes, NoWrap, PagesOf, Loaded, Enough, Extends, SameReads, Granted, SlotsGrow,
         OnlyGrants, Asked;
    if hs == [] {
      NothingChanges(s);
    } else {
      var h, rest := hs[0], hs[1..];
      assert hs == [h] + rest;
      if h.kind != PT_LOAD {
        assert AllPages(hs) == AllPages(rest);
        LoadAllGrants(s, near, f, rest, fr, more);
      } else {
        var later := AllPages(rest) + more;
        assert PagesOf(h) + later == AllPages(hs) + more;
        var hr := LoadSegmentImage(s, near, f, h, fr, later);
        LoadSegmentGrants(s, near, f, h, fr, later);
        var t := LoadSegment(s, f, h).0;
        LoadAllGrants(t, near, f, rest, hr, more);
        var w := LoadAll(t, f, rest).0;
        GrowTrans(s, t, w);
        OnlyTrans(s, t, w, PagesOf(h), AllPages(rest));
        forall p | p in PagesOf(h) ensures Granted(w, p, Asked(h)) {
          GrantKept(t, w, AllPages(rest), p, Asked(h));
        }
      }
    }
  }

  const STACK_FLAGS: nat := PRESENT + WRITE + USER

  lemma StackAsked()
    ensures Bit(STACK_FLAGS, USER) && RightsIn(STACK_FLAGS) == Rights(true, true)
  {
  }

  lemma MapStackGrants(s: VM, near: nat, fr: map<nat, nat>)
    requires Image(s, fr) && s.cur < PAGES && StackPages() !! fr.Keys && Enough(s, near, StackPages())
    ensures var t := MapStack(s).0;
            && SlotsGrow(s, t) && OnlyGrants(s, t, StackPages())
            && forall p :: p in StackPages() ==> Granted(t, p, Rights(true, true))
  {
    hide Image, Enough, Extends, SameReads, LoadPages, Granted, SlotsGrow, OnlyGrants, RightsIn, Bit;
    StackAsked();
    assert Range(STACK_PAGE, 1) == {STACK_PAGE} && Range(STACK_PAGE - 1, 1) == {STACK_PAGE - 1};
    assert StackPages() == Range(STACK_PAGE, 1) + {STACK_PAGE - 1};
    assert Range(STACK_PAGE - 1, 1) + {} == {STACK_PAGE - 1};
    var hr := LoadPagesImage(s, near, fr, STACK_PAGE, 1, STACK_FLAGS, {STACK_PAGE - 1});
    LoadPagesGrants(s, near, fr, STACK_PAGE, 1, STACK_FLAGS, {STACK_PAGE - 1});
    var t := LoadPages(s, STACK_PAGE, 1, STACK_FLAGS).0;
    var gr := LoadPagesImage(t, near, hr, STACK_PAGE - 1, 1, STACK_FLAGS, {});
    LoadPagesGrants(t, near, hr, STACK_PAGE - 1, 1, STACK_FLAGS, {});
    var w := LoadPages(t, STACK_PAGE - 1, 1, STACK_FLAGS).0;
    GrowTrans(s, t, w);
    OnlyTrans(s, t, w, Range(STACK_PAGE, 1), Range(STACK_PAGE - 1, 1));
    GrantKept(t, w, Range(STACK_PAGE - 1, 1), STACK_PAGE, Rights(true, true));
  }

  lemma ExecGrants(s: VM, near: nat, f: File, hs: seq<Header>)
    requires Image(s, map[]) && s.cur < PAGES && Loadable(f, hs) && PageDisjoint(hs)
    requires AllPages(hs) !! StackPages() && Enough(s, near, AllPages(hs) + StackPages())
    ensures var t := Exec(s, f, hs).0;
            SlotsGrow(s, t) && AllGranted(t, hs) && forall p :: p in StackPages() ==> Granted(t, p, Rights(true, true))
  {
    hide LoadAll, MapStack, Image, Enough, AllLoaded, AllPages, PageDisjoint, SameReads, Extends, StackPages, Granted,
         SlotsGrow, OnlyGrants, Asked, PagesOf, NoWrap, FileBytes;
    var hr := LoadAllImage(s, near, f, hs, map[], StackPages());
    LoadAllGrants(s, near, f, hs, map[], StackPages());
    var t := LoadAll(s, f, hs).0;
    MapStackGrants(t, near, hr);
    var w := MapStack(t).0;
    GrowTrans(s, t, w);
    forall h, p | h in hs && h.kind == PT_LOAD && p in PagesOf(h) ensures Granted(w, p, Asked(h)) {
      SegmentPages(hs, h);
      GrantKept(t, w, StackPages(), p, Asked(h));
    }
  }

  /** What the directory entry of slot i will allow: what it does, or everything if the loader brings the table. */
  function SlotAllows(s: VM, i: nat): Rights
    requires s.cur < PAGES && i < 1024
  {
    if Present(Ent(s.m, s.cur, i)) then RightsIn(Ent(s.m, s.cur, i)) else Rights(true, true)
  }

  /** Page p may be used as r says, as far as its slot allows. */
  ghost predicate PageAllows(s: VM, t: VM, p: nat, r: Rights) {
    && s.cur < PAGES && t.cur < PAGES && p < PAGES && p * PAGE < MEM
    && RightsAt(t.m, t.cur, p * PAGE) == Some(Both(SlotAllows(s, p / 1024), r))
  }

  lemma GrantedAllows(s: VM, t: VM, p: nat, r: Rights)
    requires SlotsGrow(s, t) && Granted(t, p, r)
    ensures PageAllows(s, t, p, r)
  {
    hide Ent, Present, RightsIn;
    PageAddress(p, 0);
    assert SlotGrows(s, t, p / 1024);
  }

  /** Every page of a segment is open to user mode, and writable exactly if its header has PF_W; both stack pages are
      both; each as far as its slot allows, which is wholly where the loader brings the table. */
  ghost predicate ProgramRights(s: VM, t: VM, hs: seq<Header>)
    requires forall h :: h in hs && h.kind == PT_LOAD ==> NoWrap(h)
  {
    && (forall h, p :: h in hs && h.kind == PT_LOAD && p in PagesOf(h) ==> PageAllows(s, t, p, Asked(h)))
    && PageAllows(s, t, 0xBFFFF, Rights(true, true)) && PageAllows(s, t, 0xBFFFE, Rights(true, true))
  }

  lemma ExecRights(s: VM, near: nat, f: File, hs: seq<Header>)
    requires Image(s, map[]) && s.cur < PAGES && Loadable(f, hs) && PageDisjoint(hs)
    requires AllPages(hs) !! StackPages() && Enough(s, near, AllPages(hs) + StackPages())
    ensures ProgramRights(s, Exec(s, f, hs).0, hs)
  {
    hide Exec, Image, Enough, AllPages, PageDisjoint, Granted, SlotsGrow, PagesOf, NoWrap, FileBytes, PageAllows, Asked;
    ExecGrants(s, near, f, hs);
    var t := Exec(s, f, hs).0;
    forall h, p | h in hs && h.kind == PT_LOAD && p in PagesOf(h) ensures PageAllows(s, t, p, Asked(h)) {
      GrantedAllows(s, t, p, Asked(h));
    }
    GrantedAllows(s, t, STACK_PAGE, Rights(true, true));
    GrantedAllows(s, t, STACK_PAGE - 1, Rights(true, true));
  }
}
