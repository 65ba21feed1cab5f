/** Loading an executable, src/elf.c: what ends up in memory, seen through the page tables. */
module ElfSpec {
  import opened Machine
  import opened PmmSpec
  import opened Memory
  import opened PagingSpec
  import opened Fat32Spec

  const PT_LOAD: nat := 1
  const PF_W: nat := 2

  /** A program header. */
  datatype Header = Header(kind: Word, offset: Word, vaddr: Word, filesz: Word, memsz: Word, flags: Word)

  /** The file: where its clusters start, on which volume. */
  datatype File = File(disk: Disk, vol: Volume, inode: Word)

  // ---------- Memory through the page tables ----------

  function VmRead(s: VM, v: Word): Option<Byte>
    requires s.cur < PAGES
  {
    match Lookup(s.m, s.cur, v)
    case None => None
    case Some(p) => Some(s.m[p])
  }

  function VmWrite(s: VM, v: Word, b: Byte): (t: VM)
    requires s.cur < PAGES
    ensures t == s.(m := t.m)
  {
    match Lookup(s.m, s.cur, v)
    case None => s
    case Some(p) => s.(m := s.m[p := b])
  }

  function WriteBytes(s: VM, v: nat, bytes: seq<Byte>): (t: VM)
    requires s.cur < PAGES && v + |bytes| <= MEM
    ensures t == s.(m := t.m)
    decreases |bytes|
  {
    if bytes == [] then s else WriteBytes(VmWrite(s, v, bytes[0]), v + 1, bytes[1..])
  }

  // ---------- The loader ----------

  /** Maps n pages from page number `page` on, each to a frame of its own. */
  function LoadPages(s: VM, page: nat, n: nat, flags: nat): (r: (VM, bool))
    requires s.cur < PAGES && page + n <= PAGES && flags < PAGE
    ensures r.0.cur == s.cur && r.0.kpd == s.kpd && r.0.base == s.base
    decreases n
  {
    if n == 0 then (s, true) else
    var (pool, frame) := Alloc(s.pool);
    if frame == 0 then (s.(pool := pool), false)
    else LoadPages(MapPage(s.(pool := pool), page * PAGE, frame, flags), page + 1, n - 1, flags)
  }

  predicate NoWrap(h: Header) {
    h.vaddr + h.memsz + PAGE - 1 < MEM && h.filesz <= h.memsz
  }

  function FirstPage(h: Header): nat { h.vaddr / PAGE }

  function PageCount(h: Header): (n: nat)
    requires NoWrap(h)
    ensures FirstPage(h) + n <= PAGES
  {
    (h.vaddr + h.memsz + PAGE - 1) / PAGE - h.vaddr / PAGE
  }

  function PageFlags(h: Header): nat {
    PRESENT + USER + if h.flags / PF_W % 2 == 1 then WRITE else 0
  }

  function FileBytes(f: File, h: Header): seq<Byte>
    requires f.vol.Ok()
  {
    Read(f.disk, f.vol, f.inode, h.offset, h.filesz)
  }

  function Zeros(n: nat): seq<Byte> { seq(n, _ => 0) }

  /** One round of the segment loop: pages, then the file's bytes, then the rest zeroed. */
  function LoadSegment(s: VM, f: File, h: Header): (r: (VM, bool))
    requires s.cur < PAGES && f.vol.Ok() && NoWrap(h)
    ensures r.0.cur == s.cur && r.0.kpd == s.kpd && r.0.base == s.base
  {
    var (t, ok) := LoadPages(s, FirstPage(h), PageCount(h), PageFlags(h));
    if !ok then (t, false) else
    var u := WriteBytes(t, h.vaddr, FileBytes(f, h));
    (WriteBytes(u, h.vaddr + h.filesz, Zeros(h.memsz - h.filesz)), true)
  }

  function LoadAll(s: VM, f: File, hs: seq<Header>): (r: (VM, bool))
    requires s.cur < PAGES && f.vol.Ok() && forall h :: h in hs && h.kind == PT_LOAD ==> NoWrap(h)
    ensures r.0.cur == s.cur
    decreases |hs|
  {
    if hs == [] then (s, true)
    else if hs[0].kind != PT_LOAD then LoadAll(s, f, hs[1..])
    else
      var (t, ok) := LoadSegment(s, f, hs[0]);
      if ok then LoadAll(t, f, hs[1..]) else (t, false)
  }

  // ---------- Pages on frames of their own ----------

  /** Page 0 stays reserved and every free frame exists. */
  ghost predicate FreeOk(s: VM) {
    0 !in s.pool.free && forall f :: f in s.pool.free ==> f < PAGES
  }

  /** The data frames fr hands out are allocated, all different, and none is a directory or a table. */
  ghost predicate DataFrames(s: VM, fr: map<nat, nat>) {
    && (forall p :: p in fr ==> p < PAGES && fr[p] < PAGES && fr[p] !in s.pool.free && fr[p] !in s.base)
    && (forall p, q :: p in fr && q in fr && p != q ==> fr[p] != fr[q])
    && (forall d, i, p :: Live(s, d, i) && p in fr ==> Table(s, d, i) != fr[p])
  }

  /** The current directory maps each page p of fr to frame fr[p]. */
  ghost predicate Mapped(s: VM, fr: map<nat, nat>)
    requires s.cur < PAGES
  {
    forall x: Word :: x / PAGE in fr ==> Lookup(s.m, s.cur, x) == Some(fr[x / PAGE] * PAGE + x % PAGE)
  }

  ghost predicate Image(s: VM, fr: map<nat, nat>) {
    Inv(s) && FreeOk(s) && DataFrames(s, fr) && Mapped(s, fr)
  }

  /** Bytes in the data frames are the same in both. */
  ghost predicate SameData(s: VM, t: VM, fr: map<nat, nat>) {
    forall p, x :: p in fr && 0 <= x < MEM && x / PAGE == fr[p] ==> t.m[x] == s.m[x]
  }

  lemma PageAddress(page: nat, x: Word)
    requires page < PAGES
    ensures page * PAGE < MEM && SlotOf(page * PAGE) == page / 1024
    ensures x / PAGE == page * PAGE / PAGE <==> x / PAGE == page
  {
  }

  /** Mapping touches only tables and the current directory, never an allocated frame that is neither. */
  lemma MapPageBytes(s: VM, v: Word, p: Word, flags: nat, x: nat)
    requires Inv(s) && flags < PAGE && EnsureTable(s, SlotOf(v), flags).Some? && x < MEM
    requires x / PAGE !in s.pool.free && x / PAGE !in s.base
    requires forall d, i :: Live(s, d, i) ==> Table(s, d, i) != x / PAGE
    ensures MapPage(s, v, p, flags).m[x] == s.m[x]
  {
    hide Ent, PutEnt, Pde, Pte, Present, Alloc, Separate, Inherited;
    var slot := SlotOf(v);
    var t := EnsureTable(s, slot, flags).value;
    if Present(Ent(s.m, s.cur, slot)) {
      assert Live(s, s.cur, slot);
      PutEntFrame(s.m, Table(s, s.cur, slot), IndexOf(v), Pte(p, flags));
    } else {
      AllocFresh(s.pool);
      var a := Alloc(s.pool).1 / PAGE;
      PdeParts(a, flags);
      EntsAfterTable(s, t, a, slot, flags);
      PutEntFrame(ZeroFrame(s.m, a), s.cur, slot, Pde(a, flags));
      PutEntFrame(t.m, a, IndexOf(v), Pte(p, flags));
    }
  }

  /** Giving one more page a fresh frame. */
  lemma MapImage(s: VM, u: VM, t: VM, fr: map<nat, nat>, page: nat, flags: nat)
    requires Image(s, fr) && page < PAGES && page !in fr && flags < PAGE && Alloc(s.pool).1 != 0
    requires u == s.(pool := Alloc(s.pool).0)
    requires EnsureTable(u, SlotOf(page * PAGE), flags).Some?
    requires t == MapPage(u, page * PAGE, Alloc(s.pool).1, flags)
    ensures var f := Alloc(s.pool).1 / PAGE;
            f in s.pool.free && t.pool.free <= s.pool.free - {f} && Image(t, fr[page := f]) && SameData(s, t, fr)
  {
    hide Ent, PutEnt, Lookup, Alloc, EnsureTable, MapPage, TablesOk, Separate, Inherited, Sees, SlotOf, IndexOf;
    var addr := Alloc(s.pool).1;
    AllocFresh(s.pool);
    var f := addr / PAGE;
    InvFrame(s, u);
    var v: Word := page * PAGE;
    MapPageInv(u, v, addr, flags);
    MapPageFree(u, v, addr, flags);
    NewDataFrame(s, u, t, fr, page, f, flags);
    forall x: Word | x / PAGE in fr[page := f]
      ensures Lookup(t.m, t.cur, x) == Some(fr[page := f][x / PAGE] * PAGE + x % PAGE)
    {
      MapPageEffect(u, v, addr, flags, s.cur, x);
      PageAddress(page, x);
      SeesSelf(u, SlotOf(v));
    }
    forall p, x | p in fr && 0 <= x < MEM && x / PAGE == fr[p] ensures t.m[x] == s.m[x] {
      SameLive(s, u);
      MapPageBytes(u, v, addr, flags, x);
    }
  }

  lemma NewDataFrame(s: VM, u: VM, t: VM, fr: map<nat, nat>, page: nat, f: nat, flags: nat)
    requires Image(s, fr) && page < PAGES && page !in fr && flags < PAGE
    requires f in s.pool.free && u == s.(pool := u.pool) && u.pool.free == s.pool.free - {f} && Inv(u)
    requires page * PAGE < MEM && EnsureTable(u, SlotOf(page * PAGE), flags).Some?
    requires t == MapPage(u, page * PAGE, f * PAGE, flags) && t.pool.free <= u.pool.free
    ensures DataFrames(t, fr[page := f])
  {
    hide Ent, PutEnt, EnsureTable, MapPage, Separate, Inherited, Mapped, SlotOf;
    SameLive(s, u);
    var gr := fr[page := f];
    forall d, i, p | Live(t, d, i) && p in gr ensures Table(t, d, i) != gr[p] {
      MapPageTables(u, page * PAGE, f * PAGE, flags, d, i);
    }
  }

  // ---------- Writing through the page tables ----------

  lemma ByteEnts(m: Ram, a: nat, b: Byte)
    requires a < MEM
    ensures forall g, j :: 0 <= g < PAGES && 0 <= j < 1024 && g != a / PAGE ==> Ent(m[a := b], g, j) == Ent(m, g, j)
  {
  }

  /** Translations depend only on directories and tables. */
  lemma LookupFrame(s: VM, t: VM, e: nat, x: Word)
    requires Inv(s) && e in s.base && e < PAGES
    requires forall i :: 0 <= i < 1024 ==> Ent(t.m, e, i) == Ent(s.m, e, i)
    requires forall d, i, j :: Live(s, d, i) && 0 <= j < 1024 ==>
             Ent(t.m, Table(s, d, i), j) == Ent(s.m, Table(s, d, i), j)
    ensures Lookup(t.m, e, x) == Lookup(s.m, e, x)
  {
    hide Ent, Present, TablesOk, Separate, Inherited;
    if Present(Ent(s.m, e, SlotOf(x))) {
      assert Live(s, e, SlotOf(x));
      var tab := Table(s, e, SlotOf(x));
      assert Ent(t.m, tab, IndexOf(x)) == Ent(s.m, tab, IndexOf(x));
    }
  }

  lemma FrameOffset(f: nat, r: nat)
    requires f < PAGES && r < PAGE
    ensures f * PAGE + r < MEM && (f * PAGE + r) / PAGE == f && (f * PAGE + r) % PAGE == r
  {
  }

  /** Writing a data byte changes that byte and no translation. */
  lemma WriteImage(s: VM, t: VM, fr: map<nat, nat>, v: Word, b: Byte)
    requires Image(s, fr) && v / PAGE in fr && t == VmWrite(s, v, b)
    ensures Image(t, fr) && PresentSlots(t.m, t.cur) == PresentSlots(s.m, s.cur)
    ensures forall y: Word :: y / PAGE in fr ==> VmRead(t, y) == if y == v then Some(b) else VmRead(s, y)
  {
    hide Ent, Lookup, Present, TablesOk, Separate, Inherited;
    var f := fr[v / PAGE];
    var a := f * PAGE + v % PAGE;
    FrameOffset(f, v % PAGE);
    assert Lookup(s.m, s.cur, v) == Some(a);
    ByteEnts(s.m, a, b);
    InvFrame(s, t);
    assert forall d, i :: Live(t, d, i) <==> Live(s, d, i);
    forall y: Word | y / PAGE in fr
      ensures Lookup(t.m, t.cur, y) == Some(fr[y / PAGE] * PAGE + y % PAGE)
      ensures VmRead(t, y) == if y == v then Some(b) else VmRead(s, y)
    {
      LookupFrame(s, t, s.cur, y);
      FrameOffset(fr[y / PAGE], y % PAGE);
      SameByte(fr, v, y);
    }
  }

  /** Different addresses on mapped pages are different bytes of memory. */
  lemma SameByte(fr: map<nat, nat>, v: Word, y: Word)
    requires v / PAGE in fr && y / PAGE in fr
    requires forall p, q :: p in fr && q in fr && p != q ==> fr[p] != fr[q]
    ensures fr[v / PAGE] * PAGE + v % PAGE == fr[y / PAGE] * PAGE + y % PAGE <==> v == y
  {
    if fr[v / PAGE] * PAGE + v % PAGE == fr[y / PAGE] * PAGE + y % PAGE {
      assert fr[v / PAGE] == fr[y / PAGE];
      assert v / PAGE == y / PAGE;
    }
  }

  lemma {:induction false} WriteBytesImage(s: VM, fr: map<nat, nat>, v: nat, bytes: seq<Byte>)
    requires Image(s, fr) && v + |bytes| <= MEM
    requires forall y: nat :: v <= y < v + |bytes| ==> y / PAGE in fr
    ensures var t := WriteBytes(s, v, bytes);
            && Image(t, fr) && PresentSlots(t.m, t.cur) == PresentSlots(s.m, s.cur)
            && forall y: Word :: y / PAGE in fr ==>
                 VmRead(t, y) == if v <= y < v + |bytes| then Some(bytes[y - v]) else VmRead(s, y)
    decreases |bytes|
  {
    hide Image, VmRead, VmWrite, PresentSlots;
    if bytes != [] {
      ImageCur(s, fr);
      var u := VmWrite(s, v, bytes[0]);
      WriteImage(s, u, fr, v, bytes[0]);
      WriteBytesImage(u, fr, v + 1, bytes[1..]);
    }
  }

  lemma ImageParts(s: VM, fr: map<nat, nat>)
    requires Image(s, fr)
    ensures Inv(s) && FreeOk(s)
  {
  }

  lemma ImageCur(s: VM, fr: map<nat, nat>)
    requires Image(s, fr)
    ensures s.cur < PAGES
  {
  }

  // ---------- Enough frames ----------

  /** The directory slots a set of pages falls into. */
  function Slots(pages: set<nat>): set<nat> {
    set p | p in pages :: p / 1024
  }

  /** One frame for every page, and one for the table of every slot that has none. */
  function Need(pages: set<nat>, present: set<nat>): nat {
    |pages| + |Slots(pages) - present|
  }

  /** The free frames below near, which are handed out first. */
  function Below(p: Pool, near: nat): set<nat> {
    set f | f in p.free && f < near
  }

  ghost predicate Enough(s: VM, near: nat, pages: set<nat>)
    requires s.cur < PAGES
  {
    |Below(s.pool, near)| >= Need(pages, PresentSlots(s.m, s.cur))
  }

  lemma NeedStep(pages: set<nat>, p: nat, present: set<nat>)
    requires p in pages
    ensures Need(pages, present) >=
            1 + (if p / 1024 in present then 0 else 1) + Need(pages - {p}, present + {p / 1024})
  {
    var slot := p / 1024;
    var rest := Slots(pages - {p}) - (present + {slot});
    var own := {slot} - present;
    assert slot in Slots(pages);
    assert |own| == if slot in present then 0 else 1;
    SubsetSize(rest + own, Slots(pages) - present);
    assert |rest + own| == |rest| + |own|;
    assert |pages - {p}| == |pages| - 1;
  }

  lemma MapPageSlots(s: VM, v: Word, p: Word, flags: nat)
    requires Inv(s) && flags < PAGE && EnsureTable(s, SlotOf(v), flags).Some?
    ensures PresentSlots(MapPage(s, v, p, flags).m, s.cur) == PresentSlots(s.m, s.cur) + {SlotOf(v)}
  {
    hide MapPage, EnsureTable, Ent, Present, TablesOk, Separate, Inherited;
    var t := MapPage(s, v, p, flags);
    forall i: nat | i < 1024
      ensures Present(Ent(t.m, s.cur, i)) <==> Present(Ent(s.m, s.cur, i)) || i == SlotOf(v)
    {
      MapPageTables(s, v, p, flags, s.cur, i);
    }
  }

  /** Allocation takes the lowest of them. */
  lemma AllocBelow(p: Pool, near: nat)
    requires 0 !in p.free && (forall f :: f in p.free ==> f < PAGES) && Below(p, near) != {}
    ensures Alloc(p).1 != 0 && FrameNo(Alloc(p).1) < near && |Below(Alloc(p).0, near)| == |Below(p, near)| - 1
  {
    var f :| f in Below(p, near);
    var a := Lowest(p.free, 0);
    assert a <= f && a in Below(p, near);
    assert Below(Alloc(p).0, near) == Below(p, near) - {a};
  }

  lemma MapPageCount(s: VM, near: nat, v: Word, p: Word, flags: nat)
    requires Inv(s) && FreeOk(s) && flags < PAGE && EnsureTable(s, SlotOf(v), flags).Some?
    requires SlotOf(v) !in PresentSlots(s.m, s.cur) ==> Below(s.pool, near) != {}
    ensures |Below(MapPage(s, v, p, flags).pool, near)| ==
            |Below(s.pool, near)| - if SlotOf(v) in PresentSlots(s.m, s.cur) then 0 else 1
  {
    hide Ent, PutEnt, ZeroFrame, Present, Alloc, TablesOk, Separate, Inherited, Below;
    if !Present(Ent(s.m, s.cur, SlotOf(v))) {
      AllocBelow(s.pool, near);
    }
  }

  /** With enough frames, one page more can be mapped, the table it may need comes from below near, and there are enough
      for the rest. */
  lemma PageSucceeds(s: VM, near: nat, u: VM, t: VM, page: nat, flags: nat, pages: set<nat>)
    requires Inv(s) && FreeOk(s) && page < PAGES && flags < PAGE && page in pages && Enough(s, near, pages)
    requires u == s.(pool := Alloc(s.pool).0) && t == MapPage(u, page * PAGE, Alloc(s.pool).1, flags)
    ensures Alloc(s.pool).1 != 0 && EnsureTable(u, SlotOf(page * PAGE), flags).Some? && Enough(t, near, pages - {page})
    ensures FreeOk(t) && (NeedsTable(u, page * PAGE) ==> Near(u.pool, near))
  {
    hide Alloc, EnsureTable, MapPage, Ent, Present, TablesOk, Separate, Inherited, Need, Below;
    var present, slot := PresentSlots(s.m, s.cur), page / 1024;
    NeedStep(pages, page, present);
    AllocBelow(s.pool, near);
    AllocFresh(s.pool);
    InvFrame(s, u);
    PageAddress(page, 0);
    MapPageFails(u, page * PAGE, Alloc(s.pool).1, flags);
    if slot !in present {
      AllocBelow(u.pool, near);
      AllocFresh(u.pool);
    }
    MapPageSlots(u, page * PAGE, Alloc(s.pool).1, flags);
    MapPageCount(u, near, page * PAGE, Alloc(s.pool).1, flags);
    MapPageFree(u, page * PAGE, Alloc(s.pool).1, flags);
  }

  // ---------- The loader's memory image ----------

  /** gr has the pages of fr on the same frames, and new pages on frames free in s. */
  ghost predicate Extends(s: VM, fr: map<nat, nat>, gr: map<nat, nat>) {
    && (forall p :: p in fr ==> p in gr && gr[p] == fr[p])
    && (forall p :: p in gr && p !in fr ==> gr[p] in s.pool.free)
  }

  /** What could be read on the pages of fr reads the same. */
  ghost predicate SameReads(s: VM, t: VM, fr: map<nat, nat>)
    requires s.cur < PAGES && t.cur < PAGES
  {
    forall y: Word :: y / PAGE in fr ==> VmRead(t, y) == VmRead(s, y)
  }

  lemma DataToReads(s: VM, t: VM, fr: map<nat, nat>, gr: map<nat, nat>)
    requires Image(s, fr) && Image(t, gr) && Extends(s, fr, gr) && SameData(s, t, fr)
    ensures SameReads(s, t, fr)
  {
    hide Lookup, Inv;
    InvCur(s);
    InvCur(t);
    forall y: Word | y / PAGE in fr ensures VmRead(t, y) == VmRead(s, y) {
      FrameOffset(fr[y / PAGE], y % PAGE);
      assert Lookup(s.m, s.cur, y) == Lookup(t.m, t.cur, y);
    }
  }

  lemma ExtendsTrans(s: VM, t: VM, fr: map<nat, nat>, hr: map<nat, nat>, gr: map<nat, nat>)
    requires Extends(s, fr, hr) && Extends(t, hr, gr) && t.pool.free <= s.pool.free
    ensures Extends(s, fr, gr)
  {
  }

  lemma SameReadsTrans(s: VM, t: VM, u: VM, fr: map<nat, nat>, hr: map<nat, nat>)
    requires s.cur < PAGES && t.cur < PAGES && u.cur < PAGES
    requires SameReads(s, t, fr) && SameReads(t, u, hr) && fr.Keys <= hr.Keys
    ensures SameReads(s, u, fr)
  {
    hide VmRead;
  }

  /** One round of the page loop. */
  lemma PageImage(s: VM, near: nat, t: VM, fr: map<nat, nat>, page: nat, flags: nat, pages: set<nat>)
    requires Image(s, fr) && page < PAGES && page !in fr && flags < PAGE && page in pages && Enough(s, near, pages)
    requires t == MapPage(s.(pool := Alloc(s.pool).0), page * PAGE, Alloc(s.pool).1, flags)
    ensures var hr := fr[page := Alloc(s.pool).1 / PAGE];
            && Alloc(s.pool).1 != 0 && Image(t, hr) && Extends(s, fr, hr) && SameReads(s, t, fr)
            && Enough(t, near, pages - {page}) && t.pool.free <= s.pool.free
  {
    hide Alloc, MapPage, EnsureTable, Image, Need, Lookup, Enough, SameReads, SameData;
    ImageCur(s, fr);
    var u := s.(pool := Alloc(s.pool).0);
    ImageParts(s, fr);
    PageSucceeds(s, near, u, t, page, flags, pages);
    MapImage(s, u, t, fr, page, flags);
    DataToReads(s, t, fr, fr[page := Alloc(s.pool).1 / PAGE]);
  }

  /** The page loop: every page gets a fresh frame of its own, and what was loaded before is left alone. */
  lemma {:induction false} LoadPagesImage(s: VM, near: nat, fr: map<nat, nat>, page: nat, n: nat, flags: nat,
                                          more: set<nat>)
    returns (gr: map<nat, nat>)
    requires Image(s, fr) && page + n <= PAGES && flags < PAGE
    requires Range(page, n) !! fr.Keys && Range(page, n) !! more && Enough(s, near, Range(page, n) + more)
    ensures var (t, ok) := LoadPages(s, page, n, flags);
            && ok && Image(t, gr) && gr.Keys == fr.Keys + Range(page, n) && Extends(s, fr, gr)
            && SameReads(s, t, fr) && Enough(t, near, more) && t.pool.free <= s.pool.free
    decreases n
  {
    hide Alloc, MapPage, Image, Enough, Extends, SameReads, Range;
    ImageCur(s, fr);
    if n == 0 {
      gr := fr;
      NoPages(page, more);
      Reflexive(s, fr);
    } else {
      var t := MapPage(s.(pool := Alloc(s.pool).0), page * PAGE, Alloc(s.pool).1, flags);
      var pages := Range(page, n) + more;
      NextRange(page, n, more);
      PageImage(s, near, t, fr, page, flags, pages);
      var hr := fr[page := Alloc(s.pool).1 / PAGE];
      gr := LoadPagesImage(t, near, hr, page + 1, n - 1, flags, more);
      var w := LoadPages(t, page + 1, n - 1, flags).0;
      ExtendsTrans(s, t, fr, hr, gr);
      SameReadsTrans(s, t, w, fr, hr);
    }
  }

  lemma NoPages(page: nat, more: set<nat>)
    ensures Range(page, 0) == {} && Range(page, 0) + more == more
  {
  }

  lemma NextRange(page: nat, n: nat, more: set<nat>)
    requires n > 0 && Range(page, n) !! more
    ensures Range(page, n) == {page} + Range(page + 1, n - 1) && page !in Range(page + 1, n - 1)
    ensures Range(page, n) + more - {page} == Range(page + 1, n - 1) + more
  {
  }

  function PagesOf(h: Header): set<nat>
    requires NoWrap(h)
  {
    Range(FirstPage(h), PageCount(h))
  }

  /** The pages of a segment are exactly those its bytes lie on; and one more than none for an empty segment that does
      not start at a page boundary. */
  lemma PagesExact(h: Header, p: nat)
    requires NoWrap(h)
    ensures h.memsz > 0 ==> (p in PagesOf(h) <==> h.vaddr < (p + 1) * PAGE && p * PAGE < h.vaddr + h.memsz)
    ensures h.memsz == 0 ==> (p in PagesOf(h) <==> p * PAGE < h.vaddr < (p + 1) * PAGE)
  {
    var a, e := h.vaddr, h.vaddr + h.memsz;
    PageBounds(a, p);
    PageBounds(e + PAGE - 1, p);
  }

  lemma PageBounds(x: nat, p: nat)
    ensures x / PAGE <= p <==> x < (p + 1) * PAGE
    ensures p < x / PAGE <==> (p + 1) * PAGE <= x
  {
  }

  lemma PagesCover(h: Header, y: nat)
    requires NoWrap(h) && h.vaddr <= y < h.vaddr + h.memsz
    ensures y / PAGE in PagesOf(h)
  {
    var e := h.vaddr + h.memsz;
    assert y / PAGE <= (e - 1) / PAGE;
    assert (e - 1) / PAGE + 1 == (e + PAGE - 1) / PAGE;
  }

  /** The byte that belongs at vaddr + k. */
  function Expected(f: File, h: Header, k: nat): Byte
    requires f.vol.Ok() && |FileBytes(f, h)| == h.filesz
  {
    if k < h.filesz then FileBytes(f, h)[k] else 0
  }

  ghost predicate LoadedAt(s: VM, f: File, h: Header, k: nat)
    requires s.cur < PAGES && f.vol.Ok() && NoWrap(h) && |FileBytes(f, h)| == h.filesz && k < h.memsz
  {
    VmRead(s, h.vaddr + k) == Some(Expected(f, h, k))
  }

  /** Segment h of the file reads back through the page tables: file bytes first, zeros after. */
  ghost predicate Loaded(s: VM, f: File, h: Header)
    requires s.cur < PAGES && f.vol.Ok() && NoWrap(h) && |FileBytes(f, h)| == h.filesz
  {
    forall k :: 0 <= k < h.memsz ==> LoadedAt(s, f, h, k)
  }

  lemma ZerosLength(n: nat)
    ensures |Zeros(n)| == n
  {
  }

  /** t is s with the bytes at v written, as far as the pages of gr can tell. */
  ghost predicate Written(s: VM, t: VM, gr: map<nat, nat>, v: nat, bytes: seq<Byte>)
    requires s.cur < PAGES && t.cur < PAGES
  {
    forall y: Word :: y / PAGE in gr ==>
      VmRead(t, y) == if v <= y < v + |bytes| then Some(bytes[y - v]) else VmRead(s, y)
  }

  /** The copy and the zeroing, once the pages are there. */
  lemma FillSegment(t: VM, w: VM, f: File, h: Header, gr: map<nat, nat>)
    requires Image(t, gr) && f.vol.Ok() && NoWrap(h) && |FileBytes(f, h)| == h.filesz && PagesOf(h) <= gr.Keys
    requires w == WriteBytes(WriteBytes(t, h.vaddr, FileBytes(f, h)), h.vaddr + h.filesz, Zeros(h.memsz - h.filesz))
    ensures Image(w, gr) && Loaded(w, f, h) && PresentSlots(w.m, w.cur) == PresentSlots(t.m, t.cur)
    ensures forall y: Word :: y / PAGE in gr && y / PAGE !in PagesOf(h) ==> VmRead(w, y) == VmRead(t, y)
  {
    hide WriteBytes, Image, VmRead, FileBytes, PresentSlots, PagesOf, Zeros, Loaded;
    ZerosLength(h.memsz - h.filesz);
    ImageCur(t, gr);
    SegmentMapped(h, gr);
    var bytes, zeros := FileBytes(f, h), Zeros(h.memsz - h.filesz);
    var u := WriteBytes(t, h.vaddr, bytes);
    WriteBytesImage(t, gr, h.vaddr, bytes);
    assert Written(t, u, gr, h.vaddr, bytes);
    WriteBytesImage(u, gr, h.vaddr + h.filesz, zeros);
    assert Written(u, w, gr, h.vaddr + h.filesz, zeros);
    hide Written;
    WrittenLoaded(t, u, w, f, h, gr);
    WrittenElsewhere(t, u, w, h, gr, bytes, zeros);
  }

  lemma SegmentMapped(h: Header, gr: map<nat, nat>)
    requires NoWrap(h) && PagesOf(h) <= gr.Keys
    ensures forall y: nat :: h.vaddr <= y < h.vaddr + h.memsz ==> y / PAGE in gr
  {
    hide PagesOf;
    forall y: nat | h.vaddr <= y < h.vaddr + h.memsz ensures y / PAGE in gr {
      PagesCover(h, y);
    }
  }

  lemma WrittenLoaded(t: VM, u: VM, w: VM, f: File, h: Header, gr: map<nat, nat>)
    requires t.cur < PAGES && u.cur < PAGES && w.cur < PAGES
    requires f.vol.Ok() && NoWrap(h) && |FileBytes(f, h)| == h.filesz && PagesOf(h) <= gr.Keys
    requires Written(t, u, gr, h.vaddr, FileBytes(f, h))
    requires Written(u, w, gr, h.vaddr + h.filesz, Zeros(h.memsz - h.filesz))
    ensures Loaded(w, f, h)
  {
    hide VmRead, FileBytes, PagesOf;
    forall k | 0 <= k < h.memsz ensures LoadedAt(w, f, h, k) {
      var y: Word := h.vaddr + k;
      PagesCover(h, y);
      assert y / PAGE in gr;
    }
  }

  lemma WrittenElsewhere(t: VM, u: VM, w: VM, h: Header, gr: map<nat, nat>, bytes: seq<Byte>, zeros: seq<Byte>)
    requires t.cur < PAGES && u.cur < PAGES && w.cur < PAGES && NoWrap(h)
    requires |bytes| == h.filesz && |zeros| == h.memsz - h.filesz
    requires Written(t, u, gr, h.vaddr, bytes) && Written(u, w, gr, h.vaddr + h.filesz, zeros)
    ensures forall y: Word :: y / PAGE in gr && y / PAGE !in PagesOf(h) ==> VmRead(w, y) == VmRead(t, y)
  {
    hide VmRead, PagesOf;
    forall y: Word | y / PAGE in gr && y / PAGE !in PagesOf(h) ensures VmRead(w, y) == VmRead(t, y) {
      if h.vaddr <= y < h.vaddr + h.memsz {
        PagesCover(h, y);
      }
    }
  }

  lemma LoadSegmentImage(s: VM, near: nat, f: File, h: Header, fr: map<nat, nat>, more: set<nat>)
    returns (gr: map<nat, nat>)
    requires Image(s, fr) && f.vol.Ok() && NoWrap(h) && |FileBytes(f, h)| == h.filesz
    requires PagesOf(h) !! fr.Keys && PagesOf(h) !! more && Enough(s, near, PagesOf(h) + more)
    ensures var (t, ok) := LoadSegment(s, f, h);
            && ok && Image(t, gr) && gr.Keys == fr.Keys + PagesOf(h) && Extends(s, fr, gr)
            && SameReads(s, t, fr) && Enough(t, near, more) && t.pool.free <= s.pool.free && Loaded(t, f, h)
  {
    hide LoadPages, WriteBytes, Image, VmRead, FileBytes, Need, FirstPage, PageCount, PresentSlots, Loaded;
    ImageCur(s, fr);
    gr := LoadPagesImage(s, near, fr, FirstPage(h), PageCount(h), PageFlags(h), more);
    var t := LoadPages(s, FirstPage(h), PageCount(h), PageFlags(h)).0;
    FillSegment(t, LoadSegment(s, f, h).0, f, h, gr);
  }

  // ---------- All segments at once ----------

  ghost predicate Loadable(f: File, hs: seq<Header>) {
    f.vol.Ok() && forall h :: h in hs && h.kind == PT_LOAD ==> NoWrap(h) && |FileBytes(f, h)| == h.filesz
  }

  /** The pages of all loadable segments. */
  ghost function AllPages(hs: seq<Header>): set<nat>
    requires forall h :: h in hs && h.kind == PT_LOAD ==> NoWrap(h)
  {
    if hs == [] then {}
    else (if hs[0].kind == PT_LOAD then PagesOf(hs[0]) else {}) + AllPages(hs[1..])
  }

  ghost predicate PageDisjoint(hs: seq<Header>)
    requires forall h :: h in hs && h.kind == PT_LOAD ==> NoWrap(h)
  {
    hs == [] || ((hs[0].kind == PT_LOAD ==> PagesOf(hs[0]) !! AllPages(hs[1..])) && PageDisjoint(hs[1..]))
  }

  ghost predicate AllLoaded(s: VM, f: File, hs: seq<Header>)
    requires s.cur < PAGES && Loadable(f, hs)
  {
    forall h :: h in hs && h.kind == PT_LOAD ==> Loaded(s, f, h)
  }

  lemma {:induction false} LoadAllImage(s: VM, near: nat, f: File, hs: seq<Header>, fr: map<nat, nat>, more: set<nat>)
    returns (gr: map<nat, nat>)
    requires Image(s, fr) && Loadable(f, hs) && PageDisjoint(hs)
    requires AllPages(hs) !! fr.Keys && AllPages(hs) !! more && Enough(s, near, AllPages(hs) + more)
    ensures var (t, ok) := LoadAll(s, f, hs);
            && ok && t.cur == s.cur && Image(t, gr) && gr.Keys == fr.Keys + AllPages(hs) && Extends(s, fr, gr)
            && SameReads(s, t, fr) && Enough(t, near, more) && t.pool.free <= s.pool.free && AllLoaded(t, f, hs)
    decreases |hs|
  {
    hide LoadSegment, Image, FileBytes, NoWrap, PagesOf, Loaded, Enough, Extends, SameReads;
    ImageCur(s, fr);
    if hs == [] {
      gr := fr;
      Reflexive(s, fr);
      assert {} + more == more;
    } else {
      var h, rest := hs[0], hs[1..];
      assert hs == [h] + rest;
      if h.kind != PT_LOAD {
        assert AllPages(hs) == AllPages(rest);
        gr := LoadAllImage(s, near, f, rest, fr, more);
      } else {
        var later := AllPages(rest) + more;
        assert PagesOf(h) + later == AllPages(hs) + more;
        var hr := LoadSegmentImage(s, near, f, h, fr, later);
        var t := LoadSegment(s, f, h).0;
        gr := LoadAllImage(t, near, f, rest, hr, more);
        var w := LoadAll(t, f, rest).0;
        LoadedKept(t, w, f, h, hr);
        ExtendsTrans(s, t, fr, hr, gr);
        SameReadsTrans(s, t, w, fr, hr);
      }
    }
  }

  lemma Reflexive(s: VM, fr: map<nat, nat>)
    requires s.cur < PAGES
    ensures Extends(s, fr, fr) && SameReads(s, s, fr)
  {
  }

  lemma LoadedKept(t: VM, w: VM, f: File, h: Header, hr: map<nat, nat>)
    requires t.cur < PAGES && w.cur < PAGES && f.vol.Ok() && NoWrap(h) && |FileBytes(f, h)| == h.filesz
    requires Loaded(t, f, h) && SameReads(t, w, hr) && PagesOf(h) <= hr.Keys
    ensures Loaded(w, f, h)
  {
    hide VmRead, FileBytes, PagesOf;
    forall k | 0 <= k < h.memsz ensures LoadedAt(w, f, h, k) {
      var y: Word := h.vaddr + k;
      PagesCover(h, y);
      assert LoadedAt(t, f, h, k);
      assert VmRead(w, y) == VmRead(t, y);
    }
  }

  lemma AllLoadedKept(t: VM, w: VM, f: File, hs: seq<Header>, gr: map<nat, nat>)
    requires t.cur < PAGES && w.cur < PAGES && Loadable(f, hs) && AllPages(hs) <= gr.Keys
    requires AllLoaded(t, f, hs) && SameReads(t, w, gr)
    ensures AllLoaded(w, f, hs)
  {
    hide Loaded, SameReads, NoWrap, FileBytes;
    forall h | h in hs && h.kind == PT_LOAD ensures Loaded(w, f, h) {
      SegmentPages(hs, h);
      LoadedKept(t, w, f, h, gr);
    }
  }

  lemma {:induction false} SegmentPages(hs: seq<Header>, h: Header)
    requires forall g :: g in hs && g.kind == PT_LOAD ==> NoWrap(g)
    requires h in hs && h.kind == PT_LOAD
    ensures PagesOf(h) <= AllPages(hs)
  {
    hide NoWrap, PagesOf;
    assert hs == [hs[0]] + hs[1..];
    if h != hs[0] {
      SegmentPages(hs[1..], h);
    }
  }

  /** The two pages below 3 GB that become the user stack, mapped downwards. */
  const STACK_PAGE: nat := 0xBFFFF

  function MapStack(s: VM): (r: (VM, bool))
    requires s.cur < PAGES
    ensures r.0.cur == s.cur
  {
    var (t, ok) := LoadPages(s, STACK_PAGE, 1, PRESENT + WRITE + USER);
    if ok then LoadPages(t, STACK_PAGE - 1, 1, PRESENT + WRITE + USER) else (t, false)
  }

  /** elf_exec from the segment loop up to the jump to user mode. */
  function Exec(s: VM, f: File, hs: seq<Header>): (r: (VM, bool))
    requires s.cur < PAGES && f.vol.Ok() && forall h :: h in hs && h.kind == PT_LOAD ==> NoWrap(h)
    ensures r.0.cur == s.cur
  {
    var (t, ok) := LoadAll(s, f, hs);
    if ok then MapStack(t) else (t, false)
  }

  ghost function StackPages(): set<nat> {
    {STACK_PAGE, STACK_PAGE - 1}
  }

  lemma MapStackImage(s: VM, near: nat, fr: map<nat, nat>) returns (gr: map<nat, nat>)
    requires Image(s, fr) && StackPages() !! fr.Keys && Enough(s, near, StackPages())
    ensures var (t, ok) := MapStack(s);
            && ok && Image(t, gr) && gr.Keys == fr.Keys + StackPages() && Extends(s, fr, gr)
            && SameReads(s, t, fr) && t.pool.free <= s.pool.free
  {
    hide Image, Enough, Extends, SameReads, LoadPages;
    ImageCur(s, fr);
    assert Range(STACK_PAGE, 1) == {STACK_PAGE} && Range(STACK_PAGE - 1, 1) == {STACK_PAGE - 1};
    assert StackPages() == Range(STACK_PAGE, 1) + {STACK_PAGE - 1};
    assert Range(STACK_PAGE - 1, 1) + {} == {STACK_PAGE - 1};
    var flags := PRESENT + WRITE + USER;
    var hr := LoadPagesImage(s, near, fr, STACK_PAGE, 1, flags, {STACK_PAGE - 1});
    var t := LoadPages(s, STACK_PAGE, 1, flags).0;
    gr := LoadPagesImage(t, near, hr, STACK_PAGE - 1, 1, flags, {});
    var w := LoadPages(t, STACK_PAGE - 1, 1, flags).0;
    ExtendsTrans(s, t, fr, hr, gr);
    SameReadsTrans(s, t, w, fr, hr);
  }

  lemma ExecImage(s: VM, near: nat, f: File, hs: seq<Header>) returns (frame: map<nat, nat>)
    requires Image(s, map[]) && Loadable(f, hs) && PageDisjoint(hs)
    requires AllPages(hs) !! StackPages() && Enough(s, near, AllPages(hs) + StackPages())
    ensures var (t, ok) := Exec(s, f, hs);
            && ok && Image(t, frame) && AllLoaded(t, f, hs)
            && frame.Keys == AllPages(hs) + StackPages() && Extends(s, map[], frame)
  {
    hide LoadAll, MapStack, Image, Enough, AllLoaded, AllPages, PageDisjoint, SameReads, Extends, StackPages;
    ImageCur(s, map[]);
    var hr := LoadAllImage(s, near, f, hs, map[], StackPages());
    var t := LoadAll(s, f, hs).0;
    frame := MapStackImage(t, near, hr);
    AllLoadedKept(t, MapStack(t).0, f, hs, hr);
    ExtendsTrans(s, t, map[], hr, frame);
  }

  lemma {:induction false} FewSlots(pages: set<nat>)
    ensures |Slots(pages)| <= |pages|
    decreases |pages|
  {
    if pages == {} {
      assert Slots(pages) == {};
    } else {
      var p :| p in pages;
      var rest := pages - {p};
      FewSlots(rest);
      forall x | x in Slots(pages) ensures x in Slots(rest) + {p / 1024} {
        var q :| q in pages && q / 1024 == x;
        assert q != p ==> q in rest;
      }
      SubsetSize(Slots(pages), Slots(rest) + {p / 1024});
    }
  }

  /** Twice as many of these frames as pages are always enough. */
  lemma TwiceIsEnough(s: VM, near: nat, pages: set<nat>)
    requires s.cur < PAGES && |Below(s.pool, near)| >= 2 * |pages|
    ensures Enough(s, near, pages)
  {
    FewSlots(pages);
    var present := PresentSlots(s.m, s.cur);
    SubsetSize(Slots(pages) - present, Slots(pages));
  }
}
