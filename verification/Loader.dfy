/** elf_exec of src/elf.c as it runs: page tables reached through the translation they define, user memory through the
    tables just written. Module ElfSpec says what should end up in memory; here is when it does. */
module Loader {
  import opened Machine
  import opened PmmSpec
  import opened Memory
  import opened PagingSpec
  import opened Permissions
  import opened Mmu
  import opened Fat32Spec
  import opened ElfSpec
  import opened ElfRights

  // ---------- The code; None is a page fault ----------

  function WriteThrough(s: VM, v: nat, bytes: seq<Byte>): (r: Option<VM>)
    requires s.cur < PAGES && v + |bytes| <= MEM
    ensures r.Some? ==> r.value == s.(m := r.value.m)
    decreases |bytes|
  {
    if bytes == [] then Some(s) else
    match Lookup(s.m, s.cur, v)
    case None => None
    case Some(p) => WriteThrough(s.(m := s.m[p := bytes[0]]), v + 1, bytes[1..])
  }

  function LoadPagesThrough(s: VM, page: nat, n: nat, flags: nat): (r: Option<(VM, bool)>)
    requires s.cur < PAGES && page + n <= PAGES && flags < PAGE
    ensures r.Some? ==> r.value.0.cur == s.cur
    decreases n
  {
    if n == 0 then Some((s, true)) else
    var (pool, frame) := Alloc(s.pool);
    var u := s.(pool := pool);
    if frame == 0 then Some((u, false)) else
    match MapThrough(u, page * PAGE, frame, flags)
    case None => None
    case Some(t) => LoadPagesThrough(t, page + 1, n - 1, flags)
  }

  function FillThrough(s: VM, f: File, h: Header): (r: Option<(VM, bool)>)
    requires s.cur < PAGES && f.vol.Ok() && NoWrap(h)
    ensures r.Some? ==> r.value.0.cur == s.cur
  {
    match WriteThrough(s, h.vaddr, FileBytes(f, h))
    case None => None
    case Some(u) =>
      match WriteThrough(u, h.vaddr + h.filesz, Zeros(h.memsz - h.filesz))
      case None => None
      case Some(w) => Some((w, true))
  }

  function LoadSegmentThrough(s: VM, f: File, h: Header): (r: Option<(VM, bool)>)
    requires s.cur < PAGES && f.vol.Ok() && NoWrap(h)
    ensures r.Some? ==> r.value.0.cur == s.cur
  {
    match LoadPagesThrough(s, FirstPage(h), PageCount(h), PageFlags(h))
    case None => None
    case Some((t, ok)) => if ok then FillThrough(t, f, h) else Some((t, false))
  }

  function LoadAllThrough(s: VM, f: File, hs: seq<Header>): (r: Option<(VM, bool)>)
    requires s.cur < PAGES && f.vol.Ok() && forall h :: h in hs && h.kind == PT_LOAD ==> NoWrap(h)
    ensures r.Some? ==> r.value.0.cur == s.cur
    decreases |hs|
  {
    if hs == [] then Some((s, true))
    else if hs[0].kind != PT_LOAD then LoadAllThrough(s, f, hs[1..])
    else
      match LoadSegmentThrough(s, f, hs[0])
      case None => None
      case Some((t, ok)) => if ok then LoadAllThrough(t, f, hs[1..]) else Some((t, false))
  }

  function MapStackThrough(s: VM): (r: Option<(VM, bool)>)
    requires s.cur < PAGES
    ensures r.Some? ==> r.value.0.cur == s.cur
  {
    match LoadPagesThrough(s, STACK_PAGE, 1, PRESENT + WRITE + USER)
    case None => None
    case Some((t, ok)) =>
      if ok then LoadPagesThrough(t, STACK_PAGE - 1, 1, PRESENT + WRITE + USER) else Some((t, false))
  }

  /** elf_exec from the segment loop up to the jump to user mode. */
  function ExecThrough(s: VM, f: File, hs: seq<Header>): Option<(VM, bool)>
    requires s.cur < PAGES && f.vol.Ok() && forall h :: h in hs && h.kind == PT_LOAD ==> NoWrap(h)
  {
    match LoadAllThrough(s, f, hs)
    case None => None
    case Some((t, ok)) => if ok then MapStackThrough(t) else Some((t, false))
  }

  // ---------- The code does what ElfSpec says ----------

  /** None of the pages is a directory, a table or a free frame below near. */
  ghost predicate Clear(s: VM, near: nat, pages: set<nat>) {
    forall p :: p in pages ==> !Used(s, near, p)
  }

  ghost predicate Shrinks(s: VM, near: nat, t: VM) {
    forall f: nat :: Used(t, near, f) ==> Used(s, near, f)
  }

  lemma ClearKept(s: VM, near: nat, t: VM, pages: set<nat>)
    requires Clear(s, near, pages) && Shrinks(s, near, t)
    ensures Clear(t, near, pages)
  {
    hide Used;
  }

  lemma ShrinksTrans(s: VM, near: nat, t: VM, u: VM)
    requires Shrinks(s, near, t) && Shrinks(t, near, u)
    ensures Shrinks(s, near, u)
  {
    hide Used;
  }

  /** One round of the page loop. */
  lemma PageIs(s: VM, near: nat, page: nat, flags: nat)
    requires Inv(s) && Reach(s, near) && page < PAGES && flags < PAGE && !Used(s, near, page)
    requires NeedsTable(s, page * PAGE) ==> Near(Alloc(s.pool).0, near)
    ensures s.cur < PAGES
    ensures var u := s.(pool := Alloc(s.pool).0);
            var t := MapPage(u, page * PAGE, Alloc(s.pool).1, flags);
            && Inv(u) && Reach(u, near) && Shrinks(s, near, u)
            && MapThrough(u, page * PAGE, Alloc(s.pool).1, flags) == Some(t) && Inv(t) && Reach(t, near)
            && Shrinks(s, near, t)
  {
    hide Inv, Reach, Used, Alloc, MapThrough, MapPage;
    InvCur(s);
    var u := s.(pool := Alloc(s.pool).0);
    AllocShrinks(s.pool);
    PoolInv(s, u);
    FewerFree(s, near, u);
    PageStart(page);
    MapThroughIs(u, near, page * PAGE, Alloc(s.pool).1, flags);
    MapPageInv(u, page * PAGE, Alloc(s.pool).1, flags);
    MapStays(u, near, page * PAGE, Alloc(s.pool).1, flags);
    ShrinksTrans(s, near, u, MapPage(u, page * PAGE, Alloc(s.pool).1, flags));
  }

  lemma {:induction false} LoadPagesIs(s: VM, near: nat, page: nat, n: nat, flags: nat, more: set<nat>)
    requires Inv(s) && Reach(s, near) && FreeOk(s) && page + n <= PAGES && flags < PAGE
    requires Clear(s, near, Range(page, n))
    requires Range(page, n) !! more && Enough(s, near, Range(page, n) + more)
    ensures s.cur < PAGES && LoadPagesThrough(s, page, n, flags) == Some(LoadPages(s, page, n, flags))
    ensures var t := LoadPages(s, page, n, flags).0; Inv(t) && Reach(t, near) && Shrinks(s, near, t)
    decreases n
  {
    hide Inv, Reach, FreeOk, Used, Alloc, MapThrough, MapPage, Range, Clear, Shrinks, Enough, NeedsTable, Near,
         EnsureTable;
    InvCur(s);
    ShrinksRefl(s, near);
    if n > 0 {
      NextRange(page, n, more);
      ClearSplit(s, near, page, Range(page, n), Range(page + 1, n - 1));
      var u := s.(pool := Alloc(s.pool).0);
      var t := MapPage(u, page * PAGE, Alloc(s.pool).1, flags);
      PageSucceeds(s, near, u, t, page, flags, Range(page, n) + more);
      SameNeed(s, u, page * PAGE);
      PageIs(s, near, page, flags);
      ClearKept(s, near, t, Range(page + 1, n - 1));
      LoadPagesIs(t, near, page + 1, n - 1, flags, more);
      ShrinksTrans(s, near, t, LoadPages(t, page + 1, n - 1, flags).0);
    }
  }

  lemma SameNeed(s: VM, u: VM, v: Word)
    requires s.cur < PAGES && u == s.(pool := u.pool)
    ensures NeedsTable(s, v) <==> NeedsTable(u, v)
  {
  }

  lemma ShrinksRefl(s: VM, near: nat)
    ensures Shrinks(s, near, s)
  {
  }

  lemma ClearSplit(s: VM, near: nat, p: nat, pages: set<nat>, rest: set<nat>)
    requires Clear(s, near, pages) && pages == {p} + rest
    ensures !Used(s, near, p) && Clear(s, near, rest)
  {
    hide Used;
  }

  /** Writing a data byte leaves everything the kernel needs within reach. */
  lemma WriteReach(s: VM, near: nat, t: VM, fr: map<nat, nat>, v: Word, b: Byte)
    requires Image(s, fr) && v / PAGE in fr && t == VmWrite(s, v, b) && Reach(s, near)
    ensures Reach(t, near) && Shrinks(s, near, t)
  {
    hide Ent, Lookup, Present, TablesOk, Separate, Inherited, SelfMapped;
    var f := fr[v / PAGE];
    var a := f * PAGE + v % PAGE;
    FrameOffset(f, v % PAGE);
    assert Lookup(s.m, s.cur, v) == Some(a);
    ByteEnts(s.m, a, b);
    assert forall d, i: nat :: Live(t, d, i) <==> Live(s, d, i);
    assert forall d, i: nat :: Live(t, d, i) ==> Table(t, d, i) == Table(s, d, i);
    forall d, g: nat | d in t.base && Used(t, near, g)
      ensures d < PAGES && g < PAGES && SelfMapped(t.m, d, g) && Used(s, near, g)
    {
      assert Used(s, near, g);
      assert SelfMapped(s.m, d, g);
      SameFrame(s, t, d, g);
    }
  }

  lemma SameFrame(s: VM, t: VM, d: nat, g: nat)
    requires Inv(s) && d in s.base && d < PAGES && g < PAGES
    requires forall i :: 0 <= i < 1024 ==> Ent(t.m, d, i) == Ent(s.m, d, i)
    requires forall d, i, j :: Live(s, d, i) && 0 <= j < 1024 ==>
             Ent(t.m, Table(s, d, i), j) == Ent(s.m, Table(s, d, i), j)
    ensures SelfMapped(t.m, d, g) <==> SelfMapped(s.m, d, g)
  {
    hide Ent, Lookup, Inv, Live;
    PageStart(g);
    LookupFrame(s, t, d, g * PAGE);
  }

  lemma {:induction false} WriteBytesIs(s: VM, near: nat, fr: map<nat, nat>, v: nat, bytes: seq<Byte>)
    requires Image(s, fr) && Reach(s, near) && v + |bytes| <= MEM
    requires forall y: nat :: v <= y < v + |bytes| ==> y / PAGE in fr
    ensures s.cur < PAGES && WriteThrough(s, v, bytes) == Some(WriteBytes(s, v, bytes))
    ensures Reach(WriteBytes(s, v, bytes), near) && Shrinks(s, near, WriteBytes(s, v, bytes))
    decreases |bytes|
  {
    hide Image, Lookup, Reach, Shrinks, PresentSlots, VmRead;
    ImageCur(s, fr);
    ShrinksRefl(s, near);
    if bytes != [] {
      var u := VmWrite(s, v, bytes[0]);
      ImageMapped(s, fr, v);
      WriteImage(s, u, fr, v, bytes[0]);
      WriteReach(s, near, u, fr, v, bytes[0]);
      WriteBytesIs(u, near, fr, v + 1, bytes[1..]);
      ShrinksTrans(s, near, u, WriteBytes(s, v, bytes));
    }
  }

  lemma ImageMapped(s: VM, fr: map<nat, nat>, v: Word)
    requires Image(s, fr) && v / PAGE in fr
    ensures s.cur < PAGES && Lookup(s.m, s.cur, v).Some?
  {
  }

  lemma FillIs(t: VM, near: nat, f: File, h: Header, gr: map<nat, nat>)
    requires Image(t, gr) && Reach(t, near) && f.vol.Ok() && NoWrap(h) && |FileBytes(f, h)| == h.filesz
    requires PagesOf(h) <= gr.Keys
    ensures t.cur < PAGES
    ensures var w := WriteBytes(WriteBytes(t, h.vaddr, FileBytes(f, h)), h.vaddr + h.filesz, Zeros(h.memsz - h.filesz));
            FillThrough(t, f, h) == Some((w, true)) && Reach(w, near) && Shrinks(t, near, w)
  {
    hide Image, Reach, Shrinks, WriteBytes, WriteThrough, FileBytes, PresentSlots, PagesOf, Zeros, VmRead;
    ZerosLength(h.memsz - h.filesz);
    ImageCur(t, gr);
    SegmentMapped(h, gr);
    var u := WriteBytes(t, h.vaddr, FileBytes(f, h));
    WriteBytesImage(t, gr, h.vaddr, FileBytes(f, h));
    WriteBytesIs(t, near, gr, h.vaddr, FileBytes(f, h));
    WriteBytesIs(u, near, gr, h.vaddr + h.filesz, Zeros(h.memsz - h.filesz));
    ShrinksTrans(t, near, u, WriteBytes(u, h.vaddr + h.filesz, Zeros(h.memsz - h.filesz)));
  }

  lemma LoadSegmentIs(s: VM, near: nat, f: File, h: Header, fr: map<nat, nat>, more: set<nat>)
    requires Image(s, fr) && f.vol.Ok() && NoWrap(h) && |FileBytes(f, h)| == h.filesz
    requires PagesOf(h) !! fr.Keys && PagesOf(h) !! more && s.cur < PAGES && Enough(s, near, PagesOf(h) + more)
    requires Reach(s, near) && Clear(s, near, PagesOf(h))
    ensures LoadSegmentThrough(s, f, h) == Some(LoadSegment(s, f, h))
    ensures var t := LoadSegment(s, f, h).0; Reach(t, near) && Shrinks(s, near, t)
  {
    hide LoadPages, LoadPagesThrough, WriteBytes, FillThrough, Image, Reach, Clear, Shrinks, FileBytes, Need, FirstPage,
         PageCount,
         PresentSlots, Enough, SameReads, Extends;
    ImageParts(s, fr);
    var gr := LoadPagesImage(s, near, fr, FirstPage(h), PageCount(h), PageFlags(h), more);
    LoadPagesIs(s, near, FirstPage(h), PageCount(h), PageFlags(h), more);
    var t := LoadPages(s, FirstPage(h), PageCount(h), PageFlags(h)).0;
    FillIs(t, near, f, h, gr);
    ShrinksTrans(s, near, t, LoadSegment(s, f, h).0);
  }

  lemma {:induction false} LoadAllIs(s: VM, near: nat, f: File, hs: seq<Header>, fr: map<nat, nat>, more: set<nat>)
    requires Image(s, fr) && Loadable(f, hs) && PageDisjoint(hs) && s.cur < PAGES
    requires AllPages(hs) !! fr.Keys && AllPages(hs) !! more && Enough(s, near, AllPages(hs) + more)
    requires Reach(s, near) && Clear(s, near, AllPages(hs))
    ensures LoadAllThrough(s, f, hs) == Some(LoadAll(s, f, hs))
    ensures var t := LoadAll(s, f, hs).0; Reach(t, near) && Shrinks(s, near, t)
    decreases |hs|
  {
    hide LoadSegment, LoadSegmentThrough, Image, FileBytes, NoWrap, PagesOf, Loaded, Enough, Extends, SameReads, Reach,
         Clear, Shrinks;
    if hs == [] {
      ShrinksRefl(s, near);
    } else {
      var h, rest := hs[0], hs[1..];
      assert hs == [h] + rest;
      if h.kind != PT_LOAD {
        assert AllPages(hs) == AllPages(rest);
        LoadAllIs(s, near, f, rest, fr, more);
      } else {
        var later := AllPages(rest) + more;
        assert PagesOf(h) + later == AllPages(hs) + more;
        ClearUnion(s, near, PagesOf(h), AllPages(rest));
        LoadSegmentIs(s, near, f, h, fr, later);
        var hr := LoadSegmentImage(s, near, f, h, fr, later);
        var t := LoadSegment(s, f, h).0;
        ClearKept(s, near, t, AllPages(rest));
        LoadAllIs(t, near, f, rest, hr, more);
        ShrinksTrans(s, near, t, LoadAll(t, f, rest).0);
      }
    }
  }

  lemma ClearUnion(s: VM, near: nat, a: set<nat>, b: set<nat>)
    ensures Clear(s, near, a + b) <==> Clear(s, near, a) && Clear(s, near, b)
  {
    hide Used;
  }

  lemma MapStackIs(s: VM, near: nat, fr: map<nat, nat>)
    requires Image(s, fr) && Reach(s, near) && Clear(s, near, StackPages()) && StackPages() !! fr.Keys
    requires s.cur < PAGES && Enough(s, near, StackPages())
    ensures s.cur < PAGES && MapStackThrough(s) == Some(MapStack(s))
    ensures Inv(MapStack(s).0) && Reach(MapStack(s).0, near)
  {
    hide Inv, FreeOk, Image, Reach, Clear, Shrinks, LoadPages, LoadPagesThrough, Enough, Extends, SameReads;
    ImageParts(s, fr);
    assert Range(STACK_PAGE, 1) == {STACK_PAGE} && Range(STACK_PAGE - 1, 1) == {STACK_PAGE - 1};
    assert StackPages() == Range(STACK_PAGE, 1) + Range(STACK_PAGE - 1, 1);
    assert Range(STACK_PAGE - 1, 1) + {} == Range(STACK_PAGE - 1, 1);
    ClearUnion(s, near, Range(STACK_PAGE, 1), Range(STACK_PAGE - 1, 1));
    var flags := PRESENT + WRITE + USER;
    var hr := LoadPagesImage(s, near, fr, STACK_PAGE, 1, flags, {STACK_PAGE - 1});
    LoadPagesIs(s, near, STACK_PAGE, 1, flags, {STACK_PAGE - 1});
    var t := LoadPages(s, STACK_PAGE, 1, flags).0;
    ImageParts(t, hr);
    ClearKept(s, near, t, Range(STACK_PAGE - 1, 1));
    LoadPagesIs(t, near, STACK_PAGE - 1, 1, flags, {});
  }

  lemma ExecIs(s: VM, near: nat, f: File, hs: seq<Header>)
    requires Image(s, map[]) && Loadable(f, hs) && PageDisjoint(hs) && s.cur < PAGES
    requires AllPages(hs) !! StackPages() && Enough(s, near, AllPages(hs) + StackPages())
    requires Reach(s, near) && Clear(s, near, AllPages(hs) + StackPages())
    ensures ExecThrough(s, f, hs) == Some(Exec(s, f, hs)) && Reach(Exec(s, f, hs).0, near)
  {
    hide LoadAll, LoadAllThrough, MapStack, MapStackThrough, Image, Enough, AllLoaded, AllPages, PageDisjoint,
         SameReads, Extends, StackPages,
         Reach, Clear, Shrinks;
    ClearUnion(s, near, AllPages(hs), StackPages());
    LoadAllIs(s, near, f, hs, map[], StackPages());
    var hr := LoadAllImage(s, near, f, hs, map[], StackPages());
    var t := LoadAll(s, f, hs).0;
    ImageParts(t, hr);
    ClearKept(s, near, t, StackPages());
    MapStackIs(t, near, hr);
  }

  /** The clusters of the file, as the FAT links them, can all be read. */
  ghost predicate FileOn(f: File, fat: seq<Word>, chain: seq<Word>) {
    && f.vol.Ok() && HoldsFat(f.disk, f.vol, fat) && FatChain(fat, f.inode, chain)
    && AllReadable(f.disk, f.vol, chain)
  }

  /** Segments that do not wrap around, and take from the file no more than its n bytes. */
  predicate FitFile(hs: seq<Header>, n: nat) {
    forall h :: h in hs && h.kind == PT_LOAD ==> NoWrap(h) && (h.filesz == 0 || h.offset + h.filesz <= n)
  }

  /** The bytes read for a segment are those of the file from its offset on. */
  lemma SegmentBytes(f: File, fat: seq<Word>, chain: seq<Word>, h: Header)
    requires FileOn(f, fat, chain)
    ensures var file := Contents(f.disk, f.vol, chain);
            && (|FileBytes(f, h)| == h.filesz <==> h.filesz == 0 || h.offset + h.filesz <= |file|)
            && (|FileBytes(f, h)| == h.filesz ==>
                  forall k :: 0 <= k < h.filesz ==> FileBytes(f, h)[k] == file[h.offset + k])
  {
    hide Contents, HoldsFat, FatChain, AllReadable, Read;
    ReadIsSlice(f.disk, f.vol, fat, f.inode, chain, h.offset, h.filesz);
  }

  lemma FitLoadable(f: File, fat: seq<Word>, chain: seq<Word>, hs: seq<Header>)
    requires FileOn(f, fat, chain)
    ensures Loadable(f, hs) <==> FitFile(hs, |Contents(f.disk, f.vol, chain)|)
  {
    hide Contents, HoldsFat, FatChain, AllReadable, FileBytes, NoWrap;
    forall h | h in hs && h.kind == PT_LOAD
      ensures |FileBytes(f, h)| == h.filesz <==>
              h.filesz == 0 || h.offset + h.filesz <= |Contents(f.disk, f.vol, chain)|
    {
      SegmentBytes(f, fat, chain, h);
    }
  }

  predicate ByteReads(t: VM, file: seq<Byte>, h: Header, k: nat)
    requires t.cur < PAGES && NoWrap(h) && (h.filesz == 0 || h.offset + h.filesz <= |file|) && k < h.memsz
  {
    VmRead(t, h.vaddr + k) == Some(if k < h.filesz then file[h.offset + k] else 0)
  }

  /** In memory, segment h is the file from its offset on for filesz bytes, and zeros from there to memsz. */
  ghost predicate SegmentReads(t: VM, file: seq<Byte>, h: Header)
    requires t.cur < PAGES && NoWrap(h) && (h.filesz == 0 || h.offset + h.filesz <= |file|)
  {
    forall k :: 0 <= k < h.memsz ==> ByteReads(t, file, h, k)
  }

  lemma LoadedReads(t: VM, f: File, fat: seq<Word>, chain: seq<Word>, h: Header)
    requires FileOn(f, fat, chain) && t.cur < PAGES && NoWrap(h) && |FileBytes(f, h)| == h.filesz && Loaded(t, f, h)
    ensures h.filesz == 0 || h.offset + h.filesz <= |Contents(f.disk, f.vol, chain)|
    ensures SegmentReads(t, Contents(f.disk, f.vol, chain), h)
  {
    hide Contents, HoldsFat, FatChain, AllReadable, FileBytes, VmRead;
    SegmentBytes(f, fat, chain, h);
    var file := Contents(f.disk, f.vol, chain);
    forall k | 0 <= k < h.memsz ensures ByteReads(t, file, h, k) {
      assert LoadedAt(t, f, h, k);
    }
  }

  /** For every file whose loadable segments are page-disjoint and keep off the kernel's directories, tables and free
      frames, and with frames enough, elf_exec faults nowhere, succeeds, and every segment reads back at once: byte
      vaddr + k is byte offset + k of the file below filesz and zero from there to memsz. Each touched page, the two
      stack pages included, has a frame of its own, which was free before, and the rights its program header asks
      for. */
  lemma ElfLoads(s: VM, near: nat, f: File, fat: seq<Word>, chain: seq<Word>, hs: seq<Header>)
    returns (frame: map<nat, nat>)
    requires Inv(s) && Reach(s, near) && FreeOk(s) && s.cur < PAGES && FileOn(f, fat, chain)
    requires FitFile(hs, |Contents(f.disk, f.vol, chain)|) && PageDisjoint(hs)
    requires AllPages(hs) !! StackPages() && Enough(s, near, AllPages(hs) + StackPages())
    requires Clear(s, near, AllPages(hs) + StackPages())
    ensures ExecThrough(s, f, hs).Some?
    ensures var (t, ok) := ExecThrough(s, f, hs).value;
            && ok && Inv(t) && Reach(t, near) && t.cur == s.cur
            && (forall h :: h in hs && h.kind == PT_LOAD ==> SegmentReads(t, Contents(f.disk, f.vol, chain), h))
            && ProgramRights(s, t, hs)
            && frame.Keys == AllPages(hs) + {0xBFFFF, 0xBFFFE}
            && (forall p :: p in frame ==> frame[p] in s.pool.free && frame[p] !in t.pool.free)
            && (forall p, q :: p in frame && q in frame && p != q ==> frame[p] != frame[q])
            && (forall x: Word :: x / PAGE in frame ==>
                Lookup(t.m, t.cur, x) == Some(frame[x / PAGE] * PAGE + x % PAGE))
  {
    hide Exec, ExecThrough, Inv, FreeOk, Enough, AllLoaded, Lookup, AllPages, PageDisjoint, Reach, Clear, Loaded,
         HoldsFat, FatChain, AllReadable, Contents, SegmentReads, FileBytes, NoWrap, ProgramRights;
    FitLoadable(f, fat, chain, hs);
    frame := ExecImage(s, near, f, hs);
    ExecIs(s, near, f, hs);
    ExecRights(s, near, f, hs);
    var t := ExecThrough(s, f, hs).value.0;
    forall h | h in hs && h.kind == PT_LOAD ensures SegmentReads(t, Contents(f.disk, f.vol, chain), h) {
      LoadedOne(t, f, hs, h);
      LoadedReads(t, f, fat, chain, h);
    }
  }

  lemma LoadedOne(t: VM, f: File, hs: seq<Header>, h: Header)
    requires t.cur < PAGES && Loadable(f, hs) && AllLoaded(t, f, hs) && h in hs && h.kind == PT_LOAD
    ensures NoWrap(h) && |FileBytes(f, h)| == h.filesz && Loaded(t, f, h)
  {
    hide Loaded, FileBytes, NoWrap;
  }

  /** All segments lie at or above 1 GB, where programs are linked. */
  ghost predicate HighSegments(hs: seq<Header>) {
    forall h :: h in hs && h.kind == PT_LOAD ==> h.vaddr >= GIGABYTE
  }

  lemma {:induction false} HighPages(hs: seq<Header>, p: nat)
    requires forall h :: h in hs && h.kind == PT_LOAD ==> NoWrap(h)
    requires HighSegments(hs) && p in AllPages(hs)
    ensures p >= LOW_FRAMES
  {
    if p !in AllPages(hs[1..]) {
      assert hs[0] in hs;
      assert p in PagesOf(hs[0]);
    } else {
      HighPages(hs[1..], p);
    }
  }

  lemma HighClear(s: VM, hs: seq<Header>)
    requires Low(s) && HighSegments(hs) && forall h :: h in hs && h.kind == PT_LOAD ==> NoWrap(h)
    ensures Clear(s, LOW_FRAMES, AllPages(hs) + StackPages())
  {
    hide Used, AllPages;
    forall p | p in AllPages(hs) + StackPages() ensures !Used(s, LOW_FRAMES, p) {
      if p in AllPages(hs) { HighPages(hs, p); }
    }
  }

  /** The program may use its pages in user mode, and write to them exactly where its headers say so, and to its
      stack. */
  ghost predicate ProgramOpen(t: VM, hs: seq<Header>)
    requires t.cur < PAGES && forall h :: h in hs && h.kind == PT_LOAD ==> NoWrap(h)
  {
    && (forall h, p :: h in hs && h.kind == PT_LOAD && p in PagesOf(h) ==> PageOpen(t, p, Asked(h)))
    && PageOpen(t, 0xBFFFF, Rights(true, true)) && PageOpen(t, 0xBFFFE, Rights(true, true))
  }

  ghost predicate PageOpen(t: VM, p: nat, r: Rights)
    requires t.cur < PAGES
  {
    p < PAGES && p * PAGE < MEM && RightsAt(t.m, t.cur, p * PAGE) == Some(r)
  }

  lemma OpenAfterBoot(s: VM, k: nat, t: nat, u: VM, hs: seq<Header>)
    requires Booted(s.m, k, t) && s.cur == k && u.cur < PAGES && HighSegments(hs)
    requires forall h :: h in hs && h.kind == PT_LOAD ==> NoWrap(h)
    requires ProgramRights(s, u, hs)
    ensures ProgramOpen(u, hs)
  {
    hide Booted, PagesOf, NoWrap, PageOpen, PageAllows;
    forall h, p | h in hs && h.kind == PT_LOAD && p in PagesOf(h) ensures PageOpen(u, p, Asked(h)) {
      HighPage(h, p);
      OpenSlot(s, k, t, u, p, Asked(h));
    }
    OpenSlot(s, k, t, u, 0xBFFFF, Rights(true, true));
    OpenSlot(s, k, t, u, 0xBFFFE, Rights(true, true));
  }

  lemma HighPage(h: Header, p: nat)
    requires NoWrap(h) && h.vaddr >= GIGABYTE && p in PagesOf(h)
    ensures p >= LOW_FRAMES
  {
  }

  lemma OpenSlot(s: VM, k: nat, t: nat, u: VM, p: nat, r: Rights)
    requires Booted(s.m, k, t) && s.cur == k && u.cur < PAGES && p >= LOW_FRAMES && PageAllows(s, u, p, r)
    ensures PageOpen(u, p, r)
  {
    hide Booted, RightsAt, Ent;
    BootEmpty(s.m, k, t, p / 1024);
  }

  /** So straight after paging_init every file linked at or above 1 GB loads, given two free frames below it for each of
      its pages. */
  lemma LoadsAfterBoot(m: Ram, pool: Pool, k: nat, t: nat, f: File, fat: seq<Word>, chain: seq<Word>, hs: seq<Header>)
    requires Booted(m, k, t) && k < LOW_FRAMES && t + 256 <= LOW_FRAMES && !(t <= k < t + 256)
    requires k !in pool.free && Range(t, 256) !! pool.free && 0 !in pool.free
    requires forall g :: g in pool.free ==> g < PAGES
    requires FileOn(f, fat, chain) && FitFile(hs, |Contents(f.disk, f.vol, chain)|) && PageDisjoint(hs)
    requires HighSegments(hs) && AllPages(hs) !! StackPages()
    requires |Below(pool, LOW_FRAMES)| >= 2 * |AllPages(hs) + StackPages()|
    ensures k < PAGES && ExecThrough(VM(m, pool, k, k, map[k := AllSlots()]), f, hs).Some?
    ensures var (u, ok) := ExecThrough(VM(m, pool, k, k, map[k := AllSlots()]), f, hs).value;
            && ok && u.cur == k
            && (forall h :: h in hs && h.kind == PT_LOAD ==> SegmentReads(u, Contents(f.disk, f.vol, chain), h))
            && ProgramOpen(u, hs)
  {
    hide ExecThrough, Booted, PageDisjoint, AllPages, StackPages, Inv, Enough, Identity, Low, Reach, Clear,
         HighSegments, SegmentReads, Contents, HoldsFat, FatChain, AllReadable, NoWrap, ProgramRights, ProgramOpen;
    var s := VM(m, pool, k, k, map[k := AllSlots()]);
    BootInv(m, pool, k, t);
    BootLow(m, pool, k, t);
    LowReach(s);
    HighClear(s, hs);
    TwiceIsEnough(s, LOW_FRAMES, AllPages(hs) + StackPages());
    var frame := ElfLoads(s, LOW_FRAMES, f, fat, chain, hs);
    OpenAfterBoot(s, k, t, ExecThrough(s, f, hs).value.0, hs);
  }

  // ---------- A program over the kernel's directory ----------

  /** One page of zeros at the address of the current directory. */
  function OverDirectory(s: VM): Header
    requires s.cur < PAGES
  {
    Header(PT_LOAD, 0, s.cur * PAGE, 0, PAGE, PF_W)
  }

  lemma OverDirectoryPages(s: VM)
    requires s.cur < PAGES - 1
    ensures var h := OverDirectory(s);
            NoWrap(h) && FirstPage(h) == s.cur && PageCount(h) == 1 && PagesOf(h) == Range(s.cur, 1) == {s.cur}
  {
  }

  /** Loading it succeeds, whatever the file, and from then on the kernel reads its own directory as empty while the
      hardware still finds a table there: the condition of ElfLoads that segments keep off the kernel's pages is
      needed. */
  lemma DirectoryLost(s: VM, near: nat, f: File, i: nat)
    requires Inv(s) && Reach(s, near) && FreeOk(s) && f.vol.Ok() && s.cur < PAGES - 1 && s.pool.free != {} && i < 1024
    ensures NoWrap(OverDirectory(s)) && LoadSegmentThrough(s, f, OverDirectory(s)).Some?
    ensures var (t, ok) := LoadSegmentThrough(s, f, OverDirectory(s)).value;
            ok && Load(t, t.cur, i) == Some(0) && Present(Ent(t.m, t.cur, SlotOf(s.cur * PAGE)))
  {
    hide Inv, Reach, FreeOk, Used, Image, Enough, LoadPages, LoadPagesThrough, WriteBytes, WriteThrough, Lookup, Ent,
         Extends, SameReads,
         VmRead, PresentSlots, Zeros;
    var h := OverDirectory(s);
    OverDirectoryPages(s);
    ReachDirs(s, near);
    OneFrame(s, near);
    var gr := LoadPagesImage(s, PAGES, map[], s.cur, 1, PageFlags(h), {});
    var t := LoadPages(s, s.cur, 1, PageFlags(h)).0;
    PageStart(s.cur);
    HasSlot(s, s.cur);
    OnePage(s, near, s.cur, PageFlags(h));
    var bytes := FileBytes(f, h);
    WriteNothing(t, h.vaddr);
    assert bytes == [];
    SegmentMapped(h, gr);
    ZerosLength(PAGE);
    MappedWrites(t, gr, h.vaddr, Zeros(PAGE));
    WriteBytesImage(t, gr, h.vaddr, Zeros(PAGE));
    var w := WriteBytes(t, h.vaddr, Zeros(PAGE));
    forall y: Word | y / PAGE == s.cur ensures VmRead(w, y) == Some(0) {
      ZeroAt(s.cur, y);
    }
    ZeroPage(w, gr, s.cur, i);
  }

  lemma WriteNothing(s: VM, v: nat)
    requires s.cur < PAGES && v <= MEM
    ensures WriteThrough(s, v, []) == Some(s) && WriteBytes(s, v, []) == s
  {
  }

  lemma ZeroAt(page: nat, y: Word)
    requires y / PAGE == page
    ensures page * PAGE <= y < page * PAGE + |Zeros(PAGE)| && Zeros(PAGE)[y - page * PAGE] == 0
  {
  }

  /** The directory's own slot has a table, so one frame is enough. */
  lemma OneFrame(s: VM, near: nat)
    requires Inv(s) && Reach(s, near) && FreeOk(s) && s.cur < PAGES && s.pool.free != {}
    ensures Image(s, map[]) && Enough(s, PAGES, Range(s.cur, 1) + {})
  {
    hide Inv, Reach, Lookup, Ent, Present, SlotOf;
    ReachDirs(s, near);
    PageStart(s.cur);
    HasSlot(s, s.cur);
    assert Range(s.cur, 1) + {} == {s.cur};
    PageAddress(s.cur, 0);
    var present := PresentSlots(s.m, s.cur);
    assert Slots({s.cur}) - present == {};
    assert Below(s.pool, PAGES) == s.pool.free;
    assert |s.pool.free| >= 1;
  }

  lemma HasSlot(s: VM, f: nat)
    requires s.cur < PAGES && f < PAGES && f * PAGE < MEM && FrameOf(s.m, s.cur, f).Some?
    ensures Present(Ent(s.m, s.cur, SlotOf(f * PAGE)))
  {
  }

  lemma OnePage(s: VM, near: nat, page: nat, flags: nat)
    requires s.cur < PAGES && page < PAGES && !NeedsTable(s, page * PAGE) && Inv(s) && Reach(s, near) && FreeOk(s)
    requires s.cur < PAGES && page < PAGES && flags < PAGE && s.pool.free != {}
    ensures LoadPagesThrough(s, page, 1, flags) == Some(LoadPages(s, page, 1, flags))
  {
    hide Inv, Reach, Used, Alloc, MapThrough, MapPage;
    var u := s.(pool := Alloc(s.pool).0);
    AllocShrinks(s.pool);
    PoolInv(s, u);
    FewerFree(s, near, u);
    MapThroughIs(u, near, page * PAGE, Alloc(s.pool).1, flags);
  }

  lemma {:induction false} MappedWrites(s: VM, fr: map<nat, nat>, v: nat, bytes: seq<Byte>)
    requires Image(s, fr) && v + |bytes| <= MEM && forall y: nat :: v <= y < v + |bytes| ==> y / PAGE in fr
    ensures s.cur < PAGES && WriteThrough(s, v, bytes) == Some(WriteBytes(s, v, bytes))
    decreases |bytes|
  {
    hide Image, Lookup, PresentSlots, VmRead;
    ImageCur(s, fr);
    if bytes != [] {
      var u := VmWrite(s, v, bytes[0]);
      ImageMapped(s, fr, v);
      WriteImage(s, u, fr, v, bytes[0]);
      MappedWrites(u, fr, v + 1, bytes[1..]);
    }
  }

  lemma ZeroByte(t: VM, fr: map<nat, nat>, page: nat, r: nat)
    requires Image(t, fr) && page in fr && t.cur < PAGES && page < PAGES && r < PAGE
    requires forall y: Word :: y / PAGE == page ==> VmRead(t, y) == Some(0)
    ensures fr[page] < PAGES && t.m[fr[page] * PAGE + r] == 0
  {
    hide Lookup, Inv;
    FrameOffset(page, r);
    var y: Word := page * PAGE + r;
    assert y / PAGE == page;
    FrameOffset(fr[page], r);
    assert Lookup(t.m, t.cur, y) == Some(fr[page] * PAGE + r);
    assert VmRead(t, y) == Some(0);
  }

  lemma ZeroWord(m: Ram, f: nat, i: nat)
    requires f < PAGES && i < 1024
    requires m[f * PAGE + 4 * i] == 0 && m[f * PAGE + (4 * i + 1)] == 0
    requires m[f * PAGE + (4 * i + 2)] == 0 && m[f * PAGE + (4 * i + 3)] == 0
    ensures Ent(m, f, i) == 0
  {
  }

  /** A mapped page whose bytes all read zero has zero words. */
  lemma ZeroPage(t: VM, fr: map<nat, nat>, page: nat, i: nat)
    requires Image(t, fr) && page in fr && i < 1024 && t.cur < PAGES && page < PAGES
    requires forall y: Word :: y / PAGE == page ==> VmRead(t, y) == Some(0)
    ensures Load(t, page, i) == Some(0) && Present(Ent(t.m, t.cur, SlotOf(page * PAGE)))
  {
    hide Image, Ent, VmRead;
    ZeroByte(t, fr, page, 4 * i);
    ZeroByte(t, fr, page, 4 * i + 1);
    ZeroByte(t, fr, page, 4 * i + 2);
    ZeroByte(t, fr, page, 4 * i + 3);
    ZeroWord(t.m, fr[page], i);
    MappedFrame(t, fr, page);
    PageStart(page);
    HasSlot(t, page);
  }

  lemma MappedFrame(t: VM, fr: map<nat, nat>, page: nat)
    requires Image(t, fr) && page in fr && t.cur < PAGES && page < PAGES
    ensures FrameOf(t.m, t.cur, page) == Some(fr[page])
  {
    hide Lookup, Inv;
    PageStart(page);
    FrameOffset(fr[page], 0);
    assert Lookup(t.m, t.cur, page * PAGE) == Some(fr[page] * PAGE + 0);
  }
}
