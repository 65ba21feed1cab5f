/** What kmain does before the first process (src/kernel.c): paging_init, 256 frames for the heap, mapped one by one at
    0xC0000000, heap_init. It leaves everything as module Spaces wants it, with room for the heap to grow to
    0xC0400000. */
module Start {
  import opened Machine
  import opened PmmSpec
  import opened Memory
  import opened PagingSpec
  import opened Mmu
  import opened ElfSpec
  import K = Kernel
  import P = Paging
  import S = SchedSpec
  import V = Virtual
  import W = Switch
  import X = Spaces
  import G = Growth

  const HEAP_START: Word := 0xC000_0000
  const HEAP_PAGES: nat := 256
  const FIRST_PAGE: nat := 0xC_0000

  function HeapPage(i: nat): Word
    requires i < HEAP_PAGES
  {
    HEAP_START + i * PAGE
  }

  lemma HeapPageIs(i: nat)
    requires i < HEAP_PAGES
    ensures HeapPage(i) / PAGE == FIRST_PAGE + i && SlotOf(HeapPage(i)) == 768 && HeapPage(i) >= GIGABYTE
  {
  }

  /** The loop: page i of the heap is mapped to frame phys + i. */
  function MapHeap(s: VM, phys: nat, n: nat): Option<VM>
    requires n <= HEAP_PAGES && phys + n <= PAGES
  {
    if n == 0 then Some(s) else
    match MapHeap(s, phys, n - 1)
    case None => None
    case Some(u) =>
      if u.cur >= PAGES then None else MapThrough(u, HeapPage(n - 1), (phys + n - 1) * PAGE, PRESENT + WRITE)
  }

  lemma {:induction false} FaultStays(s: VM, phys: nat, i: nat, n: nat)
    requires i <= n <= HEAP_PAGES && phys + n <= PAGES && MapHeap(s, phys, i) == None
    ensures MapHeap(s, phys, n) == None
    decreases n
  {
    hide MapThrough;
    if i < n {
      FaultStays(s, phys, i, n - 1);
    }
  }

  /** The loop of kmain; false if it faults. */
  method MapKernelHeap(paging: P.Paging, phys: nat) returns (ok: bool)
    requires paging.Valid() && phys + HEAP_PAGES <= PAGES
    modifies paging.ram, paging.pmm, paging.pmm.bitmap
    ensures paging.Valid() && Did(MapHeap(old(paging.State()), phys, HEAP_PAGES), ok, paging.State())
  {
    hide MapThrough;
    var i := 0;
    while i < HEAP_PAGES
      invariant i <= HEAP_PAGES && paging.Valid() && MapHeap(old(paging.State()), phys, i) == Some(paging.State())
    {
      ghost var s := paging.State();
      ok := paging.MapPage(HeapPage(i), (phys + i) * PAGE, PRESENT + WRITE);
      if !ok {
        FaultStays(old(paging.State()), phys, i + 1, HEAP_PAGES);
        return;
      }
      i := i + 1;
    }
    ok := true;
  }

  predicate IsHeapPage(n: nat, p: nat) {
    FIRST_PAGE <= p < FIRST_PAGE + n
  }

  function FrameFor(phys: nat, p: nat): nat {
    if p < FIRST_PAGE then p else phys + (p - FIRST_PAGE)
  }

  /** The kernel image lies where it is loaded, the first n heap pages from phys on. */
  function Frames(image: set<nat>, phys: nat, n: nat): map<nat, nat> {
    map p | p in image + (set q: nat | q < FIRST_PAGE + n && IsHeapPage(n, q)) :: FrameFor(phys, p)
  }

  ghost predicate Ready(s: VM, image: set<nat>, phys: nat, n: nat) {
    && Inv(s) && Identity(s) && Low(s) && FreeOk(s) && s.base.Keys == {s.kpd} && s.cur == s.kpd && s.kpd < PAGES
    && DataFrames(s, Frames(image, phys, HEAP_PAGES)) && X.Everywhere(s, Frames(image, phys, n))
    && (n > 0 ==> Present(Ent(s.m, s.kpd, 768)))
  }

  /** One turn of the loop. */
  lemma MapsOne(s: VM, image: set<nat>, phys: nat, n: nat)
    requires Ready(s, image, phys, n) && n < HEAP_PAGES && phys + HEAP_PAGES <= PAGES
    requires n == 0 ==> Near(s.pool, LOW_FRAMES) && Alloc(s.pool).1 != 0
    ensures MapThrough(s, HeapPage(n), (phys + n) * PAGE, PRESENT + WRITE).Some?
    ensures Ready(MapThrough(s, HeapPage(n), (phys + n) * PAGE, PRESENT + WRITE).value, image, phys, n + 1)
  {
    hide Inv, Identity, Reach, Used, FreeOk, DataFrames, X.Everywhere, Ent, Present, MapThrough, MapPage, EnsureTable,
         Alloc, Near, SlotOf, Frames;
    var v, p: Word, flags := HeapPage(n), (phys + n) * PAGE, PRESENT + WRITE;
    HeapPageIs(n);
    LowReach(s);
    MapThroughIs(s, LOW_FRAMES, v, p, flags);
    HasTableNow(s, v, flags);
    MapStays(s, LOW_FRAMES, v, p, flags);
    MapPageInv(s, v, p, flags);
    X.MapKeeps(s, v, p, flags);
    X.MapData(s, Frames(image, phys, HEAP_PAGES), v, p, flags);
    StepIdentity(s, PagingSpec.Map(v, p, flags));
    SlotFilled(s, v, p, flags);
    OneMore(s, image, phys, n);
  }

  lemma HasTableNow(s: VM, v: Word, flags: nat)
    requires s.cur < PAGES && flags < PAGE && (Present(Ent(s.m, s.cur, SlotOf(v))) || Alloc(s.pool).1 != 0)
    ensures EnsureTable(s, SlotOf(v), flags).Some?
  {
  }

  lemma SlotFilled(s: VM, v: Word, p: Word, flags: nat)
    requires Inv(s) && s.cur == s.kpd && s.kpd < PAGES && flags < PAGE && EnsureTable(s, SlotOf(v), flags).Some?
    ensures Present(Ent(MapPage(s, v, p, flags).m, s.kpd, SlotOf(v)))
  {
    hide Ent, EnsureTable, MapPage, TablesOk, Separate, Inherited, SlotOf;
    MapPageTables(s, v, p, flags, s.kpd, SlotOf(v));
  }

  lemma OneMore(s: VM, image: set<nat>, phys: nat, n: nat)
    requires Inv(s) && s.base.Keys == {s.kpd} && s.cur == s.kpd && s.kpd < PAGES
    requires X.Everywhere(s, Frames(image, phys, n))
    requires n < HEAP_PAGES && phys + HEAP_PAGES <= PAGES
    requires EnsureTable(s, SlotOf(HeapPage(n)), PRESENT + WRITE).Some?
    ensures X.Everywhere(MapPage(s, HeapPage(n), (phys + n) * PAGE, PRESENT + WRITE), Frames(image, phys, n + 1))
  {
    hide Inv, EnsureTable, MapPage, FrameOf, SlotOf;
    var v, a: Word, flags, fr := HeapPage(n), (phys + n) * PAGE, PRESENT + WRITE, Frames(image, phys, n + 1);
    HeapPageIs(n);
    X.MapKeeps(s, v, a, flags);
    var t := MapPage(s, v, a, flags);
    forall d, p: nat | d in t.base && p in fr ensures d < PAGES && p < PAGES && FrameOf(t.m, d, p) == Some(fr[p]) {
      assert p == FIRST_PAGE + n || p in Frames(image, phys, n);
      SeesSelf(s, SlotOf(v));
      MappedPage(s, v, a, flags, d, p);
    }
  }

  /** The whole loop: nothing faults, given one low frame for the heap's table. */
  lemma {:induction false} MapsAll(s: VM, image: set<nat>, phys: nat, n: nat)
    requires Ready(s, image, phys, 0) && n <= HEAP_PAGES && phys + HEAP_PAGES <= PAGES
    requires Near(s.pool, LOW_FRAMES) && Alloc(s.pool).1 != 0
    ensures MapHeap(s, phys, n).Some? && Ready(MapHeap(s, phys, n).value, image, phys, n)
    ensures MapHeap(s, phys, n).value.kpd == s.kpd
  {
    hide Near, Alloc, MapThrough, Ready;
    if n > 0 {
      MapsAll(s, image, phys, n - 1);
      var u := MapHeap(s, phys, n - 1).value;
      ReadyCur(u, image, phys, n - 1);
      MapsOne(u, image, phys, n - 1);
      MapsSame(u, image, phys, n - 1);
    }
  }

  lemma ReadyCur(s: VM, image: set<nat>, phys: nat, n: nat)
    requires Ready(s, image, phys, n)
    ensures s.cur < PAGES
  {
  }

  lemma MapsSame(s: VM, image: set<nat>, phys: nat, n: nat)
    requires Ready(s, image, phys, n) && n < HEAP_PAGES && phys + HEAP_PAGES <= PAGES
    requires n == 0 ==> Near(s.pool, LOW_FRAMES) && Alloc(s.pool).1 != 0
    requires MapThrough(s, HeapPage(n), (phys + n) * PAGE, PRESENT + WRITE).Some?
    ensures MapThrough(s, HeapPage(n), (phys + n) * PAGE, PRESENT + WRITE).value.kpd == s.kpd
  {
    hide Inv, Identity, Reach, Used, FreeOk, DataFrames, X.Everywhere, Ent, Present, MapThrough, Alloc, Near, SlotOf,
         Frames;
    HeapPageIs(n);
    LowReach(s);
    MapThroughIs(s, LOW_FRAMES, HeapPage(n), (phys + n) * PAGE, PRESENT + WRITE);
  }

  /** Frame f is in use, and not for page tables. */
  ghost predicate Reserved(pool: Pool, k: nat, t: nat, f: nat) {
    f < PAGES && f !in pool.free && f != k && !(t <= f < t + 256)
  }

  /** paging_init has run; the image is in the first gigabyte; image and heap frames are in use, and different. */
  ghost predicate BeforeHeap(m: Ram, pool: Pool, k: nat, t: nat, image: set<nat>, phys: nat) {
    && Booted(m, k, t) && k < LOW_FRAMES && t + 256 <= LOW_FRAMES && !(t <= k < t + 256)
    && k !in pool.free && Range(t, 256) !! pool.free && 0 !in pool.free && (forall f :: f in pool.free ==> f < PAGES)
    && phys + HEAP_PAGES <= PAGES
    && (forall p :: p in image ==> p < LOW_FRAMES && Reserved(pool, k, t, p) && !(phys <= p < phys + HEAP_PAGES))
    && (forall f: nat :: phys <= f < phys + HEAP_PAGES ==> Reserved(pool, k, t, f))
  }

  lemma BootReady(m: Ram, pool: Pool, k: nat, t: nat, image: set<nat>, phys: nat)
    requires BeforeHeap(m, pool, k, t, image, phys)
    ensures Ready(VM(m, pool, k, k, map[k := AllSlots()]), image, phys, 0)
  {
    hide Identity, Low, Lookup, Inv, Booted, DataFrames;
    var s := VM(m, pool, k, k, map[k := AllSlots()]);
    BootInv(m, pool, k, t);
    BootLow(m, pool, k, t);
    BootData(m, pool, k, t, image, phys);
    var fr := Frames(image, phys, 0);
    forall d, p: nat | d in s.base && p in fr ensures d < PAGES && p < PAGES && FrameOf(s.m, d, p) == Some(fr[p]) {
      IdentityPage(s, d, p);
    }
  }

  lemma IdentityPage(s: VM, d: nat, p: nat)
    requires Identity(s) && d in s.base && d < PAGES && p < LOW_FRAMES
    ensures FrameOf(s.m, d, p) == Some(p)
  {
    hide Lookup;
    PageStart(p);
    assert p * PAGE < GIGABYTE;
  }

  lemma BootData(m: Ram, pool: Pool, k: nat, t: nat, image: set<nat>, phys: nat)
    requires BeforeHeap(m, pool, k, t, image, phys)
    ensures DataFrames(VM(m, pool, k, k, map[k := AllSlots()]), Frames(image, phys, HEAP_PAGES))
  {
    hide Ent;
    var s, fr := VM(m, pool, k, k, map[k := AllSlots()]), Frames(image, phys, HEAP_PAGES);
    forall p | p in fr ensures p < PAGES && Reserved(pool, k, t, fr[p]) {
      assert p in image || IsHeapPage(HEAP_PAGES, p);
    }
    forall d, i, p | Live(s, d, i) && p in fr ensures Table(s, d, i) != fr[p] {
      BootTable(m, pool, k, t, i);
    }
  }

  lemma BootTable(m: Ram, pool: Pool, k: nat, t: nat, i: nat)
    requires Booted(m, k, t) && Live(VM(m, pool, k, k, map[k := AllSlots()]), k, i)
    ensures k < PAGES && t <= Table(VM(m, pool, k, k, map[k := AllSlots()]), k, i) < t + 256
  {
    hide Ent;
    NotPresentZero();
  }

  /** After the loop the tables are as module Spaces wants them, with the heap's limit at the end of its slot. */
  lemma TablesFitAtStart(c: X.Config, m: Ram, pool: Pool, k: nat, t: nat, phys: nat)
    requires X.ConfigOk(c) && c.k.lo == HEAP_START && c.limit == G.SLOT_END && c.near == LOW_FRAMES
    requires BeforeHeap(m, pool, k, t, c.image, phys) && Near(pool, LOW_FRAMES) && Alloc(pool).1 != 0
    ensures var r := MapHeap(VM(m, pool, k, k, map[k := AllSlots()]), phys, HEAP_PAGES);
            && r.Some? && r.value.cur == r.value.kpd == k
            && X.VmOk(c, r.value, Frames(c.image, phys, HEAP_PAGES), HEAP_START + HEAP_PAGES * PAGE)
  {
    hide BeforeHeap, Near, Alloc, MapHeap, X.ConfigOk, Inv, Identity, Low, FreeOk, DataFrames, X.Everywhere, Ent, Reach,
         X.Growable;
    BootReady(m, pool, k, t, c.image, phys);
    HeapFrames(m, pool, k, t, c.image, phys);
    var s := VM(m, pool, k, k, map[k := AllSlots()]);
    MapsAll(s, c.image, phys, HEAP_PAGES);
    var u := MapHeap(s, phys, HEAP_PAGES).value;
    LowReach(u);
    forall p: nat | X.InHeap(c, c.limit, p) ensures X.Growable(u, c.near, p) {
      G.FirstLimit(u, p);
    }
    AllPages(c, phys);
  }

  lemma HeapFrames(m: Ram, pool: Pool, k: nat, t: nat, image: set<nat>, phys: nat)
    requires BeforeHeap(m, pool, k, t, image, phys)
    ensures phys + HEAP_PAGES <= PAGES
  {
  }

  lemma AllPages(c: X.Config, phys: nat)
    requires c.k.lo == HEAP_START
    ensures Frames(c.image, phys, HEAP_PAGES).Keys == c.image + X.HeapPages(c, HEAP_START + HEAP_PAGES * PAGE)
  {
    var fr, hi := Frames(c.image, phys, HEAP_PAGES), HEAP_START + HEAP_PAGES * PAGE;
    forall p ensures p in fr.Keys <==> p in c.image + X.HeapPages(c, hi) {
      assert p >= 0 ==> (X.InHeap(c, hi, p) <==> IsHeapPage(HEAP_PAGES, p));
    }
  }

  /** So when process_init has run, every run from there on is safe (Spaces.EverySwitchIsSafe). */
  lemma KernelStarts(c: X.Config, z: X.State, m: Ram, pool: Pool, k: nat, t: nat, phys: nat)
    requires X.ConfigOk(c) && c.k.lo == HEAP_START && c.limit == G.SLOT_END && c.near == LOW_FRAMES
    requires BeforeHeap(m, pool, k, t, c.image, phys) && Near(pool, LOW_FRAMES) && Alloc(pool).1 != 0
    requires MapHeap(VM(m, pool, k, k, map[k := AllSlots()]), phys, HEAP_PAGES) == Some(z.vm)
    requires z.fr == Frames(c.image, phys, HEAP_PAGES) && X.FramesExist(z.fr)
    requires S.Booted(z.k.y) && FrameNo(K.Dir(z.k.y.sched, 0)) == k
    requires K.HeapOk(c.k, z.k.h) && z.k.h.hi == HEAP_START + HEAP_PAGES * PAGE
    requires z.k.w.cur == 0 && z.k.w.saved == map[] && z.k.w.areas == map[0 := c.k.boot]
    requires z.cpu == W.Cpu(z.k.w.cpu.r, z.cpu.m) && V.Agree(z.cpu.m, z.k.w.cpu.m, z.fr)
    ensures X.Inv(c, z)
  {
    hide X.ConfigOk, BeforeHeap, Near, Alloc, MapHeap, Frames, X.VmOk, V.Agree, S.Booted, K.HeapOk, X.Inv;
    TablesFitAtStart(c, m, pool, k, t, phys);
    X.StartInv(c, z);
  }
}
