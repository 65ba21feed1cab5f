/** Page frames as a plain set of free pages: what the bitmap of src/pmm.c stands for. */
module PmmSpec {
  import opened Machine

  const PAGES: nat := 0x10_0000
  const U64: nat := 0x1_0000_0000_0000_0000

  /** The free pages, and the two counters as the code keeps them, modulo 2^32. */
  datatype Pool = Pool(free: set<nat>, total: Word, used: Word)

  predicate Within(p: nat, start: nat, n: nat) {
    start <= p < start + n
  }

  predicate WithinWrapped(p: nat, start: nat, n: nat) {
    start <= p < start + n || start <= p + MEM < start + n
  }

  function Range(start: nat, n: nat): set<nat> {
    set p: nat | p < start + n && Within(p, start, n)
  }

  lemma {:induction false} RangeSize(start: nat, n: nat)
    ensures |Range(start, n)| == n
  {
    if n == 0 {
      assert Range(start, n) == {};
    } else {
      RangeSize(start, n - 1);
      assert Range(start, n) == Range(start, n - 1) + {start + n - 1};
    }
  }

  lemma {:induction false} SubsetSize(a: set<nat>, b: set<nat>)
    requires a <= b
    ensures |a| <= |b|
  {
    assert b == a + (b - a);
  }

  // ---------- Allocation ----------

  /** The lowest free page from `from` on, or PAGES. */
  function Lowest(free: set<nat>, from: nat): (s: nat)
    requires from <= PAGES
    ensures from <= s <= PAGES
    ensures s < PAGES ==> s in free
    ensures forall p :: from <= p < s ==> p !in free
    decreases PAGES - from
  {
    if from == PAGES || from in free then from else Lowest(free, from + 1)
  }

  predicate IsRun(free: set<nat>, start: nat, n: nat) {
    start + n <= PAGES && forall p :: start <= p < start + n ==> p in free
  }

  /** The lowest start, from `from` on, of n consecutive free pages, or PAGES. */
  function LowestRun(free: set<nat>, n: nat, from: nat): (s: nat)
    requires 0 < n && from <= PAGES
    ensures from <= s <= PAGES
    ensures s < PAGES ==> IsRun(free, s, n)
    ensures forall t :: from <= t < s ==> !IsRun(free, t, n)
    decreases PAGES - from
  {
    if from == PAGES || IsRun(free, from, n) then from else LowestRun(free, n, from + 1)
  }

  lemma LowestRunIs(free: set<nat>, n: nat, s: nat)
    requires 0 < n <= PAGES && s <= PAGES && (s == PAGES || IsRun(free, s, n))
    requires forall t :: 0 <= t < s && t + n <= PAGES ==> !IsRun(free, t, n)
    ensures LowestRun(free, n, 0) == s
  {
    assert s < PAGES ==> s + n <= PAGES;
  }

  /** pmm_alloc_page: the pool left behind and the address returned. */
  function Alloc(p: Pool): (Pool, Word) {
    var s := Lowest(p.free, 0);
    if s == PAGES then (p, 0) else (Pool(p.free - {s}, p.total, Add(p.used, 1)), s * PAGE)
  }

  /** pmm_alloc_pages(n). */
  function AllocRun(p: Pool, n: nat): (Pool, Word)
    requires n <= PAGES
  {
    if n == 0 then (p, 0) else
    var s := LowestRun(p.free, n, 0);
    if s == PAGES then (p, 0) else (Pool(p.free - Range(s, n), p.total, Add(p.used, n)), s * PAGE)
  }

  lemma AllocRunNone(p: Pool)
    ensures AllocRun(p, 0) == (p, 0)
  {
  }

  lemma AllocRunIs(p: Pool, n: nat, s: nat)
    requires 0 < n <= PAGES && s <= PAGES && (s == PAGES || IsRun(p.free, s, n))
    requires forall t :: 0 <= t < s && t + n <= PAGES ==> !IsRun(p.free, t, n)
    ensures AllocRun(p, n) ==
            if s == PAGES then (p, 0) else (Pool(p.free - Range(s, n), p.total, Add(p.used, n)), s * PAGE)
  {
    LowestRunIs(p.free, n, s);
  }

  /** pmm_free_page and pmm_free_pages: only pages that were not free count. */
  function Release(p: Pool, pages: set<nat>): Pool
    requires |pages| < MEM
  {
    SubsetSize(pages - p.free, pages);
    Pool(p.free + pages, p.total, Sub(p.used, |pages - p.free|))
  }

  /** The pages pmm_free_pages(page * PAGE, n) reaches: the index wraps around 2^32, and indices past the bitmap are
      skipped. */
  function Reached(page: nat, n: nat): set<nat> {
    set p: nat | p < PAGES && WithinWrapped(p, page, n)
  }

  /** The run scan for one page and the word-skipping scan are the same allocator. */
  lemma {:induction false} RunOfOne(p: Pool)
    ensures AllocRun(p, 1) == Alloc(p)
  {
    LowestRunOfOne(p.free, 0);
    var s := Lowest(p.free, 0);
    assert Range(s, 1) == {s};
  }

  lemma {:induction false} LowestRunOfOne(free: set<nat>, from: nat)
    requires from <= PAGES
    ensures LowestRun(free, 1, from) == Lowest(free, from)
    decreases PAGES - from
  {
    if from < PAGES {
      LowestRunOfOne(free, from + 1);
    }
  }

  /** pmm_alloc_pages(n) answers 0 exactly when there is no run of n free pages, or, by an accident of the encoding,
      when the lowest one starts at page 0. */
  lemma AllocRunFails(p: Pool, n: nat)
    requires 0 < n <= PAGES
    ensures AllocRun(p, n).1 == 0 <==> (forall s :: 0 <= s < PAGES ==> !IsRun(p.free, s, n)) || IsRun(p.free, 0, n)
  {
  }

  // ---------- The counters ----------

  /** pmm_get_free_pages tells the truth. */
  ghost predicate Conserved(p: Pool) {
    p.free <= Range(0, PAGES) && Sub(p.total, p.used) == |p.free|
  }

  lemma AllocConserves(p: Pool)
    requires Conserved(p)
    ensures Conserved(Alloc(p).0)
  {
    RangeSize(0, PAGES);
    SubsetSize(p.free, Range(0, PAGES));
  }

  lemma AllocRunConserves(p: Pool, n: nat)
    requires Conserved(p) && n <= PAGES
    ensures Conserved(AllocRun(p, n).0)
  {
    if n > 0 {
      var s := LowestRun(p.free, n, 0);
      if s < PAGES {
        RangeSize(s, n);
        RangeSize(0, PAGES);
        SubsetSize(p.free, Range(0, PAGES));
        assert Range(s, n) <= p.free;
        assert p.free == (p.free - Range(s, n)) + Range(s, n);
      }
    }
  }

  /** Even when some of the pages were free already, or were never there to begin with. */
  lemma ReleaseConserves(p: Pool, pages: set<nat>)
    requires Conserved(p) && pages <= Range(0, PAGES) && |pages| < MEM
    ensures Conserved(Release(p, pages))
  {
    var q := Release(p, pages);
    RangeSize(0, PAGES);
    SubsetSize(q.free, Range(0, PAGES));
    SubsetSize(pages - p.free, pages);
    assert q.free == p.free + (pages - p.free);
  }

  // ---------- Runs ----------

  datatype Op = Take | TakeRun(n: nat) | Give(pages: set<nat>) {
    predicate Ok() {
      match this
      case Take => true
      case TakeRun(n) => n <= PAGES
      case Give(pages) => |pages| < MEM && forall p :: p in pages ==> p < PAGES
    }
  }

  function Step(p: Pool, op: Op): Pool
    requires op.Ok()
  {
    match op
    case Take => Alloc(p).0
    case TakeRun(n) => AllocRun(p, n).0
    case Give(pages) => Release(p, pages)
  }

  function Run(p: Pool, ops: seq<Op>): Pool
    requires forall i :: 0 <= i < |ops| ==> ops[i].Ok()
    decreases |ops|
  {
    if ops == [] then p else Run(Step(p, ops[0]), ops[1..])
  }

  /** pmm_get_free_pages is the number of clear bits after any sequence of calls, double frees included. */
  lemma {:induction false} RunConserves(p: Pool, ops: seq<Op>)
    requires Conserved(p) && forall i :: 0 <= i < |ops| ==> ops[i].Ok()
    ensures Conserved(Run(p, ops))
    decreases |ops|
  {
    if ops != [] {
      match ops[0] {
        case Take => AllocConserves(p);
        case TakeRun(n) => AllocRunConserves(p, n);
        case Give(pages) => ReleaseConserves(p, pages);
      }
      RunConserves(Step(p, ops[0]), ops[1..]);
    }
  }

  /** The pages behind the address an allocation returns. */
  function Handed(p: Pool, op: Op): set<nat>
    requires op.Ok()
  {
    match op
    case Take => if Alloc(p).1 == 0 then {} else {Alloc(p).1 / PAGE}
    case TakeRun(n) => if AllocRun(p, n).1 == 0 then {} else Range(AllocRun(p, n).1 / PAGE, n)
    case Give(_) => {}
  }

  /** An allocation takes exactly the pages behind the address it returns, all of which were free; the address is that
      of a page, and no lower one would have done. */
  lemma TakesWhatItReturns(p: Pool, n: nat)
    requires 0 < n <= PAGES && AllocRun(p, n).1 != 0
    ensures var (q, addr) := AllocRun(p, n);
            && addr % PAGE == 0 && Range(addr / PAGE, n) <= p.free && q.free == p.free - Range(addr / PAGE, n)
            && q.total == p.total && q.used == Add(p.used, n)
            && forall t :: 0 <= t < addr / PAGE ==> !(Range(t, n) <= p.free)
  {
    var s := LowestRun(p.free, n, 0);
    assert Range(s, n) <= p.free;
    forall t | 0 <= t < s ensures !(Range(t, n) <= p.free) {
      assert !IsRun(p.free, t, n);
      var x :| t <= x < t + n && x !in p.free;
      assert x in Range(t, n);
    }
  }

  /** An allocation that returns 0 takes nothing, unless page 0 is free. */
  lemma TakesHanded(p: Pool, op: Op)
    requires op.Ok() && !op.Give?
    ensures Handed(p, op) <= p.free && Step(p, op).free <= p.free - Handed(p, op)
    ensures 0 !in p.free ==> Step(p, op).free == p.free - Handed(p, op)
  {
    if op.TakeRun? && op.n > 0 && AllocRun(p, op.n).1 != 0 {
      TakesWhatItReturns(p, op.n);
    }
  }

  lemma HandedFree(p: Pool, op: Op)
    requires op.Ok()
    ensures Handed(p, op) <= p.free
  {
    if !op.Give? { TakesHanded(p, op); }
  }

  lemma RunIsFree(free: set<nat>, start: nat, n: nat)
    requires IsRun(free, start, n)
    ensures Range(start, n) <= free
  {
  }

  /** Giving back what an allocation returned restores the pool, counters included. */
  lemma FreeUndoesAlloc(p: Pool, n: nat)
    requires 0 < n <= PAGES && AllocRun(p, n).1 != 0
    ensures var (q, addr) := AllocRun(p, n); |Reached(addr / PAGE, n)| < MEM && Release(q, Reached(addr / PAGE, n)) == p
  {
    hide AllocRun, Add, Sub;
    TakesWhatItReturns(p, n);
    var q, page := AllocRun(p, n).0, AllocRun(p, n).1 / PAGE;
    RunEnds(p, n);
    assert Reached(page, n) == Range(page, n);
    RangeSize(page, n);
    assert Range(page, n) - q.free == Range(page, n);
    assert q.free + Range(page, n) == p.free;
    AddSub(p.used, n);
  }

  lemma RunEnds(p: Pool, n: nat)
    requires 0 < n <= PAGES && AllocRun(p, n).1 != 0
    ensures AllocRun(p, n).1 / PAGE + n <= PAGES
  {
  }

  lemma AddSub(x: Word, n: nat)
    requires n < MEM
    ensures Sub(Add(x, n), n) == x
  {
  }

  /** A caller and the pages it holds. */
  datatype Client = Client(pool: Pool, held: set<nat>)

  /** The caller keeps the pages behind the addresses it is given, and gives back only those. */
  function ClientStep(c: Client, op: Op): Client
    requires op.Ok()
  {
    var q := Step(c.pool, op);
    Client(q, if op.Give? then c.held - op.pages else c.held + Handed(c.pool, op))
  }

  function ClientRun(c: Client, ops: seq<Op>): Client
    requires forall i :: 0 <= i < |ops| ==> ops[i].Ok()
    decreases |ops|
  {
    if ops == [] then c else ClientRun(ClientStep(c, ops[0]), ops[1..])
  }

  ghost predicate Disciplined(c: Client, ops: seq<Op>)
    requires forall i :: 0 <= i < |ops| ==> ops[i].Ok()
    decreases |ops|
  {
    ops == [] || ((ops[0].Give? ==> ops[0].pages <= c.held) && Disciplined(ClientStep(c, ops[0]), ops[1..]))
  }

  /** Pages are conserved: in every run that frees only what it holds, no page is both free and held, and none is that
      was neither at the start. Unless page 0 was free, no page is ever lost. */
  lemma {:induction false} RunPartitions(c: Client, ops: seq<Op>, start: set<nat>)
    requires forall i :: 0 <= i < |ops| ==> ops[i].Ok()
    requires Disciplined(c, ops)
    requires c.pool.free !! c.held && c.pool.free + c.held <= start
    ensures var d := ClientRun(c, ops); d.pool.free !! d.held && d.pool.free + d.held <= start
    ensures 0 !in start && c.pool.free + c.held == start ==>
              ClientRun(c, ops).pool.free + ClientRun(c, ops).held == start
    decreases |ops|
  {
    hide Handed;
    if ops != [] {
      StepPartitions(c, ops[0], start);
      RunPartitions(ClientStep(c, ops[0]), ops[1..], start);
    }
  }

  lemma StepPartitions(c: Client, op: Op, start: set<nat>)
    requires op.Ok() && (op.Give? ==> op.pages <= c.held)
    requires c.pool.free !! c.held && c.pool.free + c.held <= start
    ensures var d := ClientStep(c, op); d.pool.free !! d.held && d.pool.free + d.held <= start
    ensures 0 !in start && c.pool.free + c.held == start ==>
            ClientStep(c, op).pool.free + ClientStep(c, op).held == start
  {
    hide Handed, Alloc, AllocRun;
    if !op.Give? {
      TakesHanded(c.pool, op);
    }
  }

  /** If page 0 is free the very next allocation loses it: it is taken, and the caller is told that there is none. */
  lemma PageZeroLost(c: Client)
    requires 0 in c.pool.free && 0 !in c.held
    ensures var d := ClientStep(c, Take); 0 !in d.pool.free && 0 !in d.held && Alloc(c.pool).1 == 0
  {
  }

  // ---------- Initialisation ----------

  /** An entry of the Multiboot memory map: two 64-bit fields and a type. */
  datatype Region = Region(addr: nat, len: nat, kind: nat) {
    predicate Ok() { addr < U64 && len < U64 }
  }

  /** Address of page p is at or above both 1 MB and the end of the kernel. */
  predicate Above(p: nat, kernelEnd: Word) {
    p * PAGE >= 0x10_0000 && p * PAGE >= kernelEnd
  }

  /** Length after clipping at 4 GB; the sum is a 64-bit one. */
  function Clipped(r: Region): nat
    requires r.addr < MEM
  {
    if (r.addr + r.len) % U64 > MEM then MEM - r.addr else r.len
  }

  function StartPage(r: Region): nat {
    (r.addr + PAGE - 1) / PAGE
  }

  function EndPage(r: Region): nat
    requires r.addr < MEM
  {
    (r.addr + Clipped(r)) % U64 / PAGE
  }

  function AboveIn(lo: nat, hi: nat, kernelEnd: Word): set<nat> {
    set p | lo <= p < hi && Above(p, kernelEnd)
  }

  lemma AboveInNext(lo: nat, hi: nat, kernelEnd: Word)
    requires lo <= hi
    ensures AboveIn(lo, lo, kernelEnd) == {}
    ensures hi !in AboveIn(lo, hi, kernelEnd)
    ensures AboveIn(lo, hi + 1, kernelEnd) ==
            if Above(hi, kernelEnd) then AboveIn(lo, hi, kernelEnd) + {hi} else AboveIn(lo, hi, kernelEnd)
  {
  }

  /** The pages pmm_init frees for one entry. */
  function RegionPages(r: Region, kernelEnd: Word): set<nat> {
    if r.kind == 1 && r.addr < MEM then
      AboveIn(StartPage(r), EndPage(r), kernelEnd)
    else
      {}
  }

  /** The pages it is meant to free: those lying wholly inside an available region, below 4 GB and clear of the
      kernel. */
  function AvailablePages(r: Region, kernelEnd: Word): set<nat> {
    set p: nat | p < PAGES && Available(r, kernelEnd, p)
  }

  predicate Available(r: Region, kernelEnd: Word, p: nat) {
    && r.kind == 1 && r.addr <= p * PAGE && (p + 1) * PAGE <= r.addr + r.len
    && 0x10_0000 <= p * PAGE && kernelEnd <= p * PAGE
  }

  lemma EndPageBound(r: Region)
    requires r.Ok() && r.addr < MEM
    ensures EndPage(r) <= PAGES
    ensures r.addr + r.len < U64 ==> EndPage(r) == (if r.addr + r.len > MEM then MEM else r.addr + r.len) / PAGE
    ensures r.addr + r.len >= U64 ==> EndPage(r) <= StartPage(r)
  {
  }

  /** The two agree exactly when the 64-bit end of the region does not wrap around, or there was no page to free
      anyway. */
  lemma RegionExact(r: Region, kernelEnd: Word)
    requires r.Ok()
    ensures RegionPages(r, kernelEnd) <= AvailablePages(r, kernelEnd)
    ensures RegionPages(r, kernelEnd) == AvailablePages(r, kernelEnd) <==>
            r.kind != 1 || r.addr + r.len < U64 || r.addr > MEM - PAGE || kernelEnd > MEM - PAGE
  {
    var code, meant := RegionPages(r, kernelEnd), AvailablePages(r, kernelEnd);
    if r.kind == 1 && r.addr < MEM {
      EndPageBound(r);
      if r.addr + r.len < U64 {
        assert code == meant;
      } else {
        assert code == {};
        if r.addr <= MEM - PAGE && kernelEnd <= MEM - PAGE {
          assert PAGES - 1 in meant;
        } else {
          assert meant == {};
        }
      }
    }
  }

  /** Free pages after the memory map has been walked. */
  function InitFree(rs: seq<Region>, kernelEnd: Word): set<nat> {
    if rs == [] then {} else InitFree(rs[..|rs| - 1], kernelEnd) + RegionPages(rs[|rs| - 1], kernelEnd)
  }

  /** How often total_pages was incremented. */
  function InitCount(rs: seq<Region>, kernelEnd: Word): nat {
    if rs == [] then 0 else InitCount(rs[..|rs| - 1], kernelEnd) + |RegionPages(rs[|rs| - 1], kernelEnd)|
  }

  /** After pmm_init a page is free iff it lies wholly inside some available region, below 4 GB and clear of the
      kernel. */
  lemma {:induction false} InitExact(rs: seq<Region>, kernelEnd: Word, p: nat)
    requires forall r :: r in rs ==> r.Ok() && r.addr + r.len < U64
    ensures p in InitFree(rs, kernelEnd) <==> exists r :: r in rs && p in AvailablePages(r, kernelEnd)
  {
    if rs != [] {
      var n := |rs| - 1;
      assert rs == rs[..n] + [rs[n]];
      InitExact(rs[..n], kernelEnd, p);
      RegionExact(rs[n], kernelEnd);
    }
  }

  ghost predicate PairwiseDisjoint(rs: seq<Region>, kernelEnd: Word) {
    forall i, j :: 0 <= i < j < |rs| ==> RegionPages(rs[i], kernelEnd) !! RegionPages(rs[j], kernelEnd)
  }

  lemma {:induction false} InitFreeElement(rs: seq<Region>, kernelEnd: Word, p: nat)
    ensures p in InitFree(rs, kernelEnd) <==> exists i :: 0 <= i < |rs| && p in RegionPages(rs[i], kernelEnd)
  {
    if rs != [] {
      InitFreeElement(rs[..|rs| - 1], kernelEnd, p);
    }
  }

  /** total_pages counts the free pages exactly when no page was counted twice. */
  lemma {:induction false} InitCounts(rs: seq<Region>, kernelEnd: Word)
    ensures |InitFree(rs, kernelEnd)| <= InitCount(rs, kernelEnd)
    ensures |InitFree(rs, kernelEnd)| == InitCount(rs, kernelEnd) <==> PairwiseDisjoint(rs, kernelEnd)
  {
    if rs != [] {
      var n := |rs| - 1;
      hide RegionPages, PairwiseDisjoint;
      var f, g := InitFree(rs[..n], kernelEnd), RegionPages(rs[n], kernelEnd);
      InitCounts(rs[..n], kernelEnd);
      assert f + g == f + (g - f);
      assert g == (g - f) + (g * f);
      assert f !! g <==> g * f == {};
      LastDisjoint(rs, kernelEnd);
    }
  }

  lemma LastDisjoint(rs: seq<Region>, kernelEnd: Word)
    requires rs != []
    ensures var n := |rs| - 1;
            PairwiseDisjoint(rs, kernelEnd) <==>
            PairwiseDisjoint(rs[..n], kernelEnd) && InitFree(rs[..n], kernelEnd) !! RegionPages(rs[n], kernelEnd)
  {
    var n := |rs| - 1;
    var f, g := InitFree(rs[..n], kernelEnd), RegionPages(rs[n], kernelEnd);
    forall p ensures p in f <==> exists i :: 0 <= i < n && p in RegionPages(rs[i], kernelEnd) {
      InitFreeElement(rs[..n], kernelEnd, p);
    }
    if PairwiseDisjoint(rs, kernelEnd) {
      assert f !! g;
    }
    if f !! g {
      forall i | 0 <= i < n ensures RegionPages(rs[i], kernelEnd) !! g {
        assert forall p :: p in RegionPages(rs[i], kernelEnd) ==> p in f;
      }
    }
  }

  /** So pmm_get_free_pages starts out right when the usable parts of the regions are disjoint, and only then, unless
      the pages counted twice add up to a multiple of 2^32, which takes at least 4096 entries. */
  lemma InitConserved(rs: seq<Region>, kernelEnd: Word)
    requires forall r :: r in rs ==> r.Ok()
    ensures var p := Pool(InitFree(rs, kernelEnd), Wrap(InitCount(rs, kernelEnd)), 0);
            && (PairwiseDisjoint(rs, kernelEnd) ==> Conserved(p))
            && (Conserved(p) && |rs| < 4096 ==> PairwiseDisjoint(rs, kernelEnd))
  {
    hide InitFree, InitCount, PairwiseDisjoint, Range, Wrap;
    InitCounts(rs, kernelEnd);
    InitBounds(rs, kernelEnd);
    RangeSize(0, PAGES);
    SubsetSize(InitFree(rs, kernelEnd), Range(0, PAGES));
    WrapAdd(InitCount(rs, kernelEnd), 0);
  }

  lemma {:induction false} InitBounds(rs: seq<Region>, kernelEnd: Word)
    requires forall r :: r in rs ==> r.Ok()
    ensures InitFree(rs, kernelEnd) <= Range(0, PAGES)
    ensures InitCount(rs, kernelEnd) <= PAGES * |rs|
    ensures |rs| < 4096 ==> InitCount(rs, kernelEnd) < MEM
  {
    if rs != [] {
      var n := |rs| - 1;
      var r := rs[n];
      InitBounds(rs[..n], kernelEnd);
      if r.addr < MEM {
        EndPageBound(r);
      }
      assert RegionPages(r, kernelEnd) <= Range(0, PAGES);
      RangeSize(0, PAGES);
      SubsetSize(RegionPages(r, kernelEnd), Range(0, PAGES));
    }
  }

  lemma {:induction false} InitWithin(rs: seq<Region>, kernelEnd: Word, p: nat)
    requires forall r :: r in rs ==> r.Ok()
    requires p in InitFree(rs, kernelEnd)
    ensures Above(p, kernelEnd) && exists r :: r in rs && p in AvailablePages(r, kernelEnd)
  {
    InitFreeElement(rs, kernelEnd, p);
    var i :| 0 <= i < |rs| && p in RegionPages(rs[i], kernelEnd);
    RegionExact(rs[i], kernelEnd);
    assert rs[i] in rs;
  }

  /** In every run from pmm_init that frees only what it was given, whatever the memory map says, each page either
      allocator hands out is held by nobody, lies wholly inside an available region, and is at or above 1 MB and the end
      of the kernel. */
  lemma AllocationsSafe(rs: seq<Region>, kernelEnd: Word, total: Word, ops: seq<Op>, op: Op, page: nat)
    requires forall r :: r in rs ==> r.Ok()
    requires forall i :: 0 <= i < |ops| ==> ops[i].Ok()
    requires Disciplined(Client(Pool(InitFree(rs, kernelEnd), total, 0), {}), ops)
    requires op.Ok() && page in Handed(ClientRun(Client(Pool(InitFree(rs, kernelEnd), total, 0), {}), ops).pool, op)
    ensures page !in ClientRun(Client(Pool(InitFree(rs, kernelEnd), total, 0), {}), ops).held
    ensures page * PAGE >= 0x10_0000 && page * PAGE >= kernelEnd
    ensures exists r :: r in rs && page in AvailablePages(r, kernelEnd)
  {
    hide InitFree, Disciplined, ClientRun, AvailablePages, Handed;
    var c := Client(Pool(InitFree(rs, kernelEnd), total, 0), {});
    RunPartitions(c, ops, c.pool.free);
    var d := ClientRun(c, ops);
    HandedFree(d.pool, op);
    InitWithin(rs, kernelEnd, page);
  }
}
