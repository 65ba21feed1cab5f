/** The page-frame bitmap of src/pmm.c. */
module Pmm {
  import opened Machine
  import opened Bits
  import opened PmmSpec

  const BITMAP_SIZE: nat := 32768

  /** Page p is free when its bit is clear. */
  predicate Clear(b: seq<bv32>, p: nat)
    requires |b| == BITMAP_SIZE && p < PAGES
  {
    !Test(b[p / 32], p % 32)
  }

  function FreeSet(b: seq<bv32>): set<nat>
    requires |b| == BITMAP_SIZE
  {
    set p: nat | p < PAGES && Clear(b, p)
  }

  function SetBit(b: seq<bv32>, p: nat): (r: seq<bv32>)
    requires |b| == BITMAP_SIZE && p < PAGES
    ensures |r| == BITMAP_SIZE
  {
    b[p / 32 := Or(b[p / 32], Mask(p % 32))]
  }

  function ClearBit(b: seq<bv32>, p: nat): (r: seq<bv32>)
    requires |b| == BITMAP_SIZE && p < PAGES
    ensures |r| == BITMAP_SIZE
  {
    b[p / 32 := AndNot(b[p / 32], Mask(p % 32))]
  }

  /** Setting or clearing the bit of p changes p and no other page. */
  lemma OneBit(b: seq<bv32>, p: nat)
    requires |b| == BITMAP_SIZE && p < PAGES
    ensures FreeSet(SetBit(b, p)) == FreeSet(b) - {p}
    ensures FreeSet(ClearBit(b, p)) == FreeSet(b) + {p}
  {
    hide Clear, SetBit, ClearBit;
    forall q: nat | q < PAGES
      ensures Clear(SetBit(b, p), q) <==> Clear(b, q) && q != p
      ensures Clear(ClearBit(b, p), q) <==> Clear(b, q) || q == p
    {
      OneBitAt(b, p, q);
    }
  }

  lemma OneBitAt(b: seq<bv32>, p: nat, q: nat)
    requires |b| == BITMAP_SIZE && p < PAGES && q < PAGES
    ensures Clear(SetBit(b, p), q) <==> Clear(b, q) && q != p
    ensures Clear(ClearBit(b, p), q) <==> Clear(b, q) || q == p
  {
    hide Test, Mask, Or, AndNot;
    if p / 32 == q / 32 {
      BitOps(b[p / 32], p % 32, q % 32);
    }
  }

  /** A word of all ones hides no free page; any other word shows one. */
  lemma WordFull(b: seq<bv32>, i: nat)
    requires |b| == BITMAP_SIZE && i < BITMAP_SIZE
    ensures b[i] == 0xFFFF_FFFF <==> forall q :: i * 32 <= q < i * 32 + 32 ==> !Clear(b, q)
  {
    hide Test;
    SomeClear(b[i]);
    if b[i] == 0xFFFF_FFFF {
      forall q | i * 32 <= q < i * 32 + 32 ensures !Clear(b, q) {
        assert q / 32 == i;
      }
    } else {
      var j: nat :| j < 32 && !Test(b[i], j);
      assert (i * 32 + j) / 32 == i && (i * 32 + j) % 32 == j;
      assert Clear(b, i * 32 + j);
    }
  }

  lemma WordFullSet(b: seq<bv32>, i: nat)
    requires |b| == BITMAP_SIZE && i < BITMAP_SIZE
    ensures b[i] == 0xFFFF_FFFF <==> forall q :: i * 32 <= q < i * 32 + 32 ==> q !in FreeSet(b)
  {
    WordFull(b, i);
    forall q | i * 32 <= q < i * 32 + 32 ensures q in FreeSet(b) <==> Clear(b, q) {
    }
  }

  class Pmm {
    const bitmap: array<bv32>
    var totalPages: Word
    var usedPages: Word

    ghost predicate Valid()
      reads this
    {
      bitmap.Length == BITMAP_SIZE
    }

    ghost function Frames(): Pool
      requires Valid()
      reads this, bitmap
    {
      Pool(FreeSet(bitmap[..]), totalPages, usedPages)
    }

    method BitmapSet(page: nat)
      requires Valid() && page < PAGES
      modifies bitmap
      ensures Frames() == Pool(old(Frames()).free - {page}, totalPages, usedPages)
    {
      OneBit(bitmap[..], page);
      bitmap[page / 32] := Or(bitmap[page / 32], Mask(page % 32));
      assert bitmap[..] == SetBit(old(bitmap[..]), page);
    }

    method BitmapClear(page: nat)
      requires Valid() && page < PAGES
      modifies bitmap
      ensures Frames() == Pool(old(Frames()).free + {page}, totalPages, usedPages)
    {
      OneBit(bitmap[..], page);
      bitmap[page / 32] := AndNot(bitmap[page / 32], Mask(page % 32));
      assert bitmap[..] == ClearBit(old(bitmap[..]), page);
    }

    method BitmapTest(page: nat) returns (used: bool)
      requires Valid() && page < PAGES
      ensures used <==> page !in Frames().free
    {
      used := Test(bitmap[page / 32], page % 32);
    }

    /** The word-skipping scan hands out the lowest free page. */
    method AllocPage() returns (addr: Word)
      requires Valid()
      modifies this, bitmap
      ensures (Frames(), addr) == Alloc(old(Frames()))
      ensures addr != 0 ==> addr / PAGE in old(Frames()).free && Frames().free == old(Frames()).free - {addr / PAGE}
    {
      hide FreeSet;
      var i := 0;
      while i < BITMAP_SIZE
        invariant 0 <= i <= BITMAP_SIZE && Frames() == old(Frames())
        invariant forall q :: 0 <= q < i * 32 ==> q !in Frames().free
      {
        WordFullSet(bitmap[..], i);
        if bitmap[i] != 0xFFFF_FFFF {
          var j := 0;
          while j < 32
            invariant 0 <= j <= 32 && Frames() == old(Frames())
            invariant forall q :: 0 <= q < i * 32 + j ==> q !in Frames().free
          {
            var page := i * 32 + j;
            var used := BitmapTest(page);
            if !used {
              BitmapSet(page);
              usedPages := Add(usedPages, 1);
              return page * PAGE;
            }
            j := j + 1;
          }
        }
        i := i + 1;
      }
      return 0;
    }

    method FreePage(addr: Word)
      requires Valid()
      modifies this, bitmap
      ensures addr / PAGE < PAGES && Frames() == Release(old(Frames()), {addr / PAGE})
    {
      var page := addr / PAGE;
      var used := BitmapTest(page);
      if used {
        BitmapClear(page);
        usedPages := Sub(usedPages, 1);
      }
      assert {page} - old(Frames()).free == if used then {page} else {};
    }

    method GetFreePages() returns (r: Word)
      requires Valid()
      ensures Conserved(Frames()) ==> r == |Frames().free|
    {
      r := Sub(totalPages, usedPages);
    }

    /** The run scan hands out the lowest n consecutive free pages. */
    method AllocPages(n: nat) returns (addr: Word)
      requires Valid() && n <= PAGES
      modifies this, bitmap
      ensures (Frames(), addr) == AllocRun(old(Frames()), n)
      ensures addr != 0 ==> Range(addr / PAGE, n) <= old(Frames()).free
      ensures addr != 0 ==> Frames().free == old(Frames()).free - Range(addr / PAGE, n)
    {
      hide FreeSet, IsRun, Range, AllocRun;
      AllocRunNone(Frames());
      if n == 0 {
        return 0;
      }
      var start := 0;
      while start <= PAGES - n
        invariant 0 <= start <= PAGES - n + 1 && Frames() == old(Frames())
        invariant forall t :: 0 <= t < start ==> !IsRun(Frames().free, t, n)
      {
        var canAlloc := TestRun(start, n);
        if canAlloc {
          AllocRunIs(Frames(), n, start);
          RunIsFree(Frames().free, start, n);
          SetRun(start, n);
          usedPages := Add(usedPages, n);
          return start * PAGE;
        }
        start := start + 1;
      }
      AllocRunIs(Frames(), n, PAGES);
      return 0;
    }

    method TestRun(start: nat, n: nat) returns (canAlloc: bool)
      requires Valid() && start + n <= PAGES
      ensures canAlloc <==> IsRun(Frames().free, start, n)
    {
      hide FreeSet;
      canAlloc := true;
      var k := 0;
      while k < n
        invariant 0 <= k <= n && canAlloc
        invariant forall p :: start <= p < start + k ==> p in Frames().free
      {
        var used := BitmapTest(start + k);
        if used {
          canAlloc := false;
          break;
        }
        k := k + 1;
      }
    }

    method SetRun(start: nat, n: nat)
      requires Valid() && start + n <= PAGES
      modifies bitmap
      ensures Frames() == Pool(old(Frames()).free - Range(start, n), totalPages, usedPages)
    {
      var k := 0;
      while k < n
        invariant 0 <= k <= n
        invariant Frames().free == old(Frames()).free - Range(start, k)
      {
        BitmapSet(start + k);
        assert Range(start, k + 1) == Range(start, k) + {start + k};
        k := k + 1;
      }
    }

    method FreePages(addr: Word, n: Word)
      requires Valid()
      modifies this, bitmap
      ensures |Reached(addr / PAGE, n)| < MEM && Frames() == Release(old(Frames()), Reached(addr / PAGE, n))
    {
      hide Release;
      var page := addr / PAGE;
      var i := 0;
      ReachedNone(old(Frames()), page);
      while i < n
        invariant 0 <= i <= n
        invariant |Reached(page, i)| < MEM && Frames() == Release(old(Frames()), Reached(page, i))
      {
        var p := Add(page, i);
        ReachedNext(old(Frames()), page, i);
        if p < PAGES {
          ReleaseSingle(Frames(), p);
          var used := BitmapTest(p);
          if used {
            BitmapClear(p);
            usedPages := Sub(usedPages, 1);
          }
        }
        i := i + 1;
      }
    }

    /** Frees the pages of one memory-map entry. */
    method InitRegion(r: Region, kernelEnd: Word)
      requires Valid() && r.Ok()
      modifies this, bitmap
      ensures Frames() == Pool(old(Frames()).free + RegionPages(r, kernelEnd),
                               Wrap(old(totalPages) + |RegionPages(r, kernelEnd)|), old(usedPages))
    {
      hide FreeSet, AboveIn, StartPage, EndPage, Wrap;
      WrapAdd(totalPages, 0);
      if r.kind == 1 && r.addr < MEM {
        var startPage, endPage := StartPage(r), EndPage(r);
        EndPageBound(r);
        if startPage < endPage {
          ClearAbove(startPage, endPage, kernelEnd);
        } else {
          NoneAbove(startPage, endPage, kernelEnd);
        }
      }
    }

    method ClearAbove(startPage: nat, endPage: nat, kernelEnd: Word)
      requires Valid() && startPage <= endPage <= PAGES
      modifies this, bitmap
      ensures var pages := AboveIn(startPage, endPage, kernelEnd);
              Frames() == Pool(old(Frames()).free + pages, Wrap(old(totalPages) + |pages|), old(usedPages))
    {
      hide FreeSet, AboveIn, Wrap;
      AboveInNext(startPage, startPage, kernelEnd);
      WrapAdd(totalPages, 0);
      var page := startPage;
      ghost var f0, pages := Frames().free, {};
      while page < endPage
        invariant startPage <= page <= endPage && pages == AboveIn(startPage, page, kernelEnd)
        invariant Frames().free == f0 + pages && usedPages == old(usedPages)
        invariant totalPages == Wrap(old(totalPages) + |pages|)
      {
        AboveInNext(startPage, page, kernelEnd);
        WrapAdd(old(totalPages) + |pages|, 0);
        if page * PAGE >= 0x10_0000 && page * PAGE >= kernelEnd {
          BitmapClear(page);
          totalPages := Add(totalPages, 1);
          UnionOne(f0, pages, page);
          pages := pages + {page};
        }
        page := page + 1;
      }
    }

    /** From the memory map: free pages and total are those of the whole map. Without one: the pages from the end of
        the kernel up to the reported size, whose byte count is a 32-bit one. */
    method Init(info: BootInfo, kernelEnd: Word)
      requires Valid() && totalPages == 0
      requires info.MemoryMap? ==> forall r :: r in info.regions ==> r.Ok()
      modifies this, bitmap
      ensures info.MemoryMap? ==>
                Frames() == Pool(InitFree(info.regions, kernelEnd), Wrap(InitCount(info.regions, kernelEnd)), 0)
      ensures info.UpperOnly? ==>
                var pages := UpperPages(info.memUpper, kernelEnd);
                Frames() == Pool(pages, Wrap(|pages|), 0)
    {
      hide FreeSet, InitFree, InitCount, UpperPages, Wrap;
      MarkAllUsed();
      WrapAdd(0, 0);
      match info {
        case MemoryMap(rs) =>
          InitMap(rs, kernelEnd);
        case UpperOnly(memUpper) =>
          InitUpper(memUpper, kernelEnd);
      }
      usedPages := 0;
    }

    method InitMap(rs: seq<Region>, kernelEnd: Word)
      requires Valid() && Frames().free == {} && totalPages == 0
      requires forall r :: r in rs ==> r.Ok()
      modifies this, bitmap
      ensures Frames().free == InitFree(rs, kernelEnd) && totalPages == Wrap(InitCount(rs, kernelEnd))
    {
      hide FreeSet, RegionPages, Wrap, InitFree, InitCount;
      WrapAdd(0, 0);
      InitNone(rs, kernelEnd);
      var k := 0;
      while k < |rs|
        invariant 0 <= k <= |rs|
        invariant Frames().free == InitFree(rs[..k], kernelEnd) && totalPages == Wrap(InitCount(rs[..k], kernelEnd))
      {
        InitNext(rs, k, kernelEnd);
        InitRegion(rs[k], kernelEnd);
        k := k + 1;
      }
      assert rs[..|rs|] == rs;
    }

    method InitUpper(memUpper: Word, kernelEnd: Word)
      requires Valid() && Frames().free == {} && totalPages == 0
      modifies this, bitmap
      ensures var pages := UpperPages(memUpper, kernelEnd);
              Frames().free == pages && totalPages == Wrap(|pages|)
    {
      hide FreeSet, Wrap;
      WrapAdd(0, 0);
      var memSize := (memUpper + 1024) * 1024 % MEM;
      var startPage, endPage := kernelEnd / PAGE, memSize / PAGE;
      var page := startPage;
      ghost var done: set<nat> := {};
      while page < endPage && page < PAGES
        invariant startPage <= page && (page <= endPage || page == startPage)
        invariant done == Range(startPage, page - startPage)
        invariant Frames().free == done && totalPages == Wrap(|done|)
      {
        WrapAdd(|done|, 0);
        BitmapClear(page);
        totalPages := Add(totalPages, 1);
        done := done + {page};
        page := page + 1;
      }
      assert done == UpperPages(memUpper, kernelEnd);
    }

    method MarkAllUsed()
      requires Valid()
      modifies bitmap
      ensures Frames() == Pool({}, totalPages, usedPages)
    {
      var i := 0;
      while i < BITMAP_SIZE
        invariant 0 <= i <= BITMAP_SIZE
        invariant forall k :: 0 <= k < i ==> bitmap[k] == 0xFFFF_FFFF
      {
        bitmap[i] := 0xFFFF_FFFF;
        i := i + 1;
      }
      NoneClear(bitmap[..]);
    }
  }

  datatype BootInfo = MemoryMap(regions: seq<Region>) | UpperOnly(memUpper: Word)

  function UpperPages(memUpper: Word, kernelEnd: Word): set<nat> {
    set p: nat | p < (memUpper + 1024) * 1024 % MEM / PAGE && Within(p, kernelEnd / PAGE, MEM)
  }

  /** Without a memory map the pages freed are the whole ones from the end of the kernel to the end of memory, exactly
      when that end is below 4 GB; the 32-bit size wraps around otherwise, and the last page is missing. */
  lemma UpperExact(memUpper: Word, kernelEnd: Word)
    requires kernelEnd % PAGE == 0
    ensures var end := (memUpper + 1024) * 1024;
            (forall p: nat :: p in UpperPages(memUpper, kernelEnd) <==>
                                kernelEnd <= p * PAGE && (p + 1) * PAGE <= end && p < PAGES) <==> end < MEM
  {
    var end, pages := (memUpper + 1024) * 1024, UpperPages(memUpper, kernelEnd);
    if end < MEM {
      forall p: nat ensures p in pages <==> kernelEnd <= p * PAGE && (p + 1) * PAGE <= end && p < PAGES {
        assert end % MEM == end;
        PageBounds(p, kernelEnd, end);
      }
    } else {
      var p := PAGES - 1;
      PageBounds(p, kernelEnd, end % MEM);
      assert p !in pages && kernelEnd <= p * PAGE && (p + 1) * PAGE <= end;
    }
  }

  lemma PageBounds(p: nat, start: nat, end: nat)
    requires start % PAGE == 0
    ensures start / PAGE <= p <==> start <= p * PAGE
    ensures p < end / PAGE <==> (p + 1) * PAGE <= end
  {
  }

  lemma InitNone(rs: seq<Region>, kernelEnd: Word)
    ensures InitFree(rs[..0], kernelEnd) == {} && InitCount(rs[..0], kernelEnd) == 0
  {
  }

  /** One more entry of the memory map. */
  lemma InitNext(rs: seq<Region>, k: nat, kernelEnd: Word)
    requires k < |rs|
    ensures InitFree(rs[..k + 1], kernelEnd) == InitFree(rs[..k], kernelEnd) + RegionPages(rs[k], kernelEnd)
    ensures Wrap(InitCount(rs[..k + 1], kernelEnd)) ==
            Wrap(Wrap(InitCount(rs[..k], kernelEnd)) + |RegionPages(rs[k], kernelEnd)|)
  {
    hide RegionPages, Wrap;
    assert rs[..k + 1][..k] == rs[..k];
    WrapAdd(InitCount(rs[..k], kernelEnd), |RegionPages(rs[k], kernelEnd)|);
  }

  lemma NoneClear(b: seq<bv32>)
    requires |b| == BITMAP_SIZE && forall k :: 0 <= k < BITMAP_SIZE ==> b[k] == 0xFFFF_FFFF
    ensures FreeSet(b) == {}
  {
    forall p: nat | p < PAGES ensures !Clear(b, p) {
      WordFull(b, p / 32);
    }
  }

  lemma UnionOne(a: set<nat>, b: set<nat>, p: nat)
    ensures a + b + {p} == a + (b + {p})
    ensures p !in b ==> |b + {p}| == |b| + 1
  {
  }

  lemma NoneAbove(lo: nat, hi: nat, kernelEnd: Word)
    requires hi <= lo
    ensures AboveIn(lo, hi, kernelEnd) == {}
  {
  }

  lemma ReachedNone(f: Pool, page: nat)
    requires page < PAGES
    ensures |Reached(page, 0)| < MEM && Release(f, Reached(page, 0)) == f
  {
    assert Reached(page, 0) == {};
    assert f.free + {} == f.free;
  }

  lemma ReachedNext(f: Pool, page: nat, i: Word)
    requires page < PAGES && i + 1 < MEM && |Reached(page, i)| < MEM
    ensures |Reached(page, i + 1)| < MEM
    ensures var p := Add(page, i);
            Release(f, Reached(page, i + 1)) ==
            if p < PAGES then Release(Release(f, Reached(page, i)), {p}) else Release(f, Reached(page, i))
  {
    var p, a, b := Add(page, i), Reached(page, i), Reached(page, i + 1);
    RangeSize(0, PAGES);
    SubsetSize(b, Range(0, PAGES));
    if p < PAGES {
      assert b == a + {p};
      ReleaseTwice(f, a, {p});
    } else {
      assert b == a;
    }
  }

  lemma ReleaseTwice(f: Pool, a: set<nat>, b: set<nat>)
    requires |a| < MEM && |b| < MEM && |a + b| < MEM
    ensures Release(Release(f, a), b) == Release(f, a + b)
  {
    assert (a + b) - f.free == (a - f.free) + (b - (f.free + a));
    SubsetSize(a - f.free, a);
    SubsetSize(b - (f.free + a), b);
    SubsetSize((a + b) - f.free, a + b);
    assert f.free + a + b == f.free + (a + b);
  }

  lemma ReleaseSingle(f: Pool, p: nat)
    ensures Release(f, {p}) == if p in f.free then f else Pool(f.free + {p}, f.total, Sub(f.used, 1))
  {
    assert {p} - f.free == if p in f.free then {} else {p};
    if p in f.free {
      assert f.free + {p} == f.free;
    }
  }
}
