/** What the allocator of src/heap.c is meant to compute, stated on plain block lists:
    no pointers, no memory. Module Heap proves the pointer code against these functions. */
module HeapSpec {
  import opened Machine

  const HEADER: nat := 16
  const MIN_BLOCK: nat := 32

  /** A block covers [addr, addr + size), header included. */
  datatype Block = Block(addr: nat, size: nat, free: bool) {
    function End(): nat { addr + size }
    function Ptr(): nat { addr + HEADER }
    predicate Ok() { size >= 24 && size % 8 == 0 }
  }

  /** The blocks tile [lo, hi) exactly, in increasing address order. */
  ghost predicate Tiles(bs: seq<Block>, lo: nat, hi: nat) {
    if bs == [] then lo == hi
    else bs[0].addr == lo && bs[0].Ok() && Tiles(bs[1..], bs[0].End(), hi)
  }

  /** No two neighbours are both free. */
  ghost predicate Coalesced(bs: seq<Block>) {
    |bs| < 2 || (!(bs[0].free && bs[1].free) && Coalesced(bs[1..]))
  }

  /** Total size of the blocks whose free flag is `free`. */
  function Sum(bs: seq<Block>, free: bool): nat {
    if bs == [] then 0 else (if bs[0].free == free then bs[0].size else 0) + Sum(bs[1..], free)
  }

  predicate Fits(b: Block, need: nat) {
    b.free && b.size >= need
  }

  function FirstFit(bs: seq<Block>, need: nat): (i: nat)
    ensures i <= |bs|
    ensures i < |bs| ==> Fits(bs[i], need)
    ensures forall j :: 0 <= j < i ==> !Fits(bs[j], need)
  {
    if bs == [] || Fits(bs[0], need) then 0 else 1 + FirstFit(bs[1..], need)
  }

  /** What is left of a block once `total` bytes are handed out of it. */
  function Pieces(b: Block, total: nat, free: bool): seq<Block> {
    if b.size >= total + MIN_BLOCK then
      [Block(b.addr, total, free), Block(b.addr + total, b.size - total, true)]
    else
      [b.(free := free)]
  }

  function Allocate(bs: seq<Block>, i: nat, total: nat): seq<Block>
    requires i < |bs|
  {
    bs[..i] + (Pieces(bs[i], total, false) + bs[i + 1..])
  }

  function Glue(x: Block, y: Block): Block {
    x.(size := x.size + y.size)
  }

  /** Absorbs the first block of b into x if it is free. */
  function MergeNext(x: Block, b: seq<Block>): (r: seq<Block>)
    ensures r != [] && r[0].addr == x.addr && r[0].free == x.free
  {
    if b != [] && b[0].free then [Glue(x, b[0])] + b[1..] else [x] + b
  }

  /** Absorbs the head of c into the last block of a if that is free. */
  function MergePrev(a: seq<Block>, c: seq<Block>): seq<Block>
    requires c != []
  {
    if a != [] && a[|a| - 1].free then a[..|a| - 1] + ([Glue(a[|a| - 1], c[0])] + c[1..]) else a + c
  }

  function Release(bs: seq<Block>, i: nat): seq<Block>
    requires i < |bs|
  {
    MergePrev(bs[..i], MergeNext(bs[i].(free := true), bs[i + 1..]))
  }

  /** Bytes a request takes from the heap, header included, when nothing wraps. */
  function Total(size: nat): (t: nat)
    ensures size + HEADER <= t < size + HEADER + 8 && t % 8 == 0
  {
    (size + 7) / 8 * 8 + HEADER
  }

  /** The list that first-fit ends up searching: grown by a page if nothing fitted and a page was to be had. */
  function Searched(bs: seq<Block>, hi: nat, size: nat, page: bool): seq<Block> {
    if FirstFit(bs, Total(size)) == |bs| && page then bs + [Block(hi, PAGE, true)] else bs
  }

  /** The block list after kmalloc(size) on a heap ending at hi, and the pointer returned. */
  function Malloc(bs: seq<Block>, hi: nat, size: nat, page: bool): (seq<Block>, nat) {
    if size == 0 then (bs, 0) else
    var s := Searched(bs, hi, size, page);
    var i := FirstFit(s, Total(size));
    if i == |s| then (s, 0) else (Allocate(s, i, Total(size)), s[i].Ptr())
  }

  /** Position of the allocated block whose payload starts at p. */
  function IndexOf(bs: seq<Block>, p: nat): (i: nat)
    ensures i <= |bs|
    ensures i < |bs| ==> !bs[i].free && bs[i].Ptr() == p
    ensures forall j :: 0 <= j < i ==> bs[j].free || bs[j].Ptr() != p
  {
    if bs == [] || (!bs[0].free && bs[0].Ptr() == p) then 0 else 1 + IndexOf(bs[1..], p)
  }

  predicate IsLive(bs: seq<Block>, p: nat) {
    IndexOf(bs, p) < |bs|
  }

  /** The block list after kfree(p) of a live p. */
  function Free(bs: seq<Block>, p: nat): seq<Block> {
    if IsLive(bs, p) then Release(bs, IndexOf(bs, p)) else bs
  }

  // ---------- Sequences ----------

  lemma Cut(bs: seq<Block>, i: nat)
    requires i < |bs|
    ensures bs == bs[..i] + ([bs[i]] + bs[i + 1..])
    ensures forall b :: b in bs <==> b in bs[..i] || b == bs[i] || b in bs[i + 1..]
  {
  }

  lemma Paste(a: seq<Block>, x: Block, b: seq<Block>)
    ensures var r := a + ([x] + b); r[..|a|] == a && r[|a|] == x && r[|a| + 1..] == b
  {
  }

  // ---------- Tiling ----------

  lemma {:induction false} TilesBounds(bs: seq<Block>, lo: nat, hi: nat)
    requires Tiles(bs, lo, hi)
    ensures lo + 24 * |bs| <= hi && (hi - lo) % 8 == 0
    ensures bs != [] ==> bs[0].addr == lo && bs[0].Ok()
  {
    if bs != [] {
      TilesBounds(bs[1..], bs[0].End(), hi);
    }
  }

  lemma {:induction false} TilesConcat(a: seq<Block>, b: seq<Block>, lo: nat, mid: nat, hi: nat)
    requires Tiles(a, lo, mid)
    ensures Tiles(a + b, lo, hi) <==> Tiles(b, mid, hi)
  {
    if a == [] {
      assert a + b == b;
    } else {
      assert (a + b)[1..] == a[1..] + b;
      TilesConcat(a[1..], b, a[0].End(), mid, hi);
    }
  }

  lemma TilesOne(x: Block, b: seq<Block>, lo: nat, hi: nat)
    ensures Tiles([x] + b, lo, hi) <==> x.addr == lo && x.Ok() && Tiles(b, x.End(), hi)
  {
    assert ([x] + b)[1..] == b;
  }

  /** Cuts a tiling at block i. */
  lemma {:induction false} TilesAt(bs: seq<Block>, i: nat, lo: nat, hi: nat)
    requires Tiles(bs, lo, hi) && i < |bs|
    ensures bs[i].Ok()
    ensures Tiles(bs[..i], lo, bs[i].addr)
    ensures Tiles(bs[i + 1..], bs[i].End(), hi)
  {
    if i > 0 {
      TilesAt(bs[1..], i - 1, bs[0].End(), hi);
      assert bs[1..][i..] == bs[i + 1..];
      assert bs[..i][1..] == bs[1..][..i - 1];
    }
  }

  lemma TilesMiddle(a: seq<Block>, m: seq<Block>, b: seq<Block>, lo: nat, p: nat, q: nat, hi: nat)
    requires Tiles(a, lo, p) && Tiles(m, p, q) && Tiles(b, q, hi)
    ensures Tiles(a + (m + b), lo, hi)
  {
    TilesConcat(m, b, p, q, hi);
    TilesConcat(a, m + b, lo, p, hi);
  }

  /** Any two blocks of a tiling are disjoint, and the tiling is in address order. */
  lemma BlocksDisjoint(bs: seq<Block>, i: nat, j: nat, lo: nat, hi: nat)
    requires Tiles(bs, lo, hi) && i < j < |bs|
    ensures lo <= bs[i].addr && bs[i].End() <= bs[j].addr && bs[j].End() <= hi
  {
    TilesAt(bs, j, lo, hi);
    TilesBounds(bs[j + 1..], bs[j].End(), hi);
    TilesAt(bs[..j], i, lo, bs[j].addr);
    TilesBounds(bs[..j][..i], lo, bs[i].addr);
    TilesBounds(bs[..j][i + 1..], bs[i].End(), bs[j].addr);
  }

  lemma WithinHeap(bs: seq<Block>, i: nat, lo: nat, hi: nat)
    requires Tiles(bs, lo, hi) && i < |bs|
    ensures lo <= bs[i].addr && bs[i].End() <= hi && bs[i].Ok()
  {
    TilesAt(bs, i, lo, hi);
    TilesBounds(bs[..i], lo, bs[i].addr);
    TilesBounds(bs[i + 1..], bs[i].End(), hi);
  }

  lemma TilesPieces(x: Block, total: nat, free: bool)
    requires x.Ok() && x.size >= total && total >= 24 && total % 8 == 0
    ensures Tiles(Pieces(x, total, free), x.addr, x.End())
  {
    var ps := Pieces(x, total, free);
    assert |ps| == 2 ==> ps[1..] == [Block(x.addr + total, x.size - total, true)];
  }

  lemma TilesMergeNext(x: Block, b: seq<Block>, hi: nat)
    requires x.Ok() && Tiles(b, x.End(), hi)
    ensures Tiles(MergeNext(x, b), x.addr, hi)
  {
    assert ([x] + b)[1..] == b;
    if b != [] {
      assert ([Glue(x, b[0])] + b[1..])[1..] == b[1..];
    }
  }

  lemma TilesMergePrev(a: seq<Block>, c: seq<Block>, lo: nat, mid: nat, hi: nat)
    requires c != [] && Tiles(a, lo, mid) && Tiles(c, mid, hi)
    ensures Tiles(MergePrev(a, c), lo, hi)
  {
    TilesConcat(a, c, lo, mid, hi);
    if a != [] {
      var n := |a| - 1;
      TilesAt(a, n, lo, mid);
      TilesBounds(a[n + 1..], a[n].End(), mid);
      var g := [Glue(a[n], c[0])] + c[1..];
      assert g[1..] == c[1..];
      TilesConcat(a[..n], g, lo, a[n].addr, hi);
    }
  }

  lemma TilesAllocate(bs: seq<Block>, i: nat, total: nat, lo: nat, hi: nat)
    requires Tiles(bs, lo, hi) && i < |bs|
    requires bs[i].size >= total >= 24 && total % 8 == 0
    ensures Tiles(Allocate(bs, i, total), lo, hi)
  {
    TilesAt(bs, i, lo, hi);
    TilesPieces(bs[i], total, false);
    TilesMiddle(bs[..i], Pieces(bs[i], total, false), bs[i + 1..], lo, bs[i].addr, bs[i].End(), hi);
  }

  lemma TilesRelease(bs: seq<Block>, i: nat, lo: nat, hi: nat)
    requires Tiles(bs, lo, hi) && i < |bs|
    ensures Tiles(Release(bs, i), lo, hi)
  {
    TilesAt(bs, i, lo, hi);
    var x := bs[i].(free := true);
    TilesMergeNext(x, bs[i + 1..], hi);
    TilesMergePrev(bs[..i], MergeNext(x, bs[i + 1..]), lo, x.addr, hi);
  }

  lemma TilesSearched(bs: seq<Block>, lo: nat, hi: nat, size: nat, page: bool)
    requires Tiles(bs, lo, hi)
    ensures var s := Searched(bs, hi, size, page);
            Tiles(s, lo, if s == bs then hi else hi + PAGE)
  {
    var n := Block(hi, PAGE, true);
    assert [n][1..] == [];
    TilesConcat(bs, [n], lo, hi, hi + PAGE);
  }

  // ---------- Accounting ----------

  lemma {:induction false} SumConcat(a: seq<Block>, b: seq<Block>, free: bool)
    ensures Sum(a + b, free) == Sum(a, free) + Sum(b, free)
  {
    if a == [] {
      assert a + b == b;
    } else {
      assert (a + b)[1..] == a[1..] + b;
      SumConcat(a[1..], b, free);
    }
  }

  lemma SumOne(x: Block, b: seq<Block>, free: bool)
    ensures Sum([x] + b, free) == (if x.free == free then x.size else 0) + Sum(b, free)
  {
    assert ([x] + b)[1..] == b;
  }

  /** Allocated and free bytes together are the whole heap. */
  lemma {:induction false} SumWhole(bs: seq<Block>, lo: nat, hi: nat)
    requires Tiles(bs, lo, hi)
    ensures Sum(bs, true) + Sum(bs, false) == hi - lo
  {
    if bs != [] {
      SumWhole(bs[1..], bs[0].End(), hi);
    }
  }

  /** A coalesced list with nothing allocated is a single block. */
  lemma {:induction false} AllFreeIsOne(bs: seq<Block>, lo: nat, hi: nat)
    requires Tiles(bs, lo, hi) && lo < hi && Coalesced(bs) && Enumerates([], bs)
    ensures bs == [Block(lo, hi - lo, true)]
  {
    assert forall i :: 0 <= i < |bs| ==> bs[i] in bs;
    assert |bs| == 1;
    assert bs[1..] == [];
  }

  lemma SumAllocate(bs: seq<Block>, i: nat, total: nat)
    requires i < |bs| && bs[i].free && total <= bs[i].size
    ensures Sum(Allocate(bs, i, total), false) == Sum(bs, false) + Pieces(bs[i], total, false)[0].size
  {
    var x, ps, rest := bs[i], Pieces(bs[i], total, false), bs[i + 1..];
    assert bs == bs[..i] + ([x] + rest);
    SumConcat(bs[..i], [x] + rest, false);
    SumOne(x, rest, false);
    SumConcat(bs[..i], ps + rest, false);
    SumConcat(ps, rest, false);
    assert |ps| == 2 ==> ps[1..] == [ps[1]];
  }

  lemma SumMergeNext(x: Block, b: seq<Block>, free: bool)
    requires x.free
    ensures Sum(MergeNext(x, b), free) == Sum([x] + b, free)
  {
    SumOne(x, b, free);
    if b != [] && b[0].free {
      SumOne(Glue(x, b[0]), b[1..], free);
    }
  }

  lemma SumMergePrev(a: seq<Block>, c: seq<Block>, free: bool)
    requires c != [] && c[0].free
    ensures Sum(MergePrev(a, c), free) == Sum(a, free) + Sum(c, free)
  {
    SumConcat(a, c, free);
    if a != [] && a[|a| - 1].free {
      var n := |a| - 1;
      assert a == a[..n] + ([a[n]] + []);
      SumConcat(a[..n], [a[n]] + [], free);
      SumOne(a[n], [], free);
      SumOne(Glue(a[n], c[0]), c[1..], free);
      SumConcat(a[..n], [Glue(a[n], c[0])] + c[1..], free);
    }
  }

  lemma SumRelease(bs: seq<Block>, i: nat)
    requires i < |bs| && !bs[i].free
    ensures Sum(Release(bs, i), false) == Sum(bs, false) - bs[i].size
  {
    var x, a, b := bs[i].(free := true), bs[..i], bs[i + 1..];
    assert bs == a + ([bs[i]] + b);
    SumConcat(a, [bs[i]] + b, false);
    SumOne(bs[i], b, false);
    SumOne(x, b, false);
    SumMergeNext(x, b, false);
    SumMergePrev(a, MergeNext(x, b), false);
  }

  // ---------- Coalescing ----------

  lemma {:induction false} CoalescedConcat(a: seq<Block>, b: seq<Block>)
    ensures Coalesced(a + b) <==>
            Coalesced(a) && Coalesced(b) && (a == [] || b == [] || !(a[|a| - 1].free && b[0].free))
  {
    if a == [] {
      assert a + b == b;
    } else if |a| == 1 {
      assert (a + b)[1..] == b;
    } else {
      assert (a + b)[1..] == a[1..] + b;
      CoalescedConcat(a[1..], b);
    }
  }

  lemma CoalescedOne(x: Block, b: seq<Block>)
    ensures Coalesced([x] + b) <==> Coalesced(b) && (b == [] || !(x.free && b[0].free))
  {
    assert ([x] + b)[1..] == b;
  }

  lemma CoalescedAt(bs: seq<Block>, i: nat)
    requires Coalesced(bs) && i < |bs|
    ensures Coalesced(bs[..i]) && Coalesced(bs[i + 1..])
    ensures i > 0 ==> !(bs[i - 1].free && bs[i].free)
    ensures i + 1 < |bs| ==> !(bs[i].free && bs[i + 1].free)
  {
    hide Coalesced;
    Cut(bs, i);
    CoalescedConcat(bs[..i], [bs[i]] + bs[i + 1..]);
    CoalescedOne(bs[i], bs[i + 1..]);
  }

  lemma CoalescedAllocate(bs: seq<Block>, i: nat, total: nat)
    requires Coalesced(bs) && i < |bs| && bs[i].free
    ensures Coalesced(Allocate(bs, i, total))
  {
    hide Coalesced;
    var ps, rest := Pieces(bs[i], total, false), bs[i + 1..];
    CoalescedAt(bs, i);
    if |ps| == 2 {
      assert ps + rest == [ps[0]] + ([ps[1]] + rest);
      CoalescedOne(ps[1], rest);
      CoalescedOne(ps[0], [ps[1]] + rest);
    } else {
      CoalescedOne(ps[0], rest);
    }
    CoalescedConcat(bs[..i], ps + rest);
  }

  lemma CoalescedMergeNext(x: Block, b: seq<Block>)
    requires Coalesced(b)
    ensures Coalesced(MergeNext(x, b))
  {
    CoalescedOne(x, b);
    if b != [] && b[0].free {
      assert b == [b[0]] + b[1..];
      CoalescedOne(b[0], b[1..]);
      CoalescedOne(Glue(x, b[0]), b[1..]);
    }
  }

  lemma CoalescedMergePrev(a: seq<Block>, c: seq<Block>)
    requires c != [] && c[0].free && Coalesced(a) && Coalesced(c)
    ensures Coalesced(MergePrev(a, c))
  {
    CoalescedConcat(a, c);
    if a != [] && a[|a| - 1].free {
      var n := |a| - 1;
      CoalescedAt(a, n);
      assert c == [c[0]] + c[1..];
      CoalescedOne(c[0], c[1..]);
      var g := Glue(a[n], c[0]);
      CoalescedOne(g, c[1..]);
      CoalescedConcat(a[..n], [g] + c[1..]);
    }
  }

  lemma CoalescedRelease(bs: seq<Block>, i: nat)
    requires Coalesced(bs) && i < |bs|
    ensures Coalesced(Release(bs, i))
  {
    CoalescedAt(bs, i);
    var x := bs[i].(free := true);
    CoalescedMergeNext(x, bs[i + 1..]);
    CoalescedMergePrev(bs[..i], MergeNext(x, bs[i + 1..]));
  }

  // ---------- Live blocks ----------

  lemma {:induction false} IndexOfUnique(bs: seq<Block>, i: nat, lo: nat, hi: nat)
    requires Tiles(bs, lo, hi) && i < |bs| && !bs[i].free
    ensures IndexOf(bs, bs[i].Ptr()) == i
  {
    var k := IndexOf(bs, bs[i].Ptr());
    if k < i {
      BlocksDisjoint(bs, k, i, lo, hi);
      TilesAt(bs, k, lo, hi);
    }
  }

  lemma AllocateParts(bs: seq<Block>, i: nat, total: nat)
    requires i < |bs|
    ensures var r, ps := Allocate(bs, i, total), Pieces(bs[i], total, false);
            i < |r| && r[..i] == bs[..i] && r[i] == ps[0] && r[i + 1..] == ps[1..] + bs[i + 1..]
  {
    var ps, rest := Pieces(bs[i], total, false), bs[i + 1..];
    assert ps + rest == [ps[0]] + (ps[1..] + rest);
    Paste(bs[..i], ps[0], ps[1..] + rest);
  }

  /** Taking block i leaves every other block where it was. */
  lemma AllocateElements(bs: seq<Block>, i: nat, total: nat)
    requires i < |bs| && bs[i].free
    ensures forall b: Block :: !b.free ==>
              (b in Allocate(bs, i, total) <==> b in bs || b == Pieces(bs[i], total, false)[0])
  {
    Cut(bs, i);
    var ps := Pieces(bs[i], total, false);
    assert |ps| == 2 ==> ps[1].free;
  }

  /** Releasing block i keeps exactly the other allocated blocks. */
  lemma ReleaseElements(bs: seq<Block>, i: nat, b: Block)
    requires i < |bs| && !b.free
    ensures b in Release(bs, i) <==> b in bs[..i] || b in bs[i + 1..]
  {
    var a, x, rest := bs[..i], bs[i].(free := true), bs[i + 1..];
    var c := MergeNext(x, rest);
    assert rest != [] ==> rest == [rest[0]] + rest[1..];
    assert b in c <==> b in rest;
    assert c == [c[0]] + c[1..];
    if a != [] {
      assert a == a[..|a| - 1] + [a[|a| - 1]];
    }
  }

  /** No other allocated block has the pointer of block i. */
  lemma OnlyOne(bs: seq<Block>, i: nat, b: Block, lo: nat, hi: nat)
    requires Tiles(bs, lo, hi) && i < |bs| && !bs[i].free && !b.free
    ensures b in bs[..i] || b in bs[i + 1..] <==> b in bs && b.Ptr() != bs[i].Ptr()
  {
    Cut(bs, i);
    IndexOfUnique(bs, i, lo, hi);
    if b in bs[..i] {
      var j :| 0 <= j < i && bs[j] == b;
      IndexOfUnique(bs, j, lo, hi);
    } else if b in bs[i + 1..] {
      var j :| i + 1 <= j < |bs| && bs[j] == b;
      IndexOfUnique(bs, j, lo, hi);
    }
  }

  // ---------- What one call does ----------

  function NewEnd(bs: seq<Block>, hi: nat, size: nat, page: bool): nat {
    if size != 0 && page && FirstFit(bs, Total(size)) == |bs| then hi + PAGE else hi
  }

  /** kmalloc keeps the tiling, extended by one page exactly when the heap grows. */
  lemma MallocTiles(bs: seq<Block>, lo: nat, hi: nat, size: nat, page: bool)
    requires Tiles(bs, lo, hi)
    ensures Tiles(Malloc(bs, hi, size, page).0, lo, NewEnd(bs, hi, size, page))
  {
    if size != 0 {
      TilesSearched(bs, lo, hi, size, page);
      var s := Searched(bs, hi, size, page);
      var i := FirstFit(s, Total(size));
      if i < |s| {
        TilesAllocate(s, i, Total(size), lo, NewEnd(bs, hi, size, page));
      }
    }
  }

  /** kmalloc fails exactly when nothing fits and growing would not help either. */
  lemma MallocFails(bs: seq<Block>, hi: nat, size: nat, page: bool)
    ensures Malloc(bs, hi, size, page).1 == 0 <==>
            size == 0 || ((forall b :: b in bs ==> !Fits(b, Total(size))) && !(page && Total(size) <= PAGE))
  {
    var need := Total(size);
    var s := Searched(bs, hi, size, page);
    var i, k := FirstFit(s, need), FirstFit(bs, need);
    if k < |bs| {
      assert bs[k] in bs;
    } else if s != bs {
      assert s[|bs|] == Block(hi, PAGE, true);
      assert forall j :: 0 <= j < |bs| ==> s[j] == bs[j];
    }
  }

  /** A successful kmalloc returns a new, aligned block big enough for the request, and every allocated
      block, unmoved and unresized, is still there next to it. */
  lemma MallocBlock(bs: seq<Block>, lo: nat, hi: nat, size: nat, page: bool)
    requires Tiles(bs, lo, hi) && lo % 8 == 0
    requires Malloc(bs, hi, size, page).1 != 0
    ensures var (r, p) := Malloc(bs, hi, size, page);
            && p % 8 == 0 && !IsLive(bs, p) && IsLive(r, p)
            && r[IndexOf(r, p)].size >= size + HEADER
            && (forall b :: b in bs && Fits(b, Total(size)) ==> p <= b.Ptr())
            && (forall b: Block :: !b.free ==> (b in r <==> b in bs || b == r[IndexOf(r, p)]))
  {
    var s, total, hi' := Searched(bs, hi, size, page), Total(size), NewEnd(bs, hi, size, page);
    var i := FirstFit(s, total);
    TilesSearched(bs, lo, hi, size, page);
    FreshPointer(bs, s, i, lo, hi');
    LowestFit(bs, s, i, total, lo, hi');
    AllocateBlock(s, i, total, lo, hi');
    forall b: Block | !b.free ensures b in s <==> b in bs {
      assert s == bs || s == bs + [Block(hi, PAGE, true)];
    }
  }

  /** It is not much larger than asked for either. */
  lemma MallocTight(bs: seq<Block>, lo: nat, hi: nat, size: nat, page: bool)
    requires Tiles(bs, lo, hi) && lo % 8 == 0
    requires Malloc(bs, hi, size, page).1 != 0
    ensures var (r, p) := Malloc(bs, hi, size, page);
            IsLive(r, p) && r[IndexOf(r, p)].size < size + HEADER + 8 + MIN_BLOCK
  {
    var s, total, hi' := Searched(bs, hi, size, page), Total(size), NewEnd(bs, hi, size, page);
    var i := FirstFit(s, total);
    TilesSearched(bs, lo, hi, size, page);
    AllocateBlock(s, i, total, lo, hi');
    AllocateParts(s, i, total);
  }

  lemma AllocateBlock(s: seq<Block>, i: nat, total: nat, lo: nat, hi: nat)
    requires Tiles(s, lo, hi) && lo % 8 == 0 && i < |s| && s[i].free
    requires s[i].size >= total >= 24 && total % 8 == 0
    ensures var r, p := Allocate(s, i, total), s[i].Ptr();
            && p % 8 == 0 && IndexOf(r, p) == i && i < |r|
            && r[i].size >= total
            && (forall b: Block :: !b.free ==> (b in r <==> b in s || b == r[i]))
  {
    AllocateParts(s, i, total);
    TilesAllocate(s, i, total, lo, hi);
    IndexOfUnique(Allocate(s, i, total), i, lo, hi);
    AddrAligned(s, i, lo, hi);
    AllocateElements(s, i, total);
  }

  lemma AddrAligned(bs: seq<Block>, i: nat, lo: nat, hi: nat)
    requires Tiles(bs, lo, hi) && lo % 8 == 0 && i < |bs|
    ensures bs[i].addr % 8 == 0
  {
    TilesAt(bs, i, lo, hi);
    TilesBounds(bs[..i], lo, bs[i].addr);
  }

  lemma FreshPointer(bs: seq<Block>, s: seq<Block>, i: nat, lo: nat, hi: nat)
    requires bs <= s && Tiles(s, lo, hi) && i < |s| && s[i].free
    ensures !IsLive(bs, s[i].Ptr())
  {
    var k := IndexOf(bs, s[i].Ptr());
    if k < |bs| {
      assert s[k] == bs[k];
      if k < i { BlocksDisjoint(s, k, i, lo, hi); TilesAt(s, k, lo, hi); }
      if i < k { BlocksDisjoint(s, i, k, lo, hi); TilesAt(s, i, lo, hi); }
    }
  }

  lemma LowestFit(bs: seq<Block>, s: seq<Block>, i: nat, total: nat, lo: nat, hi: nat)
    requires bs <= s && Tiles(s, lo, hi) && i < |s| && i == FirstFit(s, total)
    ensures forall b :: b in bs && Fits(b, total) ==> s[i].Ptr() <= b.Ptr()
  {
    forall b | b in bs && Fits(b, total) ensures s[i].Ptr() <= b.Ptr() {
      var j :| 0 <= j < |bs| && bs[j] == b;
      assert s[j] == b;
      if i < j { BlocksDisjoint(s, i, j, lo, hi); }
    }
  }

  /** kfree keeps the tiling and takes away exactly the block freed. */
  lemma FreeKeeps(bs: seq<Block>, lo: nat, hi: nat, p: nat)
    requires Tiles(bs, lo, hi) && IsLive(bs, p)
    ensures Tiles(Free(bs, p), lo, hi)
    ensures forall b: Block :: !b.free ==> (b in Free(bs, p) <==> b in bs && b.Ptr() != p)
  {
    var i := IndexOf(bs, p);
    TilesRelease(bs, i, lo, hi);
    forall b: Block | !b.free ensures b in Free(bs, p) <==> b in bs && b.Ptr() != p {
      ReleaseElements(bs, i, b);
      OnlyOne(bs, i, b, lo, hi);
    }
  }

  /** Freeing what was just allocated restores the block list, splits undone, if the list was coalesced. */
  lemma FreeUndoesMalloc(bs: seq<Block>, lo: nat, hi: nat, size: nat, page: bool)
    requires Tiles(bs, lo, hi) && Coalesced(bs) && lo % 8 == 0
    requires Malloc(bs, hi, size, page).1 != 0 && NewEnd(bs, hi, size, page) == hi
    ensures var (r, p) := Malloc(bs, hi, size, page); Free(r, p) == bs
  {
    var i := FirstFit(bs, Total(size));
    AllocateBlock(bs, i, Total(size), lo, hi);
    ReleaseUndoesAllocate(bs, i, Total(size));
  }

  lemma ReleaseUndoesAllocate(bs: seq<Block>, i: nat, total: nat)
    requires Coalesced(bs) && i < |bs| && bs[i].free && total <= bs[i].size
    ensures i < |Allocate(bs, i, total)| && Release(Allocate(bs, i, total), i) == bs
  {
    hide Coalesced, Allocate, Pieces, MergeNext;
    CoalescedAt(bs, i);
    AllocateParts(bs, i, total);
    MergeUndoesPieces(bs[i], total, bs[i + 1..]);
    Cut(bs, i);
  }

  lemma MergeUndoesPieces(x: Block, total: nat, rest: seq<Block>)
    requires x.free && total <= x.size && (rest == [] || !rest[0].free)
    ensures var ps := Pieces(x, total, false);
            ps != [] && MergeNext(ps[0].(free := true), ps[1..] + rest) == [x] + rest
  {
    var ps := Pieces(x, total, false);
    if |ps| == 2 {
      assert (ps[1..] + rest)[1..] == rest;
    } else {
      assert ps[1..] + rest == rest;
    }
  }

  // ---------- Whole runs ----------

  datatype Op = Alloc(size: nat, page: bool) | Dealloc(p: nat)

  datatype State = State(blocks: seq<Block>, hi: nat)

  function Step(s: State, op: Op): State {
    match op
    case Alloc(size, page) => State(Malloc(s.blocks, s.hi, size, page).0, NewEnd(s.blocks, s.hi, size, page))
    case Dealloc(p) => s.(blocks := Free(s.blocks, p))
  }

  function Run(s: State, ops: seq<Op>): State
    decreases |ops|
  {
    if ops == [] then s else Run(Step(s, ops[0]), ops[1..])
  }

  lemma {:induction false} RunSnoc(s: State, ops: seq<Op>, op: Op)
    ensures Run(s, ops + [op]) == Step(Run(s, ops), op)
    decreases |ops|
  {
    if ops == [] {
      assert ops + [op] == [op];
    } else {
      assert (ops + [op])[1..] == ops[1..] + [op];
      RunSnoc(Step(s, ops[0]), ops[1..], op);
    }
  }

  /** Callers free only what they hold. */
  predicate Legal(s: State, ops: seq<Op>)
    decreases |ops|
  {
    ops == [] || ((ops[0].Dealloc? ==> IsLive(s.blocks, ops[0].p)) && Legal(Step(s, ops[0]), ops[1..]))
  }

  /** Every run keeps the block list an exact tiling of the heap, which only ever grows. */
  lemma {:induction false} RunTiles(s: State, ops: seq<Op>, lo: nat)
    requires Tiles(s.blocks, lo, s.hi) && Legal(s, ops)
    ensures Tiles(Run(s, ops).blocks, lo, Run(s, ops).hi) && s.hi <= Run(s, ops).hi
    decreases |ops|
  {
    if ops != [] {
      match ops[0] {
        case Alloc(size, page) => MallocTiles(s.blocks, lo, s.hi, size, page);
        case Dealloc(p) => FreeKeeps(s.blocks, lo, s.hi, p);
      }
      RunTiles(Step(s, ops[0]), ops[1..], lo);
    }
  }

  /** In every run a live block stays exactly where and what it is until its own kfree. */
  lemma {:induction false} RunKeepsLive(s: State, ops: seq<Op>, lo: nat, b: Block)
    requires Tiles(s.blocks, lo, s.hi) && Legal(s, ops) && lo % 8 == 0
    requires b in s.blocks && !b.free && Dealloc(b.Ptr()) !in ops
    ensures b in Run(s, ops).blocks
    decreases |ops|
  {
    if ops != [] {
      assert ops[0] in ops;
      match ops[0] {
        case Alloc(size, page) =>
          MallocTiles(s.blocks, lo, s.hi, size, page);
          if Malloc(s.blocks, s.hi, size, page).1 != 0 {
            MallocBlock(s.blocks, lo, s.hi, size, page);
          }
        case Dealloc(p) => FreeKeeps(s.blocks, lo, s.hi, p);
      }
      RunKeepsLive(Step(s, ops[0]), ops[1..], lo, b);
    }
  }

  /** A run that never grows the heap never leaves two free neighbours. */
  lemma {:induction false} RunCoalesced(s: State, ops: seq<Op>, lo: nat)
    requires Tiles(s.blocks, lo, s.hi) && Legal(s, ops) && Coalesced(s.blocks)
    requires Run(s, ops).hi == s.hi
    ensures Coalesced(Run(s, ops).blocks)
    decreases |ops|
  {
    if ops != [] {
      var t := Step(s, ops[0]);
      match ops[0] {
        case Alloc(size, page) =>
          MallocTiles(s.blocks, lo, s.hi, size, page);
          RunTiles(t, ops[1..], lo);
          var i := FirstFit(s.blocks, Total(size));
          if size != 0 && i < |s.blocks| {
            CoalescedAllocate(s.blocks, i, Total(size));
          }
        case Dealloc(p) =>
          FreeKeeps(s.blocks, lo, s.hi, p);
          CoalescedRelease(s.blocks, IndexOf(s.blocks, p));
      }
      RunCoalesced(t, ops[1..], lo);
    }
  }

  function Deallocs(ps: seq<nat>): seq<Op> {
    seq(|ps|, i requires 0 <= i < |ps| => Dealloc(ps[i]))
  }

  /** ps lists every live pointer, once. */
  ghost predicate Enumerates(ps: seq<nat>, bs: seq<Block>) {
    && (forall i :: 0 <= i < |ps| ==> IsLive(bs, ps[i]))
    && (forall i, j :: 0 <= i < j < |ps| ==> ps[i] != ps[j])
    && (forall b :: b in bs && !b.free ==> b.Ptr() in ps)
  }

  /** Freeing every live pointer once, in any order, leaves the single block the heap started with. */
  lemma {:induction false} FreeAllRestores(s: State, ps: seq<nat>, lo: nat)
    requires Tiles(s.blocks, lo, s.hi) && Coalesced(s.blocks) && lo < s.hi && Enumerates(ps, s.blocks)
    ensures Run(s, Deallocs(ps)).blocks == [Block(lo, s.hi - lo, true)]
    decreases |ps|
  {
    hide Tiles, Coalesced, Enumerates;
    if ps == [] {
      AllFreeIsOne(s.blocks, lo, s.hi);
    } else {
      FreeEnumerates(s.blocks, ps, lo, s.hi);
      CoalescedRelease(s.blocks, IndexOf(s.blocks, ps[0]));
      assert Deallocs(ps)[1..] == Deallocs(ps[1..]);
      FreeAllRestores(Step(s, Dealloc(ps[0])), ps[1..], lo);
    }
  }

  lemma FreeEnumerates(bs: seq<Block>, ps: seq<nat>, lo: nat, hi: nat)
    requires Tiles(bs, lo, hi) && ps != [] && Enumerates(ps, bs)
    ensures IsLive(bs, ps[0]) && Tiles(Free(bs, ps[0]), lo, hi) && Enumerates(ps[1..], Free(bs, ps[0]))
  {
    var cs, qs := Free(bs, ps[0]), ps[1..];
    FreeKeeps(bs, lo, hi, ps[0]);
    assert forall i :: 0 <= i < |qs| ==> qs[i] == ps[i + 1];
    forall i | 0 <= i < |qs| ensures IsLive(cs, qs[i]) {
      StillLive(bs, cs, qs[i], lo, hi);
    }
  }

  lemma StillLive(bs: seq<Block>, cs: seq<Block>, p: nat, lo: nat, hi: nat)
    requires IsLive(bs, p) && Tiles(cs, lo, hi) && bs[IndexOf(bs, p)] in cs
    ensures IsLive(cs, p)
  {
    var j :| 0 <= j < |cs| && cs[j] == bs[IndexOf(bs, p)];
    IndexOfUnique(cs, j, lo, hi);
  }

  /** From the heap as initialised: after any run without growth, freeing what is still held, in any order,
      gives back the initial heap. */
  lemma RunThenFreeAll(s: State, lo: nat, size: nat, ops: seq<Op>, ps: seq<nat>)
    requires size >= 24 && size % 8 == 0 && lo % 8 == 0 && s == State([Block(lo, size, true)], lo + size)
    requires Legal(s, ops) && Run(s, ops).hi == s.hi && Enumerates(ps, Run(s, ops).blocks)
    ensures Run(Run(s, ops), Deallocs(ps)) == s
  {
    hide Run, Legal, Enumerates;
    assert s.blocks[1..] == [];
    RunTiles(s, ops, lo);
    RunCoalesced(s, ops, lo);
    FreeAllRestores(Run(s, ops), ps, lo);
    DeallocsKeepEnd(Run(s, ops), Deallocs(ps));
  }

  lemma {:induction false} DeallocsKeepEnd(s: State, ops: seq<Op>)
    requires forall op :: op in ops ==> op.Dealloc?
    ensures Run(s, ops).hi == s.hi
    decreases |ops|
  {
    if ops != [] {
      assert ops[0] in ops;
      DeallocsKeepEnd(Step(s, ops[0]), ops[1..]);
    }
  }
}
