/** The allocator of src/heap.c on word-addressed memory: block headers live inside the memory they manage. */
module Heap {
  import opened Machine
  import opened HeapSpec

  /** The largest request whose rounding and header addition do not wrap around. */
  const MAX_REQUEST: nat := 0xFFFF_FFE8

  // ---------- Doubly linked segments in memory ----------

  function Head(bs: seq<Block>, next: nat): nat {
    if bs == [] then next else bs[0].addr
  }

  function LastAddr(bs: seq<Block>, prev: nat): nat {
    if bs == [] then prev else bs[|bs| - 1].addr
  }

  /** The four header words of a block: size, is_free, next, prev. */
  ghost predicate Header(m: seq<Word>, b: Block, prev: nat, next: nat) {
    && b.addr + HEADER <= |m|
    && m[b.addr] == b.size
    && m[b.addr + 4] == (if b.free then 1 else 0)
    && m[b.addr + 8] == next
    && m[b.addr + 12] == prev
  }

  /** Memory m holds the blocks bs as a doubly linked segment between prev and next. */
  ghost predicate Seg(m: seq<Word>, bs: seq<Block>, prev: nat, next: nat) {
    bs == [] || (Header(m, bs[0], prev, Head(bs[1..], next)) && Seg(m, bs[1..], bs[0].addr, next))
  }

  lemma {:induction false} SegConcat(m: seq<Word>, a: seq<Block>, b: seq<Block>, prev: nat, next: nat)
    ensures Seg(m, a + b, prev, next) <==> Seg(m, a, prev, Head(b, next)) && Seg(m, b, LastAddr(a, prev), next)
  {
    if a == [] {
      assert a + b == b;
    } else {
      assert (a + b)[1..] == a[1..] + b;
      SegConcat(m, a[1..], b, a[0].addr, next);
    }
  }

  lemma SegOne(m: seq<Word>, x: Block, b: seq<Block>, prev: nat, next: nat)
    ensures Seg(m, [x] + b, prev, next) <==> Header(m, x, prev, Head(b, next)) && Seg(m, b, x.addr, next)
  {
    assert ([x] + b)[1..] == b;
  }

  /** Cuts a segment at block i. */
  lemma SegAt(m: seq<Word>, bs: seq<Block>, i: nat, prev: nat, next: nat)
    requires Seg(m, bs, prev, next) && i < |bs|
    ensures Seg(m, bs[..i], prev, bs[i].addr)
    ensures Header(m, bs[i], LastAddr(bs[..i], prev), Head(bs[i + 1..], next))
    ensures Seg(m, bs[i + 1..], bs[i].addr, next)
  {
    assert bs == bs[..i] + ([bs[i]] + bs[i + 1..]);
    SegConcat(m, bs[..i], [bs[i]] + bs[i + 1..], prev, next);
    SegOne(m, bs[i], bs[i + 1..], LastAddr(bs[..i], prev), next);
  }

  lemma SegPaste(m: seq<Word>, a: seq<Block>, x: Block, b: seq<Block>, prev: nat, next: nat)
    requires Seg(m, a, prev, x.addr) && Header(m, x, LastAddr(a, prev), Head(b, next)) && Seg(m, b, x.addr, next)
    ensures Seg(m, a + ([x] + b), prev, next)
  {
    SegOne(m, x, b, LastAddr(a, prev), next);
    SegConcat(m, a, [x] + b, prev, next);
  }

  /** A segment survives any change outside it, and a change of its back link alone gives it a new predecessor. */
  lemma {:induction false} SegFrame(m: seq<Word>, m': seq<Word>, bs: seq<Block>, lo: nat, hi: nat,
                                    prev: nat, prev': nat, next: nat)
    requires Tiles(bs, lo, hi) && Seg(m, bs, prev, next) && hi <= |m| == |m'|
    requires forall x :: lo <= x < hi && x != lo + 12 ==> m'[x] == m[x]
    requires bs != [] ==> lo + 12 < |m| && m'[lo + 12] == prev'
    ensures Seg(m', bs, prev', next)
  {
    if bs != [] {
      var mid := bs[0].End();
      TilesBounds(bs[1..], mid, hi);
      if |bs| > 1 {
        assert Header(m, bs[1], bs[0].addr, Head(bs[1..][1..], next));
      }
      SegFrame(m, m', bs[1..], mid, hi, bs[0].addr, bs[0].addr, next);
    }
  }

  /** Blocks a, then x, then b tile [lo, hi) and are linked up in m. */
  ghost predicate Around(m: seq<Word>, a: seq<Block>, x: Block, b: seq<Block>, lo: nat, hi: nat) {
    && 32 <= lo && hi <= |m| && x.Ok() && lo <= x.addr && x.End() <= hi
    && Tiles(a, lo, x.addr) && Tiles(b, x.End(), hi)
    && Seg(m, a, 0, x.addr) && Header(m, x, LastAddr(a, 0), Head(b, 0)) && Seg(m, b, x.addr, 0)
  }

  lemma AroundAt(m: seq<Word>, bs: seq<Block>, i: nat, lo: nat, hi: nat)
    requires Tiles(bs, lo, hi) && Seg(m, bs, 0, 0) && i < |bs| && 32 <= lo && hi <= |m|
    ensures Around(m, bs[..i], bs[i], bs[i + 1..], lo, hi)
  {
    TilesAt(bs, i, lo, hi);
    WithinHeap(bs, i, lo, hi);
    SegAt(m, bs, i, 0, 0);
  }

  /** Changing memory only inside x, and the back link of the block after x, keeps what is on either side. */
  lemma SegAround(m: seq<Word>, m': seq<Word>, a: seq<Block>, x: Block, b: seq<Block>, lo: nat, hi: nat, prev': nat)
    requires Around(m, a, x, b, lo, hi) && |m| == |m'|
    requires forall y :: lo <= y < hi && !(x.addr <= y < x.End()) && y != x.End() + 12 ==> m'[y] == m[y]
    requires b != [] && x.End() + 12 < |m| ==> m'[x.End() + 12] == prev'
    ensures Seg(m', a, 0, x.addr) && Seg(m', b, prev', 0)
  {
    TilesBounds(a, lo, x.addr);
    TilesBounds(b, x.End(), hi);
    SegFrame(m, m', a, lo, x.addr, 0, 0, x.addr);
    SegFrame(m, m', b, x.End(), hi, x.addr, prev', 0);
  }

  /** The payload of b reads the same in m and m'. */
  ghost predicate Kept(m: seq<Word>, m': seq<Word>, b: Block) {
    |m| == |m'| && forall x :: b.Ptr() <= x < b.End() && x < |m| ==> m'[x] == m[x]
  }

  /** So do the payloads of all allocated blocks. */
  ghost predicate PayloadsKept(m: seq<Word>, m': seq<Word>, bs: seq<Block>) {
    forall b :: b in bs && !b.free ==> Kept(m, m', b)
  }

  /** x lies in the header of block b, or anywhere in it if it is free. */
  ghost predicate Managed(b: Block, x: nat) {
    b.addr <= x < b.Ptr() || (b.free && b.addr <= x < b.End())
  }

  lemma OnlyManaged(m: seq<Word>, m': seq<Word>, bs: seq<Block>, lo: nat, hi: nat)
    requires Tiles(bs, lo, hi) && |m| == |m'|
    requires forall x :: lo <= x < hi && x < |m| && m'[x] != m[x] ==> exists k :: 0 <= k < |bs| && Managed(bs[k], x)
    ensures PayloadsKept(m, m', bs)
  {
    forall b, x | b in bs && !b.free && b.Ptr() <= x < b.End() && x < |m| ensures m'[x] == m[x] {
      var j :| 0 <= j < |bs| && bs[j] == b;
      TilesAt(bs, j, lo, hi);
      TilesBounds(bs[..j], lo, b.addr);
      TilesBounds(bs[j + 1..], b.End(), hi);
      if m'[x] != m[x] {
        var k :| 0 <= k < |bs| && Managed(bs[k], x);
        TilesAt(bs, k, lo, hi);
        if k < j { BlocksDisjoint(bs, k, j, lo, hi); }
        if j < k { BlocksDisjoint(bs, j, k, lo, hi); }
      }
    }
  }

  // ---------- The code, word by word ----------

  type Memory = m: seq<Word> | |m| == MEM witness seq(MEM, _ => 0)

  /** Memory together with the static heap_end. */
  datatype Image = Image(m: Memory, end: Word)

  function Put(m: Memory, a: Word, v: Word): Memory {
    m[a := v]
  }

  /** split_block(block, total - 16), word by word. */
  function SplitWords(s: Image, block: Word, total: Word): Image {
    if s.m[block] >= Add(total, MIN_BLOCK) then
      var nb := Add(block, total);
      var m1 := Put(Put(s.m, nb, Sub(s.m[block], total)), Add(nb, 4), 1);
      var m2 := Put(Put(m1, Add(nb, 8), m1[Add(block, 8)]), Add(nb, 12), block);
      var nx := m2[Add(block, 8)];
      var m3 := if nx != 0 then Put(m2, Add(nx, 12), nb) else m2;
      Image(Put(Put(m3, block, total), Add(block, 8), nb), if block == s.end then nb else s.end)
    else
      s
  }

  /** One half of merge_free_blocks: y, which follows x, becomes part of x. */
  function GlueWords(s: Image, x: Word, y: Word): Image {
    var m1 := s.m[x := Add(s.m[x], s.m[y])];
    var m2 := m1[Add(x, 8) := m1[Add(y, 8)]];
    var nx := m2[Add(x, 8)];
    if nx != 0 then Image(m2[Add(nx, 12) := x], s.end) else Image(m2, x)
  }

  function MergeNextWords(s: Image, block: Word): Image {
    var n := s.m[Add(block, 8)];
    if n != 0 && s.m[Add(n, 4)] != 0 then GlueWords(s, block, n) else s
  }

  function MergePrevWords(s: Image, block: Word): Image {
    var p := s.m[Add(block, 12)];
    if p != 0 && s.m[Add(p, 4)] != 0 then GlueWords(s, p, block) else s
  }

  /** The growth path of kmalloc: a page-sized free block at hi, linked after heap_end. */
  function GrowWords(s: Image, hi: Word): Image {
    var m := s.m[hi := PAGE][Add(hi, 4) := 1][Add(hi, 8) := 0][Add(hi, 12) := s.end];
    Image(if s.end != 0 then m[Add(s.end, 8) := hi] else m, hi)
  }

  /** Whatever the request, even one whose total wraps around, the size word ends up as the total or is left alone. */
  lemma SplitSizeWord(s: Image, block: Word, total: Word)
    ensures SplitWords(s, block, total).m[block] == if s.m[block] >= Add(total, MIN_BLOCK) then total else s.m[block]
  {
  }

  lemma SplitCarves(s: Image, x: Block, total: Word, nx: Word)
    requires x.End() <= MEM && 24 <= total && total + MIN_BLOCK <= x.size
    requires s.m[x.addr] == x.size && s.m[x.addr + 8] == nx && (nx == 0 || nx == x.End()) && nx + HEADER <= MEM
    ensures Carved(s.m, SplitWords(s, x.addr, total).m, x, total, nx)
  {
  }

  lemma GlueGlues(s: Image, x: Block, y: Block, nx: Word)
    requires x.Ok() && y.Ok() && x.End() == y.addr && y.End() < MEM
    requires s.m[x.addr] == x.size && s.m[y.addr] == y.size && s.m[y.addr + 8] == nx
    requires nx == 0 || (nx == y.End() && nx + HEADER <= MEM)
    ensures Glued(s.m, GlueWords(s, x.addr, y.addr).m, x, y, nx)
  {
  }

  lemma GrowAppends(s: Image, last: Block, hi: Word)
    requires last.Ok() && last.End() == hi && hi + PAGE < MEM && s.end == last.addr && last.addr != 0
    ensures Appended(s.m, GrowWords(s, hi).m, last, hi) && GrowWords(s, hi).end == hi
  {
  }

  // ---------- What the pointer surgery does to the segment ----------

  /** m' is m with block x carved at `total`, as split_block leaves it; nx is the block after x, or 0. */
  ghost predicate Carved(m: seq<Word>, m': seq<Word>, x: Block, total: nat, nx: nat) {
    var n := x.addr + total;
    && |m| == |m'| && x.End() <= |m| && x.size >= total + MIN_BLOCK && total >= 24
    && m'[x.addr] == total && m'[x.addr + 4] == m[x.addr + 4] && m'[x.addr + 8] == n
    && m'[x.addr + 12] == m[x.addr + 12]
    && m'[n] == x.size - total && m'[n + 4] == 1 && m'[n + 8] == nx && m'[n + 12] == x.addr
    && (nx != 0 ==> nx + 12 < |m| && m'[nx + 12] == n)
    && (forall y :: 0 <= y < |m| && !(x.addr <= y < x.End()) && y != nx + 12 ==> m'[y] == m[y])
  }

  lemma CarvedSeg(m: seq<Word>, m': seq<Word>, a: seq<Block>, x: Block, b: seq<Block>, total: nat, lo: nat, hi: nat)
    requires Around(m, a, x, b, lo, hi) && Carved(m, m', x, total, Head(b, 0))
    ensures Seg(m', a + (Pieces(x, total, x.free) + b), 0, 0)
  {
    hide Tiles;
    TilesBounds(b, x.End(), hi);
    var y := Block(x.addr + total, x.size - total, true);
    var x' := x.(size := total);
    SegAround(m, m', a, x, b, lo, hi, y.addr);
    SegOne(m', y, b, x.addr, 0);
    SegPaste(m', a, x', [y] + b, 0, 0);
    assert Pieces(x, total, x.free) + b == [x'] + ([y] + b);
  }

  lemma CarvedPayloads(m: seq<Word>, m': seq<Word>, bs: seq<Block>, i: nat, total: nat, lo: nat, hi: nat)
    requires Tiles(bs, lo, hi) && 16 <= lo && i < |bs| && bs[i].free
    requires Carved(m, m', bs[i], total, Head(bs[i + 1..], 0))
    ensures PayloadsKept(m, m', bs)
  {
    forall x | lo <= x < hi && x < |m| && m'[x] != m[x] ensures exists k :: 0 <= k < |bs| && Managed(bs[k], x) {
      if bs[i].addr <= x < bs[i].End() {
        assert Managed(bs[i], x);
      } else {
        assert i + 1 < |bs|;
        assert Managed(bs[i + 1], x);
      }
    }
    OnlyManaged(m, m', bs, lo, hi);
  }

  /** Overwriting the is_free word of block x. */
  lemma FlagSeg(m: seq<Word>, m': seq<Word>, a: seq<Block>, x: Block, b: seq<Block>, free: bool, lo: nat, hi: nat)
    requires Around(m, a, x, b, lo, hi)
    requires m' == m[x.addr + 4 := if free then 1 else 0]
    ensures Seg(m', a + ([x.(free := free)] + b), 0, 0)
  {
    TilesBounds(b, x.End(), hi);
    SegAround(m, m', a, x, b, lo, hi, x.addr);
    SegPaste(m', a, x.(free := free), b, 0, 0);
  }

  lemma FlagPayloads(m: seq<Word>, m': seq<Word>, bs: seq<Block>, i: nat, v: Word, lo: nat, hi: nat)
    requires Tiles(bs, lo, hi) && i < |bs| && bs[i].addr + 4 < |m| && m' == m[bs[i].addr + 4 := v]
    ensures PayloadsKept(m, m', bs)
  {
    forall y | lo <= y < hi && y < |m| && m'[y] != m[y] ensures exists k :: 0 <= k < |bs| && Managed(bs[k], y) {
      assert Managed(bs[i], y);
    }
    OnlyManaged(m, m', bs, lo, hi);
  }

  /** m' is m with block y, the one after x, glued onto x; nx is the block after y, or 0. */
  ghost predicate Glued(m: seq<Word>, m': seq<Word>, x: Block, y: Block, nx: nat) {
    && |m| == |m'| && x.addr + HEADER <= |m|
    && m'[x.addr] == x.size + y.size && m'[x.addr + 8] == nx
    && (nx != 0 ==> nx + 12 < |m| && m'[nx + 12] == x.addr)
    && (forall z :: 0 <= z < |m| && z != x.addr && z != x.addr + 8 && (nx == 0 || z != nx + 12) ==> m'[z] == m[z])
  }

  lemma GluedSeg(m: seq<Word>, m': seq<Word>, a: seq<Block>, x: Block, y: Block, b: seq<Block>, lo: nat, hi: nat)
    requires Around(m, a, x, [y] + b, lo, hi) && Glued(m, m', x, y, Head(b, 0))
    ensures Seg(m', a + ([Glue(x, y)] + b), 0, 0)
  {
    hide Tiles;
    TilesOne(y, b, x.End(), hi);
    SegOne(m, y, b, x.addr, 0);
    TilesBounds(a, lo, x.addr);
    TilesBounds(b, y.End(), hi);
    SegFrame(m, m', a, lo, x.addr, 0, 0, x.addr);
    SegFrame(m, m', b, y.End(), hi, y.addr, x.addr, 0);
    SegPaste(m', a, Glue(x, y), b, 0, 0);
  }

  lemma GluedTiles(a: seq<Block>, x: Block, y: Block, b: seq<Block>, lo: nat, hi: nat)
    requires x.Ok() && Tiles(a, lo, x.addr) && Tiles([y] + b, x.End(), hi)
    ensures Tiles(a + ([Glue(x, y)] + b), lo, hi)
  {
    TilesOne(y, b, x.End(), hi);
    TilesOne(Glue(x, y), b, x.addr, hi);
    TilesConcat(a, [Glue(x, y)] + b, lo, x.addr, hi);
  }

  lemma GluedPayloads(m: seq<Word>, m': seq<Word>, a: seq<Block>, x: Block, y: Block, b: seq<Block>, lo: nat, hi: nat)
    requires Tiles(a + ([x] + ([y] + b)), lo, hi)
    requires Glued(m, m', x, y, Head(b, 0))
    ensures PayloadsKept(m, m', a + ([x] + ([y] + b)))
  {
    var bs, i := a + ([x] + ([y] + b)), |a|;
    assert bs[i] == x;
    forall z | lo <= z < hi && z < |m| && m'[z] != m[z] ensures exists k :: 0 <= k < |bs| && Managed(bs[k], z) {
      if z == x.addr || z == x.addr + 8 {
        assert Managed(bs[i], z);
      } else {
        assert bs[i + 2] == b[0];
        assert Managed(bs[i + 2], z);
      }
    }
    OnlyManaged(m, m', bs, lo, hi);
  }

  /** m' is m with a fresh page-sized block appended after `last`, as the growth path of kmalloc leaves it. */
  ghost predicate Appended(m: seq<Word>, m': seq<Word>, last: Block, hi: nat) {
    && |m| == |m'| && hi + PAGE <= |m| && last.End() == hi && last.Ok()
    && m'[last.addr + 8] == hi
    && m'[hi] == PAGE && m'[hi + 4] == 1 && m'[hi + 8] == 0 && m'[hi + 12] == last.addr
    && (forall z :: 0 <= z < |m| && z != last.addr + 8 && !(hi <= z < hi + HEADER) ==> m'[z] == m[z])
  }

  lemma AppendedSeg(m: seq<Word>, m': seq<Word>, a: seq<Block>, x: Block, lo: nat, hi: nat)
    requires Around(m, a, x, [], lo, hi) && Appended(m, m', x, hi)
    ensures Seg(m', a + ([x] + [Block(hi, PAGE, true)]), 0, 0)
  {
    hide Tiles;
    var y := Block(hi, PAGE, true);
    TilesBounds(a, lo, x.addr);
    SegFrame(m, m', a, lo, x.addr, 0, 0, x.addr);
    assert Seg(m', [y], x.addr, 0) by {
      assert [y][1..] == [];
    }
    SegPaste(m', a, x, [y], 0, 0);
  }

  lemma AppendedPayloads(m: seq<Word>, m': seq<Word>, bs: seq<Block>, lo: nat, hi: nat)
    requires bs != [] && Tiles(bs, lo, hi) && Appended(m, m', bs[|bs| - 1], hi)
    ensures PayloadsKept(m, m', bs)
  {
    hide Tiles;
    forall z | lo <= z < hi && z < |m| && m'[z] != m[z] ensures exists k :: 0 <= k < |bs| && Managed(bs[k], z) {
      assert Managed(bs[|bs| - 1], z);
    }
    OnlyManaged(m, m', bs, lo, hi);
  }

  /** The image holds the block list, which tiles [lo, hi). */
  ghost predicate Rep(s: Image, bs: seq<Block>, lo: nat, hi: nat) {
    && bs != [] && 32 <= lo && lo % 8 == 0 && hi < MEM
    && Tiles(bs, lo, hi) && Seg(s.m, bs, 0, 0) && s.end == LastAddr(bs, 0)
  }

  /** Block i and its neighbours, read off memory. */
  lemma RepAt(s: Image, bs: seq<Block>, i: nat, lo: nat, hi: nat)
    requires Rep(s, bs, lo, hi) && i < |bs|
    ensures lo <= bs[i].addr && bs[i].End() <= hi && bs[i].Ok()
    ensures Header(s.m, bs[i], if i > 0 then bs[i - 1].addr else 0, if i + 1 < |bs| then bs[i + 1].addr else 0)
    ensures i + 1 < |bs| ==> bs[i].End() == bs[i + 1].addr
  {
    SegAt(s.m, bs, i, 0, 0);
    WithinHeap(bs, i, lo, hi);
    TilesAt(bs, i, lo, hi);
  }

  lemma RepSum(s: Image, bs: seq<Block>, lo: nat, hi: nat)
    requires Rep(s, bs, lo, hi)
    ensures Sum(bs, true) + Sum(bs, false) == hi - lo && hi - lo + MIN_BLOCK < MEM
  {
    SumWhole(bs, lo, hi);
    TilesBounds(bs, lo, hi);
  }

  lemma RepCarved(s: Image, t: Image, bs: seq<Block>, i: nat, total: nat, lo: nat, hi: nat)
    requires Rep(s, bs, lo, hi) && i < |bs| && bs[i].free && total % 8 == 0
    requires Carved(s.m, t.m, bs[i], total, Head(bs[i + 1..], 0))
    requires t.end == if i + 1 == |bs| then bs[i].addr + total else s.end
    ensures Rep(t, bs[..i] + (Pieces(bs[i], total, true) + bs[i + 1..]), lo, hi)
  {
    AroundAt(s.m, bs, i, lo, hi);
    CarvedSeg(s.m, t.m, bs[..i], bs[i], bs[i + 1..], total, lo, hi);
    var b, ps := bs[i + 1..], Pieces(bs[i], total, true);
    TilesAt(bs, i, lo, hi);
    TilesPieces(bs[i], total, true);
    TilesMiddle(bs[..i], ps, b, lo, bs[i].addr, bs[i].End(), hi);
  }

  lemma RepSplit(s: Image, t: Image, block: Word, bs: seq<Block>, i: nat, total: Word, lo: nat, hi: nat)
    requires Rep(s, bs, lo, hi) && i < |bs| && bs[i].addr == block && bs[i].free
    requires 24 <= total <= bs[i].size && total % 8 == 0 && t == SplitWords(s, block, total)
    ensures Rep(t, bs[..i] + (Pieces(bs[i], total, true) + bs[i + 1..]), lo, hi)
    ensures PayloadsKept(s.m, t.m, bs)
  {
    hide Seg, Tiles, Carved;
    RepAt(s, bs, i, lo, hi);
    if bs[i].size >= total + MIN_BLOCK {
      SplitIsCarved(s, t, block, bs, i, total, lo, hi);
      RepCarved(s, t, bs, i, total, lo, hi);
      CarvedPayloads(s.m, t.m, bs, i, total, lo, hi);
    } else {
      assert t == s;
      WholePieces(bs, i, total);
    }
  }

  lemma WholePieces(bs: seq<Block>, i: nat, total: nat)
    requires i < |bs| && bs[i].free && bs[i].size < total + MIN_BLOCK
    ensures bs[..i] + (Pieces(bs[i], total, true) + bs[i + 1..]) == bs
  {
    assert Pieces(bs[i], total, true) == [bs[i]];
    Cut(bs, i);
  }

  lemma SplitIsCarved(s: Image, t: Image, block: Word, bs: seq<Block>, i: nat, total: Word, lo: nat, hi: nat)
    requires Rep(s, bs, lo, hi) && i < |bs| && bs[i].addr == block && bs[i].free
    requires 24 <= total && total + MIN_BLOCK <= bs[i].size && t == SplitWords(s, block, total)
    ensures Carved(s.m, t.m, bs[i], total, Head(bs[i + 1..], 0))
    ensures t.end == if i + 1 == |bs| then bs[i].addr + total else s.end
  {
    RepAt(s, bs, i, lo, hi);
    if i + 1 < |bs| {
      RepAt(s, bs, i + 1, lo, hi);
    }
    SplitCarves(s, bs[i], total, Head(bs[i + 1..], 0));
    SplitEnd(s, bs, i, lo, hi);
  }

  lemma SplitEnd(s: Image, bs: seq<Block>, i: nat, lo: nat, hi: nat)
    requires Rep(s, bs, lo, hi) && i < |bs|
    ensures s.end == bs[i].addr <==> i + 1 == |bs|
  {
    if i + 1 < |bs| {
      BlocksDisjoint(bs, i, |bs| - 1, lo, hi);
      WithinHeap(bs, i, lo, hi);
    }
  }

  lemma RepAround(s: Image, a: seq<Block>, x: Block, b: seq<Block>, lo: nat, hi: nat)
    requires Rep(s, a + ([x] + b), lo, hi)
    ensures Around(s.m, a, x, b, lo, hi)
  {
    Paste(a, x, b);
    AroundAt(s.m, a + ([x] + b), |a|, lo, hi);
  }

  lemma RepGlue(s: Image, t: Image, a: seq<Block>, x: Block, y: Block, b: seq<Block>, lo: nat, hi: nat)
    requires Rep(s, a + ([x] + ([y] + b)), lo, hi)
    requires x.addr < MEM && y.addr < MEM && t == GlueWords(s, x.addr, y.addr)
    ensures Rep(t, a + ([Glue(x, y)] + b), lo, hi)
    ensures PayloadsKept(s.m, t.m, a + ([x] + ([y] + b)))
  {
    RepAround(s, a, x, [y] + b, lo, hi);
    GlueIsGlued(s, t, a, x, y, b, lo, hi);
    GluedSeg(s.m, t.m, a, x, y, b, lo, hi);
    GluedTiles(a, x, y, b, lo, hi);
    GluedPayloads(s.m, t.m, a, x, y, b, lo, hi);
  }

  lemma GlueIsGlued(s: Image, t: Image, a: seq<Block>, x: Block, y: Block, b: seq<Block>, lo: nat, hi: nat)
    requires Around(s.m, a, x, [y] + b, lo, hi) && hi < MEM && s.end == LastAddr(a + ([x] + ([y] + b)), 0)
    requires y.addr < MEM && t == GlueWords(s, x.addr, y.addr)
    ensures Glued(s.m, t.m, x, y, Head(b, 0)) && t.end == LastAddr(a + ([Glue(x, y)] + b), 0)
  {
    hide Tiles, Glued;
    TilesOne(y, b, x.End(), hi);
    SegOne(s.m, y, b, x.addr, 0);
    TilesBounds(b, y.End(), hi);
    GlueGlues(s, x, y, Head(b, 0));
  }

  /** Which way merge_free_blocks branches, read off memory. */
  lemma NextIsFree(s: Image, a: seq<Block>, x: Block, b: seq<Block>, lo: nat, hi: nat)
    requires Rep(s, a + ([x] + b), lo, hi)
    ensures x.addr + HEADER < MEM && s.m[x.addr + 8] == Head(b, 0)
    ensures s.m[x.addr + 12] == LastAddr(a, 0)
    ensures b != [] ==> 16 <= b[0].addr < MEM - HEADER && s.m[b[0].addr + 4] == if b[0].free then 1 else 0
    ensures a != [] ==>
            16 <= a[|a| - 1].addr < MEM - HEADER && s.m[a[|a| - 1].addr + 4] == if a[|a| - 1].free then 1 else 0
  {
    RepAround(s, a, x, b, lo, hi);
    if b != [] {
      WithinHeap(b, 0, x.End(), hi);
    }
    if a != [] {
      WithinHeap(a, |a| - 1, lo, x.addr);
      SegAt(s.m, a, |a| - 1, 0, x.addr);
    }
  }

  lemma RepMergeNext(s: Image, t: Image, a: seq<Block>, x: Block, b: seq<Block>, lo: nat, hi: nat)
    requires Rep(s, a + ([x] + b), lo, hi) && x.addr < MEM && t == MergeNextWords(s, x.addr)
    ensures Rep(t, a + MergeNext(x, b), lo, hi)
    ensures PayloadsKept(s.m, t.m, a + ([x] + b))
  {
    hide Rep, Seg, Tiles, GlueWords;
    NextIsFree(s, a, x, b, lo, hi);
    if b != [] && b[0].free {
      assert b == [b[0]] + b[1..];
      RepGlue(s, t, a, x, b[0], b[1..], lo, hi);
    }
  }

  lemma RepMergePrev(s: Image, t: Image, a: seq<Block>, c: seq<Block>, lo: nat, hi: nat)
    requires c != [] && Rep(s, a + c, lo, hi) && c[0].addr < MEM && t == MergePrevWords(s, c[0].addr)
    ensures Rep(t, MergePrev(a, c), lo, hi)
    ensures PayloadsKept(s.m, t.m, a + c)
  {
    hide Rep, Seg, Tiles, GlueWords;
    assert c == [c[0]] + c[1..];
    NextIsFree(s, a, c[0], c[1..], lo, hi);
    if a != [] && a[|a| - 1].free {
      var d, x := a[..|a| - 1], a[|a| - 1];
      assert a + c == d + ([x] + ([c[0]] + c[1..]));
      RepGlue(s, t, d, x, c[0], c[1..], lo, hi);
    }
  }

  lemma RepFlag(s: Image, bs: seq<Block>, i: nat, free: bool, lo: nat, hi: nat)
    requires Rep(s, bs, lo, hi) && i < |bs| && bs[i].addr + 4 < MEM
    ensures var m := s.m[bs[i].addr + 4 := if free then 1 else 0];
            && Rep(Image(m, s.end), bs[..i] + ([bs[i].(free := free)] + bs[i + 1..]), lo, hi)
            && PayloadsKept(s.m, m, bs)
  {
    hide Seg, Around, PayloadsKept;
    var m := s.m[bs[i].addr + 4 := if free then 1 else 0];
    AroundAt(s.m, bs, i, lo, hi);
    FlagSeg(s.m, m, bs[..i], bs[i], bs[i + 1..], free, lo, hi);
    FlagPayloads(s.m, m, bs, i, if free then 1 else 0, lo, hi);
    TilesAt(bs, i, lo, hi);
    var x := bs[i].(free := free);
    assert ([x] + bs[i + 1..])[1..] == bs[i + 1..];
    TilesConcat(bs[..i], [x] + bs[i + 1..], lo, x.addr, hi);
  }

  lemma RepGrow(s: Image, bs: seq<Block>, lo: nat, hi: nat)
    requires Rep(s, bs, lo, hi) && hi + PAGE < MEM
    ensures var t := GrowWords(s, hi);
            && Rep(t, bs + [Block(hi, PAGE, true)], lo, hi + PAGE)
            && PayloadsKept(s.m, t.m, bs)
  {
    hide Seg, GrowWords, Appended;
    var k := |bs| - 1;
    var n := Block(hi, PAGE, true);
    RepAt(s, bs, k, lo, hi);
    TilesAt(bs, k, lo, hi);
    GrowAppends(s, bs[k], hi);
    AroundAt(s.m, bs, k, lo, hi);
    AppendedSeg(s.m, GrowWords(s, hi).m, bs[..k], bs[k], lo, hi);
    assert bs + [n] == bs[..k] + ([bs[k]] + [n]);
    AppendedPayloads(s.m, GrowWords(s, hi).m, bs, lo, hi);
    assert [n][1..] == [];
    TilesConcat(bs, [n], lo, hi, hi + PAGE);
  }

  lemma FlagPieces(bs: seq<Block>, i: nat, total: nat)
    requires i < |bs|
    ensures var cs := bs[..i] + (Pieces(bs[i], total, true) + bs[i + 1..]);
            && i < |cs| && cs[i] == Pieces(bs[i], total, true)[0]
            && cs[..i] + ([cs[i].(free := false)] + cs[i + 1..]) == Allocate(bs, i, total)
            && forall b :: b in bs && !b.free && b != bs[i] ==> b in cs
  {
    var ps, rest := Pieces(bs[i], total, true), bs[i + 1..];
    var cs := bs[..i] + (ps + rest);
    assert ps + rest == [ps[0]] + (ps[1..] + rest);
    Paste(bs[..i], ps[0], ps[1..] + rest);
    assert Pieces(bs[i], total, false) + rest == [ps[0].(free := false)] + (ps[1..] + rest);
    Cut(bs, i);
  }

  /** kmalloc's last lines: split block i, then clear its is_free word. */
  function TakeWords(s: Image, block: Word, total: Word): Image {
    var t := SplitWords(s, block, total);
    Image(t.m[Add(block, 4) := 0], t.end)
  }

  lemma RepTake(s: Image, t: Image, block: Word, bs: seq<Block>, i: nat, total: Word, lo: nat, hi: nat)
    requires Rep(s, bs, lo, hi) && i < |bs| && bs[i].addr == block && bs[i].free
    requires 24 <= total <= bs[i].size && total % 8 == 0 && t == TakeWords(s, block, total)
    ensures Rep(t, Allocate(bs, i, total), lo, hi)
    ensures PayloadsKept(s.m, t.m, bs)
    ensures t.m[block] == Pieces(bs[i], total, false)[0].size
  {
    hide Rep, SplitWords, Seg, Tiles, Allocate, Kept;
    var u := SplitWords(s, block, total);
    var cs := bs[..i] + (Pieces(bs[i], total, true) + bs[i + 1..]);
    RepSplit(s, u, block, bs, i, total, lo, hi);
    FlagPieces(bs, i, total);
    RepAt(u, cs, i, lo, hi);
    RepFlag(u, cs, i, false, lo, hi);
    forall b | b in bs && !b.free ensures Kept(s.m, t.m, b) {
      KeptTrans(s.m, u.m, t.m, b);
    }
  }

  lemma KeptTrans(m: seq<Word>, m1: seq<Word>, m2: seq<Word>, b: Block)
    requires Kept(m, m1, b) && Kept(m1, m2, b)
    ensures Kept(m, m2, b)
  {
  }

  lemma PayloadsTrans(m: seq<Word>, m1: seq<Word>, m2: seq<Word>, bs: seq<Block>, cs: seq<Block>)
    requires PayloadsKept(m, m1, bs) && PayloadsKept(m1, m2, cs) && bs <= cs
    ensures PayloadsKept(m, m2, bs)
  {
    forall b | b in bs && !b.free ensures Kept(m, m2, b) {
      KeptTrans(m, m1, m2, b);
    }
  }

  lemma PayloadsSame(m: seq<Word>, bs: seq<Block>)
    ensures PayloadsKept(m, m, bs)
  {
  }

  /** For a request whose total wraps around, the block handed out records a size that cannot hold it. */
  lemma TakeWrapped(s: Image, block: Word, total: Word)
    requires total <= 16
    ensures TakeWords(s, block, total).m[block] < 48
  {
    SplitSizeWord(s, block, total);
  }

  // ---------- Stale headers ----------

  /** A free block starts at p, or has swallowed the header that was once there. */
  ghost predicate Swallows(b: Block, p: nat) {
    b.free && (p == b.addr || (b.addr + 24 <= p && p + HEADER <= b.End()))
  }

  /** The header at p, live or left behind by a merge, still reads as free. */
  ghost predicate Stale(m: seq<Word>, bs: seq<Block>, p: nat) {
    p + 4 < |m| && m[p + 4] == 1 && exists b :: b in bs && Swallows(b, p)
  }

  /** No size, next or prev word of any block is the is_free word of a stale header. */
  lemma StaleApart(bs: seq<Block>, p: nat, h: Block, lo: nat, hi: nat)
    requires Tiles(bs, lo, hi) && h in bs && exists b :: b in bs && Swallows(b, p)
    ensures p + 4 != h.addr && p + 4 != h.addr + 8 && p + 4 != h.addr + 12
  {
    var b :| b in bs && Swallows(b, p);
    var j :| 0 <= j < |bs| && bs[j] == h;
    var k :| 0 <= k < |bs| && bs[k] == b;
    WithinHeap(bs, j, lo, hi);
    WithinHeap(bs, k, lo, hi);
    if j < k { BlocksDisjoint(bs, j, k, lo, hi); }
    if k < j { BlocksDisjoint(bs, k, j, lo, hi); }
  }

  lemma StaleNotLive(bs: seq<Block>, p: nat, lo: nat, hi: nat)
    requires Tiles(bs, lo, hi) && exists b :: b in bs && Swallows(b, p)
    ensures !IsLive(bs, p + HEADER) && lo <= p < hi
  {
    var b :| b in bs && Swallows(b, p);
    var k :| 0 <= k < |bs| && bs[k] == b;
    WithinHeap(bs, k, lo, hi);
    var j := IndexOf(bs, p + HEADER);
    if j < |bs| {
      WithinHeap(bs, j, lo, hi);
      if j < k { BlocksDisjoint(bs, j, k, lo, hi); }
      if k < j { BlocksDisjoint(bs, k, j, lo, hi); }
    }
  }

  lemma StaleGlued(m: seq<Word>, m': seq<Word>, a: seq<Block>, x: Block, y: Block, b: seq<Block>, lo: nat, hi: nat,
                   p: nat)
    requires Tiles(a + ([x] + ([y] + b)), lo, hi) && x.free && y.free && x.Ok() && y.Ok() && x.End() == y.addr
    requires Glued(m, m', x, y, Head(b, 0)) && Stale(m, a + ([x] + ([y] + b)), p)
    ensures Stale(m', a + ([Glue(x, y)] + b), p)
  {
    var bs := a + ([x] + ([y] + b));
    StaleApart(bs, p, x, lo, hi);
    if b != [] {
      StaleApart(bs, p, b[0], lo, hi);
    }
    var c :| c in bs && Swallows(c, p);
    var g := Glue(x, y);
    assert c in a || c == x || c == y || c in b;
    assert Swallows(if c == x || c == y then g else c, p);
  }

  lemma StaleGlue(s: Image, t: Image, a: seq<Block>, x: Block, y: Block, b: seq<Block>, lo: nat, hi: nat, p: nat)
    requires Rep(s, a + ([x] + ([y] + b)), lo, hi) && x.free && y.free
    requires x.addr < MEM && y.addr < MEM && t == GlueWords(s, x.addr, y.addr)
    requires Stale(s.m, a + ([x] + ([y] + b)), p)
    ensures Stale(t.m, a + ([Glue(x, y)] + b), p)
  {
    hide Seg, GlueWords, Stale, Glued;
    RepAround(s, a, x, [y] + b, lo, hi);
    GlueIsGlued(s, t, a, x, y, b, lo, hi);
    StaleGlued(s.m, t.m, a, x, y, b, lo, hi, p);
  }

  /** The forward merge glues exactly when the next block is free. */
  lemma MergesNext(s: Image, a: seq<Block>, x: Block, b: seq<Block>, lo: nat, hi: nat)
    requires Rep(s, a + ([x] + b), lo, hi) && x.addr < MEM
    ensures b != [] ==> b[0].addr < MEM
    ensures MergeNextWords(s, x.addr) == if b != [] && b[0].free then GlueWords(s, x.addr, b[0].addr) else s
  {
    hide Rep, GlueWords;
    NextIsFree(s, a, x, b, lo, hi);
  }

  lemma StaleMergeNext(s: Image, t: Image, a: seq<Block>, x: Block, b: seq<Block>, lo: nat, hi: nat, p: nat)
    requires Rep(s, a + ([x] + b), lo, hi) && x.addr < MEM && t == MergeNextWords(s, x.addr) && x.free
    requires Stale(s.m, a + ([x] + b), p)
    ensures Stale(t.m, a + MergeNext(x, b), p)
  {
    hide Rep, Stale, Glue, GlueWords, MergeNextWords;
    MergesNext(s, a, x, b, lo, hi);
    if b != [] && b[0].free {
      assert b == [b[0]] + b[1..];
      StaleGlue(s, t, a, x, b[0], b[1..], lo, hi, p);
    }
  }

  lemma StaleMergePrev(s: Image, t: Image, a: seq<Block>, c: seq<Block>, lo: nat, hi: nat, p: nat)
    requires c != [] && Rep(s, a + c, lo, hi) && c[0].addr < MEM && t == MergePrevWords(s, c[0].addr) && c[0].free
    requires Stale(s.m, a + c, p)
    ensures Stale(t.m, MergePrev(a, c), p)
  {
    hide Rep, Seg, Tiles, GlueWords, Stale;
    assert c == [c[0]] + c[1..];
    NextIsFree(s, a, c[0], c[1..], lo, hi);
    if a != [] && a[|a| - 1].free {
      var d, x := a[..|a| - 1], a[|a| - 1];
      assert a + c == d + ([x] + ([c[0]] + c[1..]));
      StaleGlue(s, t, d, x, c[0], c[1..], lo, hi, p);
    }
  }

  /** kfree of block i, word by word. */
  function FreeWords(s: Image, block: Word): Image {
    MergePrevWords(MergeNextWords(Image(s.m[Add(block, 4) := 1], s.end), block), block)
  }

  /** kfree(ptr), word by word, on a heap of the given size. */
  function KfreeWords(s: Image, ptr: Word, start: Word, size: Word): Image {
    var block := Sub(ptr, HEADER);
    if ptr == 0 || !(start <= block < start + size) || s.m[Add(block, 4)] != 0 then s else FreeWords(s, block)
  }

  /** kfree of each pointer in turn. */
  function KfreeEach(s: Image, ps: seq<Word>, start: Word, size: Word): Image
    decreases |ps|
  {
    if ps == [] then s else KfreeWords(KfreeEach(s, ps[..|ps| - 1], start, size), ps[|ps| - 1], start, size)
  }

  lemma {:induction false} KfreeFirst(s: Image, p: Word, ps: seq<Word>, start: Word, size: Word)
    ensures KfreeEach(s, [p] + ps, start, size) == KfreeEach(KfreeWords(s, p, start, size), ps, start, size)
    decreases |ps|
  {
    hide KfreeWords;
    var qs := [p] + ps;
    if ps == [] {
      assert qs[..0] == [];
    } else {
      assert qs[..|qs| - 1] == [p] + ps[..|ps| - 1];
      KfreeFirst(s, p, ps[..|ps| - 1], start, size);
    }
  }

  lemma RepRelease(s: Image, t: Image, bs: seq<Block>, i: nat, lo: nat, hi: nat)
    requires Rep(s, bs, lo, hi) && i < |bs| && bs[i].addr < MEM && t == FreeWords(s, bs[i].addr)
    ensures Rep(t, Release(bs, i), lo, hi)
    ensures forall b :: b in bs[..i] + bs[i + 1..] && !b.free ==> Kept(s.m, t.m, b)
  {
    hide Rep, Seg, Tiles, MergeNextWords, MergePrevWords, Kept, PayloadsKept, MergeNext, MergePrev;
    var a, x, b := bs[..i], bs[i].(free := true), bs[i + 1..];
    RepAt(s, bs, i, lo, hi);
    var s1 := Image(s.m[x.addr + 4 := 1], s.end);
    RepFlag(s, bs, i, true, lo, hi);
    var s2, c := MergeNextWords(s1, x.addr), MergeNext(x, b);
    RepMergeNext(s1, s2, a, x, b, lo, hi);
    RepMergePrev(s2, t, a, c, lo, hi);
    forall d: Block | d in a + b && !d.free ensures Kept(s.m, t.m, d) {
      KeptThrough(s.m, s1.m, s2.m, t.m, bs, i, d);
    }
  }

  lemma KeptThrough(m: seq<Word>, m1: seq<Word>, m2: seq<Word>, m3: seq<Word>, bs: seq<Block>, i: nat, d: Block)
    requires i < |bs| && d in bs[..i] + bs[i + 1..] && !d.free
    requires var a, x, b := bs[..i], bs[i].(free := true), bs[i + 1..];
             PayloadsKept(m, m1, bs) && PayloadsKept(m1, m2, a + ([x] + b)) && PayloadsKept(m2, m3, a + MergeNext(x, b))
    ensures Kept(m, m3, d)
  {
    var b := bs[i + 1..];
    assert b != [] ==> b == [b[0]] + b[1..];
    assert d in bs && Kept(m, m1, d);
    assert d in bs[..i] + ([bs[i].(free := true)] + b) && Kept(m1, m2, d);
    assert d in bs[..i] + MergeNext(bs[i].(free := true), b) && Kept(m2, m3, d);
  }

  lemma StaleRelease(s: Image, t: Image, bs: seq<Block>, i: nat, lo: nat, hi: nat, p: nat)
    requires Rep(s, bs, lo, hi) && i < |bs| && !bs[i].free && bs[i].addr < MEM && t == FreeWords(s, bs[i].addr)
    requires p == bs[i].addr || Stale(s.m, bs, p)
    ensures Stale(t.m, Release(bs, i), p)
  {
    hide Rep, Seg, Tiles, MergeNextWords, MergePrevWords, Stale, MergeNext, MergePrev;
    var a, x, b := bs[..i], bs[i].(free := true), bs[i + 1..];
    RepAt(s, bs, i, lo, hi);
    var s1 := Image(s.m[x.addr + 4 := 1], s.end);
    RepFlag(s, bs, i, true, lo, hi);
    StaleFlag(s.m, bs, i, p);
    var s2 := MergeNextWords(s1, x.addr);
    RepMergeNext(s1, s2, a, x, b, lo, hi);
    StaleMergeNext(s1, s2, a, x, b, lo, hi, p);
    StaleMergePrev(s2, t, a, MergeNext(x, b), lo, hi, p);
  }

  lemma StaleFlag(m: seq<Word>, bs: seq<Block>, i: nat, p: nat)
    requires i < |bs| && !bs[i].free && bs[i].addr + 4 < |m| && (p == bs[i].addr || Stale(m, bs, p))
    ensures Stale(m[bs[i].addr + 4 := 1], bs[..i] + ([bs[i].(free := true)] + bs[i + 1..]), p)
  {
    var x := bs[i].(free := true);
    var cs := bs[..i] + ([x] + bs[i + 1..]);
    if p == bs[i].addr {
      assert x in cs && Swallows(x, p);
    } else {
      var b :| b in bs && Swallows(b, p);
      Cut(bs, i);
      assert b in cs;
    }
  }

  /** What kfree of a live pointer does to memory and to the block list. */
  lemma RepFree(s: Image, t: Image, block: Word, bs: seq<Block>, lo: nat, hi: nat)
    requires Rep(s, bs, lo, hi) && block + HEADER < MEM && IsLive(bs, block + HEADER) && t == FreeWords(s, block)
    ensures Rep(t, Free(bs, block + HEADER), lo, hi)
    ensures forall b :: b in bs && !b.free && b.addr != block ==> Kept(s.m, t.m, b)
    ensures Stale(t.m, Free(bs, block + HEADER), block)
    ensures forall p :: Stale(s.m, bs, p) ==> Stale(t.m, Free(bs, block + HEADER), p)
  {
    hide Rep, Seg, Tiles, FreeWords, Kept, Stale, Release;
    var i := IndexOf(bs, block + HEADER);
    RepRelease(s, t, bs, i, lo, hi);
    Cut(bs, i);
    forall p | p == block || Stale(s.m, bs, p) ensures Stale(t.m, Release(bs, i), p) {
      StaleRelease(s, t, bs, i, lo, hi, p);
    }
  }

  /** What the header of a live pointer reads. */
  lemma KeptSame(m: seq<Word>)
    ensures forall b: Block :: Kept(m, m, b)
  {
  }

  lemma FreeDead(bs: seq<Block>, p: nat)
    requires !IsLive(bs, p)
    ensures Free(bs, p) == bs
  {
  }

  lemma LiveHeader(s: Image, bs: seq<Block>, p: nat, lo: nat, hi: nat)
    requires Rep(s, bs, lo, hi) && IsLive(bs, p)
    ensures lo + HEADER <= p && p + 8 <= hi && s.m[p - HEADER] == bs[IndexOf(bs, p)].size && s.m[p - 12] == 0
    ensures bs[IndexOf(bs, p)].size <= Sum(bs, false)
  {
    RepAt(s, bs, IndexOf(bs, p), lo, hi);
    SumRelease(bs, IndexOf(bs, p));
  }

  // ---------- Small facts the methods need ----------

  /** The block size kmalloc searches for, in word arithmetic. */
  function Wanted(request: Word): Word {
    Add(Add(request, 7) / 8 * 8, HEADER)
  }

  lemma RoundedTotal(request: Word)
    requires request != 0
    ensures var size := Add(request, 7) / 8 * 8;
            && size % 8 == 0
            && (request <= MAX_REQUEST ==> 8 <= size < MEM - HEADER && size + HEADER == Total(request))
            && (request > MAX_REQUEST ==> !(8 <= size < MEM - HEADER) && Add(size, HEADER) <= 16)
  {
  }

  /** Malloc, from the search and what was made of it. */
  lemma MallocIs(bs: seq<Block>, hi: nat, request: nat, page: bool, s: seq<Block>, cs: seq<Block>, p: nat)
    requires request != 0
    requires var need := Total(request);
             s == (if FirstFit(bs, need) == |bs| && page then bs + [Block(hi, PAGE, true)] else bs)
    requires var i := FirstFit(s, Total(request));
             if i == |s| then cs == s && p == 0 else cs == Allocate(s, i, Total(request)) && p == s[i].Ptr()
    ensures (cs, p) == Malloc(bs, hi, request, page)
    ensures NewEnd(bs, hi, request, page) == if FirstFit(bs, Total(request)) == |bs| && page then hi + PAGE else hi
  {
    hide FirstFit, Allocate, Total;
  }

  lemma MallocNothing(bs: seq<Block>, hi: nat, page: bool)
    ensures Malloc(bs, hi, 0, page) == (bs, 0) && NewEnd(bs, hi, 0, page) == hi
  {
  }

  predicate PowerOfTwo(n: nat) {
    n == 1 || (n > 0 && n % 2 == 0 && PowerOfTwo(n / 2))
  }

  /** (x + a - 1) & ~(a - 1) for a power of two a, as word arithmetic. */
  function AlignUp(x: Word, a: Word): Word
    requires a > 0
  {
    var y := Sub(Add(x, a), 1);
    y - y % a
  }

  lemma AlignUpIs(x: Word, a: Word)
    requires 0 < a && x + a <= MEM
    ensures x <= AlignUp(x, a) < x + a && AlignUp(x, a) % a == 0
  {
    var y := x + a - 1;
    assert y - y % a == y / a * a;
    Multiple(y / a, a);
  }

  lemma Multiple(q: nat, a: nat)
    requires a > 0
    ensures q * a % a == 0
  {
    var k := q * a / a;
    assert q * a == k * a + q * a % a;
    if k < q {
      assert q * a == k * a + (q - k) * a;
      AtLeast(q - k, a);
    } else if k > q {
      assert k * a == q * a + (k - q) * a;
      AtLeast(k - q, a);
    }
  }

  lemma AtLeast(d: nat, a: nat)
    requires d > 0
    ensures d * a >= a
  {
  }

  /** The block kmalloc_aligned gets has room for the bytes at the aligned address and a word before it. */
  lemma AlignedRoom(bs: seq<Block>, cs: seq<Block>, hi: nat, hi': nat, lo: nat, size: Word, a: Word, q: Word,
                    page: bool)
    requires Tiles(bs, lo, hi) && Tiles(cs, lo, hi') && lo % 8 == 0 && hi' < MEM && a > 0
    requires (cs, q) == Malloc(bs, hi, size + a + 3, page) && q != 0
    ensures var i, p := IndexOf(cs, q), AlignUp(Add(q, 4), a);
            && IsLive(cs, q) && cs[i].Ptr() == q && q + 4 <= p && p + size <= cs[i].End() && p % a == 0
            && forall b :: b in bs && !b.free ==> b in cs && b != cs[i]
  {
    hide Malloc;
    MallocBlock(bs, lo, hi, size + a + 3, page);
    var i := IndexOf(cs, q);
    WithinHeap(cs, i, lo, hi');
    AlignUpIs(q + 4, a);
    forall b | b in bs && !b.free ensures b in cs && b != cs[i] {
      var k :| 0 <= k < |bs| && bs[k] == b;
      IndexOfUnique(bs, k, lo, hi);
    }
  }

  lemma RepTiles(s: Image, bs: seq<Block>, lo: nat, hi: nat)
    requires Rep(s, bs, lo, hi)
    ensures Tiles(bs, lo, hi) && lo % 8 == 0 && hi < MEM
  {
  }

  lemma PayloadsKeptOn(m: seq<Word>, m1: seq<Word>, x: Word, v: Word, bs: seq<Block>, cs: seq<Block>, i: nat)
    requires PayloadsKept(m, m1, bs) && i < |cs| && x < |m1|
    requires forall b :: b in bs && !b.free ==> b in cs && b != cs[i]
    requires forall b :: b in cs && b != cs[i] ==> Kept(m1, m1[x := v], b)
    ensures PayloadsKept(m, m1[x := v], bs)
  {
    forall b | b in bs && !b.free ensures Kept(m, m1[x := v], b) {
      KeptTrans(m, m1, m1[x := v], b);
    }
  }

  lemma FirstFree(s: Image, bs: seq<Block>, need: nat, lo: nat, hi: nat)
    requires Rep(s, bs, lo, hi) && need <= 16
    ensures FirstFit(bs, need) == |bs| <==> forall b :: b in bs ==> !b.free
  {
    if FirstFit(bs, need) == |bs| {
      forall b | b in bs ensures !b.free {
        var k :| 0 <= k < |bs| && bs[k] == b;
        WithinHeap(bs, k, lo, hi);
      }
    } else {
      assert bs[FirstFit(bs, need)] in bs;
    }
  }

  lemma GrownFit(bs: seq<Block>, cs: seq<Block>, need: nat, hi: nat)
    requires FirstFit(bs, need) == |bs| && cs == bs + [Block(hi, PAGE, true)]
    ensures FirstFit(cs, need) == if need <= PAGE then |bs| else |cs|
  {
    assert forall j :: 0 <= j < |bs| ==> cs[j] == bs[j];
    assert cs[|bs|] == Block(hi, PAGE, true);
  }

  lemma BlockAddresses(s: Image, bs: seq<Block>, lo: nat, hi: nat)
    requires Rep(s, bs, lo, hi)
    ensures forall k :: 0 <= k < |bs| ==> bs[k].addr != 0 && bs[k].Ptr() < MEM
  {
    forall k | 0 <= k < |bs| ensures bs[k].addr != 0 && bs[k].Ptr() < MEM {
      WithinHeap(bs, k, lo, hi);
    }
  }

  /** Free bytes come in blocks of at least 24. */
  lemma {:induction false} FreeBytes(bs: seq<Block>, lo: nat, hi: nat)
    requires Tiles(bs, lo, hi)
    ensures if exists b :: b in bs && b.free then Sum(bs, true) >= 24 else Sum(bs, true) == 0
  {
    if bs != [] {
      FreeBytes(bs[1..], bs[0].End(), hi);
      assert bs == [bs[0]] + bs[1..];
    }
  }

  lemma PayloadWrite(s: Image, bs: seq<Block>, i: nat, a: Word, v: Word, lo: nat, hi: nat)
    requires Rep(s, bs, lo, hi) && i < |bs| && !bs[i].free && bs[i].Ptr() <= a < bs[i].End()
    ensures Rep(Image(s.m[a := v], s.end), bs, lo, hi)
    ensures forall b :: b in bs && b != bs[i] ==> Kept(s.m, s.m[a := v], b)
    ensures forall p :: Stale(s.m, bs, p) ==> Stale(s.m[a := v], bs, p)
  {
    hide Tiles, Stale;
    var x, m' := bs[i], s.m[a := v];
    AroundAt(s.m, bs, i, lo, hi);
    TilesBounds(bs[i + 1..], x.End(), hi);
    SegAround(s.m, m', bs[..i], x, bs[i + 1..], lo, hi, x.addr);
    SegPaste(m', bs[..i], x, bs[i + 1..], 0, 0);
    Cut(bs, i);
    forall b | b in bs && b != x ensures Kept(s.m, m', b) {
      var k :| 0 <= k < |bs| && bs[k] == b;
      if k < i { BlocksDisjoint(bs, k, i, lo, hi); }
      if i < k { BlocksDisjoint(bs, i, k, lo, hi); }
    }
    forall p | Stale(s.m, bs, p) ensures Stale(m', bs, p) {
      StaleElsewhere(s.m, bs, i, a, v, p, lo, hi);
    }
  }

  lemma StaleElsewhere(m: seq<Word>, bs: seq<Block>, i: nat, a: nat, v: Word, p: nat, lo: nat, hi: nat)
    requires Tiles(bs, lo, hi) && i < |bs| && !bs[i].free && bs[i].Ptr() <= a < bs[i].End() && a < |m|
    requires Stale(m, bs, p)
    ensures Stale(m[a := v], bs, p)
  {
    hide Tiles;
    var b :| b in bs && Swallows(b, p);
    var k :| 0 <= k < |bs| && bs[k] == b;
    WithinHeap(bs, k, lo, hi);
    if k < i { BlocksDisjoint(bs, k, i, lo, hi); }
    if i < k { BlocksDisjoint(bs, i, k, lo, hi); }
  }

  lemma StaleReads(s: Image, bs: seq<Block>, p: nat, lo: nat, hi: nat)
    requires Rep(s, bs, lo, hi) && Stale(s.m, bs, p)
    ensures !IsLive(bs, p + HEADER) && s.m[p + 4] != 0 && lo <= p < hi && Free(bs, p + HEADER) == bs
  {
    StaleNotLive(bs, p, lo, hi);
  }

  /** Freeing p leaves other live pointers live. */
  lemma LiveAfter(s: Image, bs: seq<Block>, p: nat, qs: seq<Word>, lo: nat, hi: nat)
    requires Rep(s, bs, lo, hi) && IsLive(bs, p)
    requires forall k :: 0 <= k < |qs| ==> qs[k] != p && IsLive(bs, qs[k])
    ensures forall k :: 0 <= k < |qs| ==> IsLive(Free(bs, p), qs[k])
  {
    FreeKeeps(bs, lo, hi, p);
    forall k | 0 <= k < |qs| ensures IsLive(Free(bs, p), qs[k]) {
      StillLive(bs, Free(bs, p), qs[k], lo, hi);
    }
  }

  // ---------- The allocator ----------

  class Heap {
    const mem: array<Word>
    var heapStart: Word
    var heapEnd: Word
    var heapSize: Word
    var heapUsed: Word
    var heapVirtStart: Word
    ghost var blocks: seq<Block>

    function End(): nat
      reads this
    {
      heapStart + heapSize
    }

    /** Memory holds the block list, which tiles the heap. */
    ghost predicate Linked()
      reads this, mem
    {
      mem.Length == MEM && heapVirtStart == heapStart && Rep(Img(), blocks, heapStart, End())
    }

    ghost function Img(): Image
      requires mem.Length == MEM
      reads this, mem
    {
      Image(mem[..], heapEnd)
    }

    /** If the heap has to grow, the new page ends below the top of the address space. */
    ghost predicate CanGrow(need: Word, phys: Word)
      reads this
    {
      FirstFit(blocks, need) == |blocks| && phys != 0 ==> End() + PAGE < MEM
    }

    ghost predicate Valid()
      reads this, mem
    {
      Linked() && heapUsed == HEADER + Sum(blocks, false)
    }

    constructor (m: array<Word>, start: Word, size: Word)
      requires m.Length == MEM
      requires 32 <= start && start % 8 == 0 && 24 <= size && size % 8 == 0 && start + size < MEM
      modifies m
      ensures Valid() && mem == m
      ensures heapStart == start && heapSize == size && blocks == [Block(start, size, true)]
    {
      mem := m;
      heapVirtStart := start;
      heapStart := start;
      heapSize := size;
      heapUsed := HEADER;
      heapEnd := start;
      blocks := [Block(start, size, true)];
      new;
      mem[start] := size;
      mem[start + 4] := 1;
      mem[start + 8] := 0;
      mem[start + 12] := 0;
      assert blocks[1..] == [];
    }

    method FindFreeBlock(size: Word) returns (b: Word)
      requires Linked()
      ensures var i := FirstFit(blocks, Add(size, HEADER));
              b == if i == |blocks| then 0 else blocks[i].addr
    {
      b := heapStart;
      ghost var i := 0;
      while b != 0
        invariant 0 <= i <= |blocks| && b == Head(blocks[i..], 0) && (b == 0 ==> i == |blocks|)
        invariant forall j :: 0 <= j < i ==> !Fits(blocks[j], Add(size, HEADER))
        decreases |blocks| - i
      {
        SegAt(mem[..], blocks, i, 0, 0);
        if mem[b + 4] != 0 && mem[b] >= Add(size, HEADER) {
          return;
        }
        b := mem[b + 8];
        i := i + 1;
        if i < |blocks| {
          WithinHeap(blocks, i, heapStart, End());
        }
      }
    }

    method Store(a: Word, v: Word)
      requires mem.Length == MEM
      modifies mem
      ensures mem[..] == old(mem[..])[a := v]
    {
      mem[a] := v;
    }

    /** Holds of any request, including those whose total wraps around. */
    method SplitBlock(block: Word, size: Word)
      requires mem.Length == MEM
      modifies mem, this`heapEnd
      ensures Img() == SplitWords(old(Img()), block, Add(size, HEADER))
    {
      var total := Add(size, HEADER);
      if mem[block] >= Add(total, MIN_BLOCK) {
        var nb := Add(block, total);
        Store(nb, Sub(mem[block], total));
        Store(Add(nb, 4), 1);
        Store(Add(nb, 8), mem[Add(block, 8)]);
        Store(Add(nb, 12), block);
        if mem[Add(block, 8)] != 0 {
          Store(Add(mem[Add(block, 8)], 12), nb);
        }
        Store(block, total);
        Store(Add(block, 8), nb);
        if block == heapEnd {
          heapEnd := nb;
        }
      }
    }

    method MergeFreeBlocks(block: Word)
      requires mem.Length == MEM
      modifies mem, this`heapEnd
      ensures Img() == MergePrevWords(MergeNextWords(old(Img()), block), block)
    {
      var n := mem[Add(block, 8)];
      if n != 0 && mem[Add(n, 4)] != 0 {
        Store(block, Add(mem[block], mem[n]));
        Store(Add(block, 8), mem[Add(n, 8)]);
        if mem[Add(block, 8)] != 0 {
          Store(Add(mem[Add(block, 8)], 12), block);
        } else {
          heapEnd := block;
        }
      }
      assert Img() == MergeNextWords(old(Img()), block);
      var p := mem[Add(block, 12)];
      if p != 0 && mem[Add(p, 4)] != 0 {
        Store(p, Add(mem[p], mem[block]));
        Store(Add(p, 8), mem[Add(block, 8)]);
        if mem[Add(p, 8)] != 0 {
          Store(Add(mem[Add(p, 8)], 12), p);
        } else {
          heapEnd := p;
        }
      }
    }

    /** kfree frees a live pointer, and leaves everything alone when handed NULL, an address outside the heap, or a
        pointer whose header reads as free. Stale headers stay stale, so a second kfree changes nothing. */
    method Kfree(ptr: Word)
      requires Valid()
      requires ptr == 0 || !InHeap(Sub(ptr, HEADER)) || IsLive(blocks, ptr) || mem[Add(Sub(ptr, HEADER), 4)] != 0
      modifies this, mem
      ensures Valid() && heapStart == old(heapStart) && heapSize == old(heapSize)
      ensures blocks == Free(old(blocks), ptr) && Img() == KfreeWords(old(Img()), ptr, heapStart, heapSize)
      ensures !old(IsLive(blocks, ptr)) ==> Img() == old(Img()) && heapUsed == old(heapUsed)
      ensures forall b :: b in old(blocks) && !b.free && b.Ptr() != ptr ==> Kept(old(mem[..]), mem[..], b)
      ensures old(IsLive(blocks, ptr)) ==> ptr >= HEADER && Stale(mem[..], blocks, ptr - HEADER)
      ensures forall p :: Stale(old(mem[..]), old(blocks), p) ==> Stale(mem[..], blocks, p)
    {
      hide Rep, Stale, Sum, Kept, FreeWords, Free, IsLive;
      KeptSame(mem[..]);
      if IsLive(blocks, ptr) {
        LiveHeader(Img(), blocks, ptr, heapStart, End());
      } else {
        FreeDead(blocks, ptr);
      }
      if ptr != 0 {
        var block := Sub(ptr, HEADER);
        if heapStart <= block < heapStart + heapSize && mem[Add(block, 4)] == 0 {
          ReleaseBlock(block);
        }
      }
    }

    method ReleaseBlock(block: Word)
      requires Valid() && block + HEADER < MEM && IsLive(blocks, block + HEADER)
      modifies this, mem
      ensures Valid() && heapStart == old(heapStart) && heapSize == old(heapSize)
      ensures blocks == Free(old(blocks), block + HEADER) && Img() == FreeWords(old(Img()), block)
      ensures forall b :: b in old(blocks) && !b.free && b.addr != block ==> Kept(old(mem[..]), mem[..], b)
      ensures Stale(mem[..], blocks, block)
      ensures forall p :: Stale(old(mem[..]), old(blocks), p) ==> Stale(mem[..], blocks, p)
    {
      hide Rep, Stale, Kept, MergeNextWords, MergePrevWords, Sum, Release;
      LiveHeader(Img(), blocks, block + HEADER, heapStart, End());
      SumRelease(blocks, IndexOf(blocks, block + HEADER));
      heapUsed := Sub(heapUsed, mem[block]);
      Store(Add(block, 4), 1);
      MergeFreeBlocks(block);
      RepFree(old(Img()), Img(), block, blocks, heapStart, End());
      blocks := Free(blocks, block + HEADER);
    }

    /** Appends the page at the end of the heap, without merging it into a free last block. */
    method ExpandHeap()
      requires Valid() && End() + PAGE < MEM
      modifies this, mem
      ensures Valid() && heapStart == old(heapStart) && heapSize == old(heapSize) + PAGE
      ensures blocks == old(blocks) + [Block(old(End()), PAGE, true)]
      ensures PayloadsKept(old(mem[..]), mem[..], old(blocks))
    {
      hide Rep, PayloadsKept;
      RepGrow(Img(), blocks, heapStart, End());
      SumConcat(blocks, [Block(End(), PAGE, true)], false);
      var newVirt := heapVirtStart + heapSize;
      heapSize := heapSize + PAGE;
      Store(newVirt, PAGE);
      Store(Add(newVirt, 4), 1);
      Store(Add(newVirt, 8), 0);
      Store(Add(newVirt, 12), heapEnd);
      if heapEnd != 0 {
        Store(Add(heapEnd, 8), newVirt);
      }
      heapEnd := newVirt;
      blocks := blocks + [Block(newVirt, PAGE, true)];
    }

    method TakeBlock(block: Word, size: Word, ghost i: nat)
      requires Valid() && i < |blocks| && blocks[i].addr == block && blocks[i].free
      requires size % 8 == 0 && Add(size, HEADER) <= blocks[i].size
      modifies this, mem
      ensures 8 <= size < MEM - HEADER ==>
                && Valid() && heapStart == old(heapStart) && heapSize == old(heapSize)
                && blocks == Allocate(old(blocks), i, size + HEADER)
                && PayloadsKept(old(mem[..]), mem[..], old(blocks))
      ensures !(8 <= size < MEM - HEADER) ==> mem[block] < 48
    {
      hide Rep, PayloadsKept, Sum, SplitWords, Allocate;
      var total := Add(size, HEADER);
      SplitBlock(block, size);
      Store(Add(block, 4), 0);
      heapUsed := Add(heapUsed, mem[block]);
      assert Img() == TakeWords(old(Img()), block, total);
      if 8 <= size < MEM - HEADER {
        RepTake(old(Img()), Img(), block, blocks, i, total, heapStart, End());
        SumAllocate(blocks, i, total);
        RepSum(Img(), Allocate(blocks, i, total), heapStart, End());
        blocks := Allocate(blocks, i, total);
      } else {
        TakeWrapped(old(Img()), block, total);
      }
    }

    /** kmalloc(request) when pmm_alloc_page would return phys. Up to MAX_REQUEST it refines first-fit on the block
        list and leaves every live payload alone. Above it, the rounding or the header addition wraps around: unless
        nothing is free and no page is to be had, the caller gets a block too small for the request. */
    method Kmalloc(request: Word, phys: Word) returns (p: Word)
      requires Valid() && CanGrow(Wanted(request), phys)
      modifies this, mem
      ensures request <= MAX_REQUEST ==>
                && Valid() && heapStart == old(heapStart)
                && (blocks, p) == Malloc(old(blocks), old(End()), request, phys != 0)
                && End() == NewEnd(old(blocks), old(End()), request, phys != 0)
                && PayloadsKept(old(mem[..]), mem[..], old(blocks))
      ensures request > MAX_REQUEST ==>
                && (p == 0 <==> phys == 0 && forall b :: b in old(blocks) ==> !b.free)
                && (p != 0 ==> p >= HEADER && mem[p - HEADER] < 48)
    {
      hide Rep, Sum, Allocate, PayloadsKept, FirstFit, Malloc, NewEnd, Total;
      p := 0;
      if request != 0 {
        var size: Word := Add(request, 7) / 8 * 8;
        RoundedTotal(request);
        if request > MAX_REQUEST {
          FirstFree(Img(), blocks, Add(size, HEADER), heapStart, End());
        }
        ghost var s;
        p, s := Place(size, phys);
        if request <= MAX_REQUEST {
          MallocIs(old(blocks), old(End()), request, phys != 0, s, blocks, p);
        }
      } else {
        PayloadsSame(mem[..], blocks);
        MallocNothing(blocks, End(), phys != 0);
      }
    }

    /** kmalloc once the size is rounded: search, grow if need be, split and take. The list s is the one searched
        last. */
    method Place(size: Word, phys: Word) returns (p: Word, ghost s: seq<Block>)
      requires Valid() && size % 8 == 0 && CanGrow(Add(size, HEADER), phys)
      modifies this, mem
      ensures var need, bs, hi := Add(size, HEADER), old(blocks), old(End());
              var grow := FirstFit(bs, need) == |bs| && phys != 0;
              && s == (if grow then bs + [Block(hi, PAGE, true)] else bs)
              && (grow && need <= PAGE ==> FirstFit(s, need) < |s|)
              && (8 <= size < MEM - HEADER ==> End() == if grow then hi + PAGE else hi)
      ensures var need, i := Add(size, HEADER), FirstFit(s, Add(size, HEADER));
              if i == |s| then p == 0 && blocks == s && Valid()
              else
                && p == s[i].Ptr() != 0
                && (8 <= size < MEM - HEADER ==> Valid() && blocks == Allocate(s, i, need))
                && (!(8 <= size < MEM - HEADER) ==> p >= HEADER && mem[p - HEADER] < 48)
      ensures 8 <= size < MEM - HEADER ==>
              heapStart == old(heapStart) && PayloadsKept(old(mem[..]), mem[..], old(blocks))
    {
      hide Rep, Sum, Allocate, PayloadsKept;
      p := 0;
      var block := FindOrGrow(size, phys);
      s := blocks;
      ghost var m1 := mem[..];
      if block != 0 {
        TakeBlock(block, size, FirstFit(blocks, Add(size, HEADER)));
        p := block + HEADER;
        if 8 <= size < MEM - HEADER {
          PayloadsTrans(old(mem[..]), m1, mem[..], old(blocks), s);
        }
      }
    }

    /** kmalloc_aligned, unless the total wraps around: the bytes asked for lie in the payload of a new block, at an
        aligned address, with the pointer kmalloc gave stored in the word before, and no other payload is disturbed. A
        total past 2^32 gets a block for what is left of it; one just short of that fails, or not, as kmalloc does. */
    method KmallocAligned(size: Word, alignment: Word, phys: Word) returns (p: Word, ghost ptr: Word)
      requires Valid() && PowerOfTwo(alignment) && CanGrow(Wanted((size + alignment + 3) % MEM), phys)
      modifies this, mem
      ensures size + alignment + 3 <= MAX_REQUEST ==>
                && Valid() && heapStart == old(heapStart) && (p == 0 <==> ptr == 0)
                && (blocks, ptr) == Malloc(old(blocks), old(End()), size + alignment + 3, phys != 0)
                && PayloadsKept(old(mem[..]), mem[..], old(blocks))
                && (p != 0 ==>
                      && p % alignment == 0 && IsLive(blocks, ptr)
                      && ptr + 4 <= p && p + size <= blocks[IndexOf(blocks, ptr)].End()
                      && mem[p - 4] == ptr)
      ensures MAX_REQUEST < size + alignment + 3 < MEM ==>
                (ptr == 0 <==> phys == 0 && forall b :: b in old(blocks) ==> !b.free)
      ensures size + alignment + 3 >= MEM ==>
                var left := (size + alignment + 3) % MEM;
                var (r, q) := Malloc(old(blocks), old(End()), left, phys != 0);
                left <= MAX_REQUEST ==> ptr == q && (q != 0 ==> IsLive(r, q) && r[IndexOf(r, q)].size < left + 56)
    {
      hide Rep, Sum, Malloc, NewEnd, PayloadsKept, Stale, AlignUp, IndexOf, Wanted;
      RepTiles(Img(), blocks, heapStart, End());
      var total := (size + alignment + 3) % MEM;
      var q := Kmalloc(total, phys);
      ptr := q;
      p := 0;
      if total <= MAX_REQUEST && q != 0 {
        MallocTight(old(blocks), old(heapStart), old(End()), total, phys != 0);
      }
      if q != 0 {
        p := AlignUp(Add(q, 4), alignment);
        if size + alignment + 3 <= MAX_REQUEST {
          RepTiles(Img(), blocks, heapStart, End());
          AlignedRoom(old(blocks), blocks, old(End()), End(), heapStart, size, alignment, q, phys != 0);
          PayloadWrite(Img(), blocks, IndexOf(blocks, q), p - 4, q, heapStart, End());
          PayloadsKeptOn(old(mem[..]), mem[..], p - 4, q, old(blocks), blocks, IndexOf(blocks, q));
        }
        Store(Sub(p, 4), q);
      }
    }

    /** First fit; if nothing fits, one more look after growing by a page, if there is one. */
    method FindOrGrow(size: Word, phys: Word) returns (block: Word)
      requires Valid() && CanGrow(Add(size, HEADER), phys)
      modifies this, mem
      ensures Valid() && heapStart == old(heapStart)
      ensures var need, hi := Add(size, HEADER), old(End());
              var grow := FirstFit(old(blocks), need) == |old(blocks)| && phys != 0;
              && blocks == (if grow then old(blocks) + [Block(hi, PAGE, true)] else old(blocks))
              && End() == (if grow then hi + PAGE else hi)
              && (grow && need <= PAGE ==> FirstFit(blocks, need) < |blocks|)
      ensures var i := FirstFit(blocks, Add(size, HEADER));
              if i == |blocks| then block == 0 else block == blocks[i].addr != 0 && blocks[i].Ptr() < MEM
      ensures PayloadsKept(old(mem[..]), mem[..], old(blocks))
    {
      hide Rep, Sum, PayloadsKept;
      PayloadsSame(mem[..], blocks);
      BlockAddresses(Img(), blocks, heapStart, End());
      block := FindFreeBlock(size);
      if block == 0 && phys != 0 {
        ExpandHeap();
        GrownFit(old(blocks), blocks, Add(size, HEADER), old(End()));
        BlockAddresses(Img(), blocks, heapStart, End());
        block := FindFreeBlock(size);
      }
    }

    /** heap_get_used counts one header too many: it is 16 more than the bytes in allocated blocks. */
    method HeapGetUsed() returns (r: Word)
      requires Valid()
      ensures r == HEADER + Sum(blocks, false)
    {
      r := heapUsed;
    }

    /** So heap_get_free is 16 short of the free bytes, and wraps around exactly when nothing at all is free. */
    method HeapGetFree() returns (r: Word)
      requires Valid()
      ensures r == if exists b :: b in blocks && b.free then Sum(blocks, true) - HEADER else MEM - HEADER
    {
      RepSum(Img(), blocks, heapStart, End());
      FreeBytes(blocks, heapStart, End());
      r := Sub(heapSize, heapUsed);
    }

    /** A caller writing inside a live payload disturbs no header and no other payload. */
    method WritePayload(a: Word, v: Word, ghost i: nat)
      requires Valid() && i < |blocks| && !blocks[i].free && blocks[i].Ptr() <= a < blocks[i].End()
      modifies mem
      ensures Valid() && mem[..] == old(mem[..])[a := v]
      ensures forall b :: b in blocks && b != blocks[i] ==> Kept(old(mem[..]), mem[..], b)
      ensures forall p :: Stale(old(mem[..]), blocks, p) ==> Stale(mem[..], blocks, p)
    {
      PayloadWrite(Img(), blocks, i, a, v, heapStart, End());
      Store(a, v);
    }

    /** kfree may be called with p: it is live, or its header, standing or swallowed by a merge, reads as free. */
    ghost predicate Freeable(p: Word)
      requires mem.Length == MEM
      reads this, mem
    {
      IsLive(blocks, p) || (p >= HEADER && Stale(mem[..], blocks, p - HEADER))
    }

    /** Freeing a list of pointers, repeats and pointers freed before included. */
    method FreeEach(ps: seq<Word>)
      requires Valid() && forall k :: 0 <= k < |ps| ==> Freeable(ps[k])
      modifies this, mem
      ensures Valid() && heapStart == old(heapStart) && heapSize == old(heapSize)
      ensures State(blocks, End()) == Run(State(old(blocks), old(End())), Deallocs(ps))
      ensures Img() == KfreeEach(old(Img()), ps, heapStart, heapSize)
      ensures forall p :: Stale(old(mem[..]), old(blocks), p) ==> Stale(mem[..], blocks, p)
    {
      hide Rep, Sum, Stale, Free, Kept, IsLive, KfreeWords;
      ghost var s0 := State(blocks, End());
      for k := 0 to |ps|
        invariant Valid() && heapStart == old(heapStart) && heapSize == old(heapSize)
        invariant forall p :: Stale(old(mem[..]), old(blocks), p) ==> Stale(mem[..], blocks, p)
        invariant forall j :: k <= j < |ps| ==> Freeable(ps[j])
        invariant State(blocks, End()) == Run(s0, Deallocs(ps[..k]))
        invariant Img() == KfreeEach(old(Img()), ps[..k], heapStart, heapSize)
      {
        assert ps[..k + 1][..k] == ps[..k];
        FreeOne(ps[k], ps[k..]);
        assert forall j :: k <= j < |ps| ==> ps[j] == ps[k..][j - k];
        RunSnoc(s0, Deallocs(ps[..k]), Dealloc(ps[k]));
        assert Deallocs(ps[..k + 1]) == Deallocs(ps[..k]) + [Dealloc(ps[k])];
      }
      assert ps[..|ps|] == ps;
    }

    /** What could be freed before kfree(p), p itself included, can be freed after it; a pointer freed before is left
        alone. */
    method FreeOne(p: Word, ghost qs: seq<Word>)
      requires Valid() && Freeable(p) && forall k :: 0 <= k < |qs| ==> Freeable(qs[k])
      modifies this, mem
      ensures Valid() && heapStart == old(heapStart) && heapSize == old(heapSize) && blocks == Free(old(blocks), p)
      ensures Img() == KfreeWords(old(Img()), p, heapStart, heapSize)
      ensures forall x :: Stale(old(mem[..]), old(blocks), x) ==> Stale(mem[..], blocks, x)
      ensures p >= HEADER && Stale(mem[..], blocks, p - HEADER)
      ensures forall k :: 0 <= k < |qs| ==> Freeable(qs[k])
    {
      hide Rep, Sum, Stale, Free, Kept, KfreeWords;
      ghost var s0, bs := Img(), blocks;
      if !IsLive(blocks, p) {
        StaleReads(s0, bs, p - HEADER, heapStart, End());
      }
      Kfree(p);
      forall k | 0 <= k < |qs| ensures Freeable(qs[k]) {
        if IsLive(bs, qs[k]) && qs[k] != p {
          if IsLive(bs, p) {
            LiveAfter(s0, bs, p, [qs[k]], heapStart, old(End()));
            assert [qs[k]][0] == qs[k];
          }
        }
      }
    }

    /** Freeing p, then any pointers that are live or were freed before, repeats included, then p again: memory and
        block list end up as if the last call had not been made, whether or not p's block was merged away. */
    method FreeTwice(p: Word, others: seq<Word>)
      requires Valid() && IsLive(blocks, p) && forall k :: 0 <= k < |others| ==> Freeable(others[k])
      modifies this, mem
      ensures Valid() && heapStart == old(heapStart) && heapSize == old(heapSize)
      ensures Img() == KfreeEach(old(Img()), [p] + others, heapStart, heapSize)
      ensures State(blocks, End()) == Run(State(old(blocks), old(End())), Deallocs([p] + others))
    {
      hide Rep, Sum, Stale, Free, Kept, KfreeWords;
      KfreeFirst(Img(), p, others, heapStart, heapSize);
      assert Deallocs([p] + others)[1..] == Deallocs(others);
      FreeOne(p, others);
      FreeEach(others);
      StaleReads(Img(), blocks, p - HEADER, heapStart, End());
      Kfree(p);
    }

    predicate InHeap(a: Word)
      reads this
    {
      heapStart <= a < heapStart + heapSize
    }
  }
}
