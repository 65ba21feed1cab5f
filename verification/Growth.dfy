/** How far the heap may grow. kmalloc maps a growth page in the current directory only (src/heap.c); a process created
    later gets a copy of the kernel's (src/paging.c). Where the slot of the page had no table when the current process
    was cloned, a stack put there is out of its owner's reach, and the switch to it faults. */
module Growth {
  import opened Machine
  import opened PmmSpec
  import opened Memory
  import opened PagingSpec
  import opened Permissions
  import opened Mmu
  import opened ElfSpec
  import opened Virtual
  import H = HeapSpec
  import S = SchedSpec
  import W = Switch
  import X = Spaces

  // ---------- The switch goes through exactly in shared slots ----------

  /** What is mapped in the current directory is mapped alike in every directory that shares the slot. */
  lemma SharedSlot(vm: VM, d: nat, p: nat)
    requires Inv(vm) && d in vm.base && p < PAGES
    ensures vm.cur < PAGES && d < PAGES
    ensures Sees(vm, d, p / 1024) ==> FrameOf(vm.m, d, p) == FrameOf(vm.m, vm.cur, p)
    ensures !Present(Ent(vm.m, d, p / 1024)) ==> FrameOf(vm.m, d, p) == None
  {
    hide Ent, Present, TablesOk;
    X.SlotOfPage(p);
  }

  /** d has no table of its own in slots it does not share with the current directory. */
  ghost predicate NoneOfItsOwn(vm: VM, d: nat, fr: map<nat, nat>)
    requires d < PAGES
  {
    forall p: nat :: p in fr && p < PAGES && !Sees(vm, d, p / 1024) ==> !Present(Ent(vm.m, d, p / 1024))
  }

  /** The addresses of the words context_switch reads and writes. */
  function Touched(esp: nat, cell: nat, newEsp: nat): seq<nat>
    requires esp >= 28
  {
    [esp - 4, esp - 8, esp - 12, esp - 16, esp - 20, esp - 24, esp - 28,
     cell, newEsp, newEsp + 4, newEsp + 8, newEsp + 12, newEsp + 16]
  }

  ghost predicate AllShared(vm: VM, d: nat, xs: seq<nat>) {
    forall x :: x in xs ==> Sees(vm, d, x / PAGE / 1024)
  }

  ghost predicate OnPages(fr: map<nat, nat>, xs: seq<nat>) {
    forall x :: x in xs ==> x < MEM && x / PAGE in fr
  }

  lemma TouchedHere(t: Ram, d: nat, esp: nat, cell: nat, newEsp: nat)
    requires d < PAGES && 28 <= esp
    ensures AllHere(t, d, esp, cell, newEsp) <==> forall x :: x in Touched(esp, cell, newEsp) ==> Here(t, d, x)
  {
    hide Here;
    var xs := Touched(esp, cell, newEsp);
    assert HereBelow(t, d, esp, 7) == (Here(t, d, esp - 4) && HereBelow(t, d, esp - 4, 6));
    assert HereBelow(t, d, esp - 4, 6) == (Here(t, d, esp - 8) && HereBelow(t, d, esp - 8, 5));
    assert HereBelow(t, d, esp - 8, 5) == (Here(t, d, esp - 12) && HereBelow(t, d, esp - 12, 4));
    assert HereBelow(t, d, esp - 12, 4) == (Here(t, d, esp - 16) && HereBelow(t, d, esp - 16, 3));
    assert HereBelow(t, d, esp - 16, 3) == (Here(t, d, esp - 20) && HereBelow(t, d, esp - 20, 2));
    assert HereBelow(t, d, esp - 20, 2) == (Here(t, d, esp - 24) && HereBelow(t, d, esp - 24, 1));
    assert HereBelow(t, d, esp - 24, 1) == (Here(t, d, esp - 28) && HereBelow(t, d, esp - 28, 0));
    assert forall i :: 0 <= i < 13 ==> xs[i] in xs;
    if forall x :: x in xs ==> Here(t, d, x) {
      assert xs[0] in xs && xs[1] in xs && xs[2] in xs && xs[3] in xs && xs[4] in xs && xs[5] in xs && xs[6] in xs;
      assert xs[7] in xs && xs[8] in xs && xs[9] in xs && xs[10] in xs && xs[11] in xs && xs[12] in xs;
    }
  }

  lemma TouchedCovered(fr: map<nat, nat>, esp: nat, cell: nat, newEsp: nat)
    requires 28 <= esp && OnPages(fr, Touched(esp, cell, newEsp))
    ensures AllCovered(fr, esp, cell, newEsp)
  {
    var xs := Touched(esp, cell, newEsp);
    assert xs[0] in xs && xs[1] in xs && xs[2] in xs && xs[3] in xs && xs[4] in xs && xs[5] in xs && xs[6] in xs;
    assert xs[7] in xs && xs[8] in xs && xs[9] in xs && xs[10] in xs && xs[11] in xs && xs[12] in xs;
    assert Covered(fr, esp - 12, 4) && Covered(fr, esp - 20, 2);
  }

  /** The pages of fr are mapped in the current directory; d, the directory of the next process, has no table of its own
      there. Then the switch goes through if and only if every word it touches lies in a slot the two directories share,
      and then it does what it would do in one memory everybody sees alike. */
  lemma SwitchIffShared(vm: VM, d: nat, fr: map<nat, nat>, c: W.Cpu, m: W.Store, cell: Word, newEsp: Word, ret: Word)
    requires Inv(vm) && vm.cur < PAGES && d in vm.base && d < PAGES && DataFrames(vm, fr) && NoneOfItsOwn(vm, d, fr)
    requires forall p :: p in fr ==> p < PAGES && FrameOf(vm.m, vm.cur, p) == Some(fr[p])
    requires Agree(c.m, m, fr) && 28 <= c.r.esp && c.r.esp + 64 < MEM && newEsp + 20 < MEM
    requires OnPages(fr, Touched(c.r.esp, cell, newEsp)) && !(c.r.esp - 28 <= cell < c.r.esp)
    ensures W.Switchable(W.Call(W.Cpu(c.r, m), cell, newEsp, ret))
    ensures SwitchThrough(vm.m, d, c, cell, newEsp, ret).Some? <==> AllShared(vm, d, Touched(c.r.esp, cell, newEsp))
    ensures SwitchThrough(vm.m, d, c, cell, newEsp, ret).Some? ==>
              var u, b := SwitchThrough(vm.m, d, c, cell, newEsp, ret).value,
                          W.ContextSwitch(W.Call(W.Cpu(c.r, m), cell, newEsp, ret));
              u.r == b.r && Agree(u.m, b.m, fr)
  {
    hide Inv, Agree, FrameOf, Sees, Ent, Present, SwitchThrough, W.Switchable, W.Call, W.ContextSwitch, AllHere,
         AllCovered, Touched, Here;
    forall p | p in fr ensures FrameOf(vm.m, d, p) == if Sees(vm, d, p / 1024) then Some(fr[p]) else None {
      SharedSlot(vm, d, p);
    }
    var xs := Touched(c.r.esp, cell, newEsp);
    forall x | x in xs ensures Here(vm.m, d, x) <==> Sees(vm, d, x / PAGE / 1024) {
      HereIs(vm.m, d, x);
    }
    TouchedHere(vm.m, d, c.r.esp, cell, newEsp);
    TouchedCovered(fr, c.r.esp, cell, newEsp);
    SwitchThroughIs(vm.m, d, fr, c, m, cell, newEsp, ret);
  }

  lemma HereIs(t: Ram, d: nat, x: Word)
    requires d < PAGES
    ensures x / PAGE < PAGES && (Here(t, d, x) <==> FrameOf(t, d, x / PAGE).Some?)
  {
    hide Lookup;
    LookupPage(t, d, x);
  }

  // ---------- Where a growth page can be seen ----------

  /** A growth page is mapped, writable and closed to user mode, exactly in the directories that share its slot with the
      current one, if the slot has a table or a second frame is free for one; otherwise it is mapped nowhere, although
      the heap takes it for granted. */
  lemma GrowthSeen(vm: VM, near: nat, fr: map<nat, nat>, hi: Word, d: nat, x: Word)
    requires Inv(vm) && Reach(vm, near) && FreeOk(vm) && vm.pool.free != {} && d in vm.base && vm.cur < PAGES
    requires d < PAGES
    requires NeedsTable(vm, hi) ==> Near(Alloc(vm.pool).0, near)
    ensures X.GrowCode(vm, fr, hi).Some?
    ensures Lookup(X.GrowCode(vm, fr, hi).value.0.m, d, x) ==
            if (NeedsTable(vm, hi) ==> |vm.pool.free| >= 2) && x / PAGE == hi / PAGE && Sees(vm, d, SlotOf(hi))
            then Some(AddressIn(FrameNo(Alloc(vm.pool).1), x)) else Lookup(vm.m, d, x)
    ensures RightsAt(X.GrowCode(vm, fr, hi).value.0.m, d, x) ==
            if (NeedsTable(vm, hi) ==> |vm.pool.free| >= 2) && x / PAGE == hi / PAGE && Sees(vm, d, SlotOf(hi))
            then Some(Both(SlotRights(vm, d, hi, 0), Rights(true, false))) else RightsAt(vm.m, d, x)
  {
    hide Inv, Reach, Lookup, MapThrough, Ent, Present, Sees, Alloc, Near, SlotOf, RightsAt, RightsIn;
    KernelFlags();
    AllocNothing(vm.pool);
    AllocFresh(vm.pool);
    var u := vm.(pool := Alloc(vm.pool).0);
    PoolInv(vm, u);
    FewerFree(vm, near, u);
    SameSight(vm, u, d, SlotOf(hi));
    AllocNothing(u.pool);
    OneLess(vm.pool.free, FrameNo(Alloc(vm.pool).1));
    MapEffect(u, near, hi, Alloc(vm.pool).1, PRESENT + WRITE, d, x);
  }

  lemma SameSight(vm: VM, u: VM, d: nat, i: nat)
    requires u == vm.(pool := u.pool)
    ensures Sees(u, d, i) <==> Sees(vm, d, i)
  {
  }

  lemma OneLess(s: set<nat>, f: nat)
    requires f in s
    ensures |s - {f}| == |s| - 1 && (s - {f} == {} <==> |s| < 2)
  {
  }

  /** As src/kernel.c sets things up, with one table for the heap at 0xC0000000 and nothing cloned yet, the heap may
      grow to 0xC0400000, which is 768 pages more than it starts with. */
  lemma FirstLimit(vm: VM, p: nat)
    requires Inv(vm) && Low(vm) && vm.base.Keys == {vm.kpd} && vm.kpd < PAGES && Present(Ent(vm.m, vm.kpd, 768))
    requires 0xC0000 <= p < 0xC0400
    ensures X.Growable(vm, LOW_FRAMES, p)
  {
    hide Ent, Present, TablesOk, Separate, Inherited, Used;
  }

  // ---------- A stack out of reach ----------

  /** A created process is current, the kernel's directory has no table in slot i, and n frames can be had. */
  ghost predicate PastTheEnd(vm: VM, near: nat, i: nat, n: nat) {
    && Inv(vm) && Reach(vm, near) && FreeOk(vm) && vm.cur != vm.kpd && vm.cur < PAGES && vm.kpd < PAGES && i < 1024
    && !Present(Ent(vm.m, vm.kpd, i)) && |vm.pool.free| >= n && forall f :: f in vm.pool.free ==> f < near
  }

  /** The heap grows there: the current process has the page, the kernel's directory has not. */
  lemma GrowsInPrivate(vm: VM, near: nat, fr: map<nat, nat>, hi: Word, n: nat)
    requires PastTheEnd(vm, near, SlotOf(hi), n + 2) && Lookup(vm.m, vm.cur, hi) == None
    ensures X.GrowCode(vm, fr, hi).Some?
    ensures var t := X.GrowCode(vm, fr, hi).value.0; PastTheEnd(t, near, SlotOf(hi), n) && t.cur == vm.cur
  {
    hide Inv, Reach, Lookup, MapThrough, Ent, Present, Alloc, SlotOf, MapPage, EnsureTable;
    AllocNothing(vm.pool);
    AllocFresh(vm.pool);
    var u, a := vm.(pool := Alloc(vm.pool).0), Alloc(vm.pool).1;
    PoolInv(vm, u);
    FewerFree(vm, near, u);
    AllocNothing(u.pool);
    OneLess(vm.pool.free, FrameNo(a));
    if Alloc(u.pool).1 != 0 { AllocFresh(u.pool); }
    CurIn(vm);
    MapEffect(u, near, hi, a, PRESENT + WRITE, vm.cur, hi);
    UnmappedUnused(u, near, hi);
    MapThroughIs(u, near, hi, a, PRESENT + WRITE);
    MapsInPrivate(u, hi, a);
  }

  lemma MapsInPrivate(u: VM, hi: Word, a: Word)
    requires Inv(u) && FreeOk(u) && u.cur < PAGES && u.cur != u.kpd && Alloc(u.pool).1 != 0
    ensures var t := MapPage(u, hi, a, PRESENT + WRITE);
            && u.kpd < PAGES && (Present(Ent(t.m, t.kpd, SlotOf(hi))) <==> Present(Ent(u.m, u.kpd, SlotOf(hi))))
            && t.pool.free <= u.pool.free && |t.pool.free| >= |u.pool.free| - 1
  {
    hide Ent, PutEnt, Alloc, Present, TablesOk, Separate, Inherited, SlotOf, ZeroFrame, Pde, Pte;
    MapPageTables(u, hi, a, PRESENT + WRITE, u.kpd, SlotOf(hi));
    AllocFresh(u.pool);
    OneLess(u.pool.free, FrameNo(Alloc(u.pool).1));
  }

  lemma Frames(vm: VM, near: nat)
    requires FreeOk(vm) && vm.pool.free != {} && forall f :: f in vm.pool.free ==> f < near
    ensures Alloc(vm.pool).1 != 0 && Near(vm.pool, near) && Near(Alloc(vm.pool).0, near)
  {
    hide Alloc;
    AllocNothing(vm.pool);
    AllocFresh(vm.pool);
    if Alloc(Alloc(vm.pool).0).1 != 0 { AllocFresh(Alloc(vm.pool).0); }
  }

  lemma CloneMisses(t: VM, near: nat, x: Word)
    requires PastTheEnd(t, near, SlotOf(x), 1)
    ensures CloneThrough(t).Some?
    ensures var (v, pd) := CloneThrough(t).value;
            && pd != 0 && FrameNo(pd) in v.base && FrameNo(pd) < PAGES && v.cur == t.cur
            && Lookup(v.m, FrameNo(pd), x) == None && Lookup(v.m, v.cur, x) == Lookup(t.m, t.cur, x)
  {
    hide Inv, Reach, Ent, Present, Alloc, SlotOf, CloneThrough, Clone, Near;
    Frames(t, near);
    CurIn(t);
    CloneThroughIs(t, near);
    X.CloneCur(t);
    CloneAddress(t);
    CloneDirs(t);
    CloneCopies(t, near, FrameNo(Alloc(t.pool).1), x);
    CloneCopies(t, near, t.cur, x);
  }

  /** The heap grows by two pages, and process_create clones a directory. */
  ghost function GrowTwiceAndClone(vm: VM, fr: map<nat, nat>, hi: Word): Option<(VM, Word)>
    requires vm.cur < PAGES && hi + PAGE < MEM
  {
    match X.GrowCode(vm, fr, hi)
    case None => None
    case Some((u, gr)) =>
      if u.cur >= PAGES then None else
      match X.GrowCode(u, gr, hi + PAGE)
      case None => None
      case Some((t, _)) => if t.cur >= PAGES || t.kpd >= PAGES then None else CloneThrough(t)
  }

  lemma InTwoPages(hi: Word, x: Word)
    requires hi % PAGE == 0 && hi + PAGE < MEM && SlotOf(hi + PAGE) == SlotOf(hi) && hi <= x < hi + 2 * PAGE
    ensures SlotOf(x) == SlotOf(hi) && (hi + PAGE) / PAGE == hi / PAGE + 1
    ensures x / PAGE == hi / PAGE || x / PAGE == (hi + PAGE) / PAGE
  {
    hide SlotOf, IndexOf;
    var k := hi / PAGE;
    assert hi == PAGE * k;
    SamePage(x, hi);
    SamePage(x, hi + PAGE);
  }

  /** The pages are there for the process that made the heap grow, and not for the one it creates. */
  lemma LostToTheNext(vm: VM, near: nat, fr: map<nat, nat>, hi: Word, x: Word)
    requires PastTheEnd(vm, near, SlotOf(hi), 5) && hi % PAGE == 0 && hi + PAGE < MEM && SlotOf(hi + PAGE) == SlotOf(hi)
    requires Lookup(vm.m, vm.cur, hi) == None && Lookup(vm.m, vm.cur, hi + PAGE) == None && hi <= x < hi + 2 * PAGE
    ensures GrowTwiceAndClone(vm, fr, hi).Some?
    ensures var (t, pd) := GrowTwiceAndClone(vm, fr, hi).value;
            && pd != 0 && FrameNo(pd) in t.base && FrameNo(pd) < PAGES && t.cur == vm.cur
            && Lookup(t.m, FrameNo(pd), x) == None && Lookup(t.m, t.cur, x).Some?
  {
    hide Inv, Reach, Lookup, Ent, Present, Alloc, SlotOf, X.GrowCode, CloneThrough, Sees, Near;
    InTwoPages(hi, x);
    Frames(vm, near);
    CurIn(vm);
    SeesSelf(vm, SlotOf(hi));
    GrowsInPrivate(vm, near, fr, hi, 3);
    var u, gr := X.GrowCode(vm, fr, hi).value.0, X.GrowCode(vm, fr, hi).value.1;
    GrowthSeen(vm, near, fr, hi, vm.cur, hi + PAGE);
    GrowthSeen(vm, near, fr, hi, vm.cur, x);
    Frames(u, near);
    CurIn(u);
    SeesSelf(u, SlotOf(hi + PAGE));
    GrowsInPrivate(u, near, gr, hi + PAGE, 1);
    GrowthSeen(u, near, gr, hi + PAGE, u.cur, x);
    var t := X.GrowCode(u, gr, hi + PAGE).value.0;
    Frames(t, near);
    CloneMisses(t, near, x);
  }

  // ---------- How a stack gets there ----------

  lemma {:induction false} FitBeyond(bs: seq<H.Block>, tail: seq<H.Block>, need: nat)
    requires H.FirstFit(bs, need) == |bs|
    ensures H.FirstFit(bs + tail, need) == |bs| + H.FirstFit(tail, need)
  {
    if bs == [] {
      assert bs + tail == tail;
    } else {
      assert (bs + tail)[1..] == bs[1..] + tail;
      FitBeyond(bs[1..], tail, need);
    }
  }

  lemma {:induction false} FindBeyond(bs: seq<H.Block>, tail: seq<H.Block>, ptr: nat)
    requires H.IndexOf(bs, ptr) == |bs|
    ensures H.IndexOf(bs + tail, ptr) == |bs| + H.IndexOf(tail, ptr)
  {
    if bs == [] {
      assert bs + tail == tail;
    } else {
      assert (bs + tail)[1..] == bs[1..] + tail;
      FindBeyond(bs[1..], tail, ptr);
    }
  }

  lemma NotBelow(bs: seq<H.Block>, lo: nat, hi: nat, ptr: nat)
    requires H.Tiles(bs, lo, hi) && ptr >= hi
    ensures H.IndexOf(bs, ptr) == |bs|
  {
    var i := H.IndexOf(bs, ptr);
    if i < |bs| {
      H.WithinHeap(bs, i, lo, hi);
    }
  }

  /** Nothing below hi fits 4000 bytes, and the last block is in use. */
  ghost predicate FullUpTo(bs: seq<H.Block>, lo: nat, hi: nat) {
    H.Tiles(bs, lo, hi) && H.FirstFit(bs, H.Total(4000)) == |bs| && (bs == [] || !bs[|bs| - 1].free)
  }

  /** kmalloc(4000) gets a page of its own past the end. */
  lemma PageForOne(bs: seq<H.Block>, tail: seq<H.Block>, end: nat)
    requires H.FirstFit(bs, H.Total(4000)) == |bs| && H.FirstFit(tail, H.Total(4000)) == |tail|
    ensures H.Malloc(bs + tail, end, 4000, true) ==
            (bs + (tail + [H.Block(end, 4016, false), H.Block(end + 4016, 80, true)]), end + 16)
    ensures H.NewEnd(bs + tail, end, 4000, true) == end + PAGE
  {
    FitBeyond(bs, tail, H.Total(4000));
    var n := [H.Block(end, PAGE, true)];
    FitBeyond(bs + tail, n, H.Total(4000));
    var s := (bs + tail) + n;
    assert H.Searched(bs + tail, end, 4000, true) == s;
    assert s[..|bs + tail|] == bs + tail && s[|bs + tail| + 1..] == [];
    assert H.Total(4000) == 4016;
    var ps := [H.Block(end, 4016, false), H.Block(end + 4016, 80, true)];
    assert H.Pieces(n[0], 4016, false) == ps && ps + [] == ps;
    assert (bs + tail) + ps == bs + (tail + ps);
  }

  lemma ReleaseAfter(bs: seq<H.Block>, tail: seq<H.Block>, k: nat)
    requires k < |tail| && (bs == [] || k > 0 || !bs[|bs| - 1].free)
    ensures H.Release(bs + tail, |bs| + k) == bs + H.Release(tail, k)
  {
    hide H.MergePrev, H.MergeNext;
    var r := bs + tail;
    assert r[..|bs| + k] == bs + tail[..k] && r[|bs| + k + 1..] == tail[k + 1..];
    MergeAfter(bs, tail[..k], H.MergeNext(tail[k].(free := true), tail[k + 1..]));
  }

  lemma MergeAfter(bs: seq<H.Block>, a: seq<H.Block>, c: seq<H.Block>)
    requires c != [] && (bs == [] || a != [] || !bs[|bs| - 1].free)
    ensures H.MergePrev(bs + a, c) == bs + H.MergePrev(a, c)
  {
    if a == [] {
      assert bs + a == bs && a + c == c;
    } else {
      var n := |a| - 1;
      assert (bs + a)[..|bs + a| - 1] == bs + a[..n] && (bs + a)[|bs + a| - 1] == a[n];
      Assoc(bs, a[..n], [H.Glue(a[n], c[0])] + c[1..]);
      Assoc(bs, a, c);
    }
  }

  lemma Assoc(x: seq<H.Block>, y: seq<H.Block>, z: seq<H.Block>)
    ensures (x + y) + z == x + (y + z)
  {
  }

  lemma FreeBoth(bs: seq<H.Block>, lo: nat, hi: nat, t: seq<H.Block>)
    requires H.Tiles(bs, lo, hi) && (bs == [] || !bs[|bs| - 1].free)
    requires t == [H.Block(hi, 4016, false), H.Block(hi + 4016, 80, true),
                   H.Block(hi + PAGE, 4016, false), H.Block(hi + PAGE + 4016, 80, true)]
    ensures H.IsLive(bs + t, hi + 16) && H.IsLive(H.Free(bs + t, hi + 16), hi + PAGE + 16)
    ensures H.Free(H.Free(bs + t, hi + 16), hi + PAGE + 16) == bs + [H.Block(hi, 2 * PAGE, true)]
  {
    hide H.Tiles, H.Release;
    NotBelow(bs, lo, hi, hi + 16);
    NotBelow(bs, lo, hi, hi + PAGE + 16);
    FindBeyond(bs, t, hi + 16);
    ReleaseAfter(bs, t, 0);
    FirstFreed(hi, t);
    var u := [H.Block(hi, PAGE, true), t[2], t[3]];
    FindBeyond(bs, u, hi + PAGE + 16);
    assert u[1..][0] == t[2];
    ReleaseAfter(bs, u, 1);
    SecondFreed(hi, u);
  }

  lemma FirstFreed(hi: nat, t: seq<H.Block>)
    requires |t| == 4 && t[0] == H.Block(hi, 4016, false) && t[1] == H.Block(hi + 4016, 80, true)
    ensures H.Release(t, 0) == [H.Block(hi, PAGE, true), t[2], t[3]]
  {
    assert t[1..][1..] == [t[2], t[3]];
  }

  lemma SecondFreed(hi: nat, u: seq<H.Block>)
    requires u == [H.Block(hi, PAGE, true), H.Block(hi + PAGE, 4016, false), H.Block(hi + PAGE + 4016, 80, true)]
    ensures H.Release(u, 1) == [H.Block(hi, 2 * PAGE, true)]
  {
    assert u[2..] == [u[2]] && u[2..][1..] == [] && u[..1] == [u[0]];
  }

  lemma {:induction false} LessFits(bs: seq<H.Block>, need: nat, more: nat)
    requires H.FirstFit(bs, need) == |bs| && need <= more
    ensures H.FirstFit(bs, more) == |bs|
  {
    if bs != [] {
      LessFits(bs[1..], need, more);
    }
  }

  lemma StackFits(bs: seq<H.Block>, hi: nat, page: bool)
    requires H.FirstFit(bs, H.Total(4000)) == |bs|
    ensures H.Malloc(bs + [H.Block(hi, 2 * PAGE, true)], hi + 2 * PAGE, S.STACK_SIZE, page).1 == hi + 16
  {
    hide H.Allocate, H.Total;
    var t, need := [H.Block(hi, 2 * PAGE, true)], H.Total(S.STACK_SIZE);
    LessFits(bs, H.Total(4000), need);
    FitBeyond(bs, t, need);
    assert H.FirstFit(t, need) == 0;
    assert H.Searched(bs + t, hi + 2 * PAGE, S.STACK_SIZE, page) == bs + t && (bs + t)[|bs|] == t[0];
  }

  /** Two requests of 4000 bytes, both freed again, leave two pages in one block; a stack goes at its start. */
  lemma StackPastTheEnd(bs: seq<H.Block>, lo: nat, hi: nat, page: bool)
    requires FullUpTo(bs, lo, hi)
    ensures var (b1, p1) := H.Malloc(bs, hi, 4000, true);
            var (b2, p2) := H.Malloc(b1, hi + PAGE, 4000, true);
            && H.NewEnd(bs, hi, 4000, true) == hi + PAGE && H.NewEnd(b1, hi + PAGE, 4000, true) == hi + 2 * PAGE
            && H.IsLive(b2, p1) && H.IsLive(H.Free(b2, p1), p2)
            && H.Malloc(H.Free(H.Free(b2, p1), p2), hi + 2 * PAGE, S.STACK_SIZE, page).1 == hi + 16
  {
    hide H.Malloc, H.NewEnd, H.Tiles;
    assert bs + [] == bs;
    PageForOne(bs, [], hi);
    var x1, f1 := H.Block(hi, 4016, false), H.Block(hi + 4016, 80, true);
    assert [] + [x1, f1] == [x1, f1];
    PageForOne(bs, [x1, f1], hi + PAGE);
    var x2, f2 := H.Block(hi + PAGE, 4016, false), H.Block(hi + PAGE + 4016, 80, true);
    var t2 := [x1, f1, x2, f2];
    assert [x1, f1] + [x2, f2] == t2;
    FreeBoth(bs, lo, hi, t2);
    StackFits(bs, hi, page);
  }

  /** The end of the slot the heap starts in. */
  const SLOT_END: Word := 0xC040_0000

  lemma SlotAfter()
    ensures SlotOf(SLOT_END) == SlotOf(SLOT_END + PAGE) == 769 && SLOT_END % PAGE == 0
  {
  }

  /** The run that fails. A created process is current, and the heap is full up to the end of its first slot. It asks
      for 4000 bytes twice, frees both, and creates a process: the new stack is at the start of the next slot, where the
      new process's directory has no table. The context_switch to the new process faults, wherever it is called from. */
  lemma NewStackFaults(vm: VM, near: nat, fr: map<nat, nat>, bs: seq<H.Block>, lo: nat, c: W.Cpu, m: W.Store,
                       gr: map<nat, nat>, cell: Word, ret: Word)
    requires FullUpTo(bs, lo, SLOT_END) && PastTheEnd(vm, near, 769, 5)
    requires Lookup(vm.m, vm.cur, SLOT_END) == None && Lookup(vm.m, vm.cur, SLOT_END + PAGE) == None
    ensures GrowTwiceAndClone(vm, fr, SLOT_END).Some?
    ensures var (b1, p1) := H.Malloc(bs, SLOT_END, 4000, true);
            var (b2, p2) := H.Malloc(b1, SLOT_END + PAGE, 4000, true);
            var stack := H.Malloc(H.Free(H.Free(b2, p1), p2), SLOT_END + 2 * PAGE, S.STACK_SIZE, true).1;
            var (t, pd) := GrowTwiceAndClone(vm, fr, SLOT_END).value;
            && stack == SLOT_END + 16 && pd != 0 && FrameNo(pd) in t.base && FrameNo(pd) < PAGES
            && (Calls(t.m, FrameNo(pd), c, m, gr, cell, stack + S.STACK_SIZE - 28) ==>
                  SwitchThrough(t.m, FrameNo(pd), c, cell, stack + S.STACK_SIZE - 28, ret) == None)
  {
    hide PastTheEnd, FullUpTo, H.Malloc, H.Free, GrowTwiceAndClone, SwitchThrough, Lookup, SlotOf, AllCovered, Partly,
         Agree;
    SlotAfter();
    InRangeOf(vm, near);
    StackPastTheEnd(bs, lo, SLOT_END, true);
    var sp := SLOT_END + 16 + S.STACK_SIZE - 28;
    LostToTheNext(vm, near, fr, SLOT_END, sp);
    var (t, pd) := GrowTwiceAndClone(vm, fr, SLOT_END).value;
    if Calls(t.m, FrameNo(pd), c, m, gr, cell, sp) {
      SwitchThroughIs(t.m, FrameNo(pd), gr, c, m, cell, sp, ret);
    }
  }

  lemma InRangeOf(vm: VM, near: nat)
    requires PastTheEnd(vm, near, 769, 5)
    ensures vm.cur < PAGES
  {
  }

  /** What context_switch asks of its caller: room on a stack in the kernel's data, and a saved stack pointer there
      too. */
  ghost predicate Calls(t: Ram, d: nat, c: W.Cpu, m: W.Store, fr: map<nat, nat>, cell: Word, newEsp: Word) {
    && Partly(t, d, fr) && Agree(c.m, m, fr) && 28 <= c.r.esp && c.r.esp + 64 < MEM && newEsp + 20 < MEM
    && AllCovered(fr, c.r.esp, cell, newEsp) && !(c.r.esp - 28 <= cell < c.r.esp)
  }
}
