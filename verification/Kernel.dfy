/** Processes, their stacks on the kernel heap, and the context switch together: src/process.c over src/heap.c and
    src/switch.asm, in one memory that everybody sees alike. Module Spaces brings in the page tables. */
module Kernel {
  import opened Machine
  import H = HeapSpec
  import S = SchedSpec
  import W = Switch

  /** What is fixed at boot: where the heap starts, where each process table slot keeps its saved stack pointer, the
      stack the kernel boots on, which the idle process runs on, and the address of process_wrapper. */
  datatype Config = Config(lo: nat, cells: seq<nat>, boot: W.Area, wrapper: Word)

  /** The process table and the boot stack lie below the heap, and apart. */
  ghost predicate ConfigOk(c: Config) {
    && 64 <= c.lo && c.lo % 8 == 0 && c.lo < MEM && |c.cells| == S.MAX
    && (forall p :: 0 <= p < S.MAX ==> c.cells[p] < c.lo && !c.boot.Holds(c.cells[p]))
    && (forall p, q :: 0 <= p < q < S.MAX ==> c.cells[p] != c.cells[q])
    && c.boot.Ok() && c.boot.hi <= c.lo && c.boot.cell == c.cells[0]
  }

  datatype State = State(y: S.Sys, w: W.Sys, h: H.State)

  predicate Alive(st: S.PState) {
    st == S.Ready || st == S.Running || st == S.Sleeping
  }

  predicate AliveAt(s: S.Sched, p: nat) {
    p < |s.procs| && Alive(s.procs[p].state)
  }

  function Top(s: S.Sched, p: nat): nat
    requires p < |s.procs|
  {
    s.procs[p].kernelStack
  }

  function Dir(s: S.Sched, p: nat): Word
    requires p < |s.procs|
  {
    s.procs[p].pageDirectory
  }

  function AreaOf(c: Config, s: S.Sched, p: nat): W.Area
    requires p < |s.procs| && |c.cells| == S.MAX && |s.procs| == S.MAX
  {
    if p == 0 then c.boot else W.Area(Nat(Top(s, p) - S.STACK_SIZE), Top(s, p), c.cells[p])
  }

  function Nat(x: int): nat { if x < 0 then 0 else x }

  // ---------- Stacks on the heap ----------

  /** The memory below top is the payload of an allocated block. */
  ghost predicate HasStack(bs: seq<H.Block>, top: nat) {
    exists b :: b in bs && IsStack(b, top)
  }

  ghost predicate IsStack(b: H.Block, top: nat) {
    !b.free && b.Ptr() + S.STACK_SIZE == top && b.size >= S.STACK_SIZE + H.HEADER
  }

  /** Every living process but idle has a stack on the heap, of its own. */
  ghost predicate Stacks(s: S.Sched, bs: seq<H.Block>) {
    && (forall p :: 1 <= p < S.MAX && AliveAt(s, p) ==> HasStack(bs, Top(s, p)))
    && (forall p, q :: 1 <= p < q < S.MAX && AliveAt(s, p) && AliveAt(s, q) ==> Top(s, p) != Top(s, q))
  }

  lemma StackWithin(bs: seq<H.Block>, lo: nat, hi: nat, top: nat)
    requires H.Tiles(bs, lo, hi) && HasStack(bs, top)
    ensures lo + H.HEADER + S.STACK_SIZE <= top <= hi && H.IsLive(bs, top - S.STACK_SIZE)
  {
    hide H.Tiles;
    var b :| b in bs && IsStack(b, top);
    var i :| 0 <= i < |bs| && bs[i] == b;
    H.WithinHeap(bs, i, lo, hi);
    H.IndexOfUnique(bs, i, lo, hi);
  }

  lemma StacksDisjoint(bs: seq<H.Block>, lo: nat, hi: nat, a: nat, b: nat)
    requires H.Tiles(bs, lo, hi) && HasStack(bs, a) && HasStack(bs, b) && a < b
    ensures a <= b - S.STACK_SIZE
  {
    hide H.Tiles;
    var x :| x in bs && IsStack(x, a);
    var z :| z in bs && IsStack(z, b);
    var i :| 0 <= i < |bs| && bs[i] == x;
    var j :| 0 <= j < |bs| && bs[j] == z;
    if i < j {
      H.BlocksDisjoint(bs, i, j, lo, hi);
    } else {
      H.BlocksDisjoint(bs, j, i, lo, hi);
    }
  }

  lemma MallocKeepsStack(bs: seq<H.Block>, lo: nat, hi: nat, size: nat, page: bool, top: nat)
    requires H.Tiles(bs, lo, hi) && lo % 8 == 0 && HasStack(bs, top)
    ensures HasStack(H.Malloc(bs, hi, size, page).0, top)
  {
    hide H.Tiles;
    var b :| b in bs && IsStack(b, top);
    if H.Malloc(bs, hi, size, page).1 != 0 {
      H.MallocBlock(bs, lo, hi, size, page);
    } else {
      PointerNonzero(bs, hi, size, page);
    }
    assert b in H.Malloc(bs, hi, size, page).0;
  }

  /** A failed kmalloc at most appends a free page. */
  lemma PointerNonzero(bs: seq<H.Block>, hi: nat, size: nat, page: bool)
    requires H.Malloc(bs, hi, size, page).1 == 0
    ensures bs <= H.Malloc(bs, hi, size, page).0
  {
  }

  /** kmalloc of a stack gives a new one. */
  lemma MallocGivesStack(bs: seq<H.Block>, lo: nat, hi: nat, page: bool)
    requires H.Tiles(bs, lo, hi) && lo % 8 == 0 && H.Malloc(bs, hi, S.STACK_SIZE, page).1 != 0
    ensures var (r, ptr) := H.Malloc(bs, hi, S.STACK_SIZE, page);
            HasStack(r, ptr + S.STACK_SIZE) && !HasStack(bs, ptr + S.STACK_SIZE)
  {
    hide H.Tiles, H.Malloc;
    var (r, ptr) := H.Malloc(bs, hi, S.STACK_SIZE, page);
    H.MallocBlock(bs, lo, hi, S.STACK_SIZE, page);
    var b := r[H.IndexOf(r, ptr)];
    assert b in r && IsStack(b, ptr + S.STACK_SIZE);
    NoStack(bs, lo, hi, ptr);
  }

  lemma NoStack(bs: seq<H.Block>, lo: nat, hi: nat, ptr: nat)
    requires H.Tiles(bs, lo, hi)
    ensures HasStack(bs, ptr + S.STACK_SIZE) ==> H.IsLive(bs, ptr)
  {
    if HasStack(bs, ptr + S.STACK_SIZE) {
      StackWithin(bs, lo, hi, ptr + S.STACK_SIZE);
    }
  }

  lemma FreeKeepsStack(bs: seq<H.Block>, lo: nat, hi: nat, p: nat, top: nat)
    requires H.Tiles(bs, lo, hi) && H.IsLive(bs, p) && HasStack(bs, top) && top != p + S.STACK_SIZE
    ensures HasStack(H.Free(bs, p), top)
  {
    hide H.Tiles, H.Free;
    var b :| b in bs && IsStack(b, top);
    H.FreeKeeps(bs, lo, hi, p);
    assert b in H.Free(bs, p);
  }

  // ---------- The invariant ----------

  ghost predicate HeapOk(c: Config, h: H.State) {
    H.Tiles(h.blocks, c.lo, h.hi) && h.hi < MEM - 64
  }

  /** The stacks in use are those of the living, and everybody living but the current process is suspended. */
  ghost predicate SwitchOk(c: Config, s: S.Sched, w: W.Sys)
    requires |s.procs| == S.MAX && |c.cells| == S.MAX
  {
    && w.cur == s.current
    && (forall p :: p in w.areas <==> AliveAt(s, p))
    && (forall p :: p in w.areas ==> w.areas[p] == AreaOf(c, s, p))
    && (forall p :: p in w.saved <==> AliveAt(s, p) && p != w.cur)
  }

  ghost predicate Inv(c: Config, k: State) {
    && ConfigOk(c) && S.Inv(k.y.sched) && W.Inv(k.w) && HeapOk(c, k.h)
    && Stacks(k.y.sched, k.h.blocks) && k.y.sched.Ok() && SwitchOk(c, k.y.sched, k.w)
  }

  /** Stacks taken from the heap do not overlap, and hold no saved stack pointer. */
  lemma AreasApart(c: Config, s: S.Sched, h: H.State, l: W.Layout)
    requires ConfigOk(c) && |s.procs| == S.MAX && HeapOk(c, h) && Stacks(s, h.blocks)
    requires forall p :: p in l ==> AliveAt(s, p) && l[p] == AreaOf(c, s, p)
    ensures W.Apart(l)
  {
    hide HeapOk, HasStack, AreaOf, Stacks;
    forall p | p in l
      ensures p < S.MAX && l[p].Ok() && l[p].cell == c.cells[p]
      ensures forall q :: 0 <= q < S.MAX ==> !l[p].Holds(c.cells[q])
    {
      AreaFits(c, s, h, p);
    }
    forall p, q | p in l && q in l && p != q ensures l[p].hi <= l[q].lo || l[q].hi <= l[p].lo {
      AreasDisjoint(c, s, h, p, q);
    }
  }

  lemma AreaFits(c: Config, s: S.Sched, h: H.State, p: nat)
    requires ConfigOk(c) && |s.procs| == S.MAX && HeapOk(c, h) && Stacks(s, h.blocks) && AliveAt(s, p)
    ensures var a := AreaOf(c, s, p);
            && a.Ok() && a.cell == c.cells[p] && (p > 0 ==> c.lo <= a.lo && a.lo + S.STACK_SIZE == a.hi)
            && forall q :: 0 <= q < S.MAX ==> !a.Holds(c.cells[q])
  {
    hide HasStack, H.Tiles;
    if p > 0 {
      StackWithin(h.blocks, c.lo, h.hi, Top(s, p));
    }
  }

  lemma AreasDisjoint(c: Config, s: S.Sched, h: H.State, p: nat, q: nat)
    requires ConfigOk(c) && |s.procs| == S.MAX && HeapOk(c, h) && Stacks(s, h.blocks)
    requires AliveAt(s, p) && AliveAt(s, q) && p != q
    ensures var a, b := AreaOf(c, s, p), AreaOf(c, s, q); a.hi <= b.lo || b.hi <= a.lo
  {
    hide HasStack, H.Tiles;
    AreaFits(c, s, h, p);
    AreaFits(c, s, h, q);
    if p > 0 && q > 0 {
      if Top(s, p) < Top(s, q) {
        StacksDisjoint(h.blocks, c.lo, h.hi, Top(s, p), Top(s, q));
      } else {
        assert Top(s, p) != Top(s, q);
        StacksDisjoint(h.blocks, c.lo, h.hi, Top(s, q), Top(s, p));
      }
    }
  }

  // ---------- What schedule picks ----------

  /** schedule changes neither who is alive nor anybody's stack, and picks somebody alive. */
  lemma ScheduleStates(e: S.Sched, p: nat)
    requires S.Poised(e) && p < S.MAX
    ensures var t := S.Schedule(e);
            && t.Ok() && (AliveAt(t, p) <==> AliveAt(e, p)) && Top(t, p) == Top(e, p) && Dir(t, p) == Dir(e, p)
            && AliveAt(e, t.current) && (t.current == 0 || t.current in S.WakeFrom(e, 0).queue)
  {
    hide S.WakeFrom, S.Dispatch;
    S.WakePoised(e, 0);
    var w := S.WakeFrom(e, 0);
    var t := S.Dispatch(w);
    S.WakeExact(e, 0, p);
    S.DispatchElsewhere(w, p);
    S.DispatchInv(w);
    S.WakeExact(e, 0, t.current);
    QueuedReady(w, t.current);
  }

  lemma QueuedReady(w: S.Sched, p: nat)
    requires S.Poised(w)
    ensures p in w.queue ==> p < S.MAX && w.State(p) == S.Ready
    ensures AliveAt(w, 0)
  {
  }

  /** Yielding, sleeping and ticking change neither who is alive nor anybody's stack. */
  lemma CalmStates(y: S.Sys, op: S.Op, p: nat)
    requires S.Inv(y.sched) && p < S.MAX && !op.DoCreate? && !op.DoExit?
    ensures var t := S.Step(y, op).sched;
            && t.Ok() && (AliveAt(t, p) <==> AliveAt(y.sched, p)) && Top(t, p) == Top(y.sched, p)
            && Dir(t, p) == Dir(y.sched, p)
  {
    hide S.WakeFrom, S.Dispatch, S.QueueOk, S.Schedule;
    match S.Entry(y, op) {
      case Some(e) =>
        EntryStates(y, op, p);
        ScheduleStates(e, p);
      case None =>
    }
  }

  lemma EntryStates(y: S.Sys, op: S.Op, p: nat)
    requires S.Inv(y.sched) && p < S.MAX && !op.DoExit? && S.Entry(y, op).Some?
    ensures var e := S.Entry(y, op).value;
            && (AliveAt(e, p) <==> AliveAt(y.sched, p)) && Top(e, p) == Top(y.sched, p)
            && Dir(e, p) == Dir(y.sched, p)
  {
  }

  lemma ExitStates(y: S.Sys, code: int, p: nat)
    requires S.Inv(y.sched) && p < S.MAX && y.sched.procs[y.sched.current].pid != 0
    ensures var s, t := y.sched, S.Step(y, S.DoExit(code)).sched;
            && t.Ok() && (AliveAt(t, p) <==> AliveAt(s, p) && p != s.current) && Top(t, p) == Top(s, p)
            && Dir(t, p) == Dir(s, p)
            && t.current != s.current && AliveAt(s, t.current) && s.current != 0 && AliveAt(s, s.current)
  {
    hide S.WakeFrom, S.Dispatch, S.QueueOk, S.Schedule;
    var e := S.Entry(y, S.DoExit(code)).value;
    assert e == S.Exiting(y.sched, code);
    ScheduleStates(e, p);
    ScheduleStates(e, y.sched.current);
    IdlePid(y.sched);
  }

  lemma IdlePid(s: S.Sched)
    requires S.Inv(s)
    ensures s.procs[0].pid == 0 && AliveAt(s, s.current) && AliveAt(s, 0)
  {
  }

  /** Somebody else picked was alive before, hence suspended. */
  lemma PicksAlive(y: S.Sys, op: S.Op)
    requires S.Inv(y.sched) && !op.DoCreate? && !op.DoExit?
    ensures AliveAt(y.sched, S.Step(y, op).sched.current)
  {
    hide S.WakeFrom, S.Dispatch, S.QueueOk, S.Schedule;
    IdlePid(y.sched);
    match S.Entry(y, op) {
      case Some(e) =>
        ScheduleStates(e, 0);
        EntryStates(y, op, S.Schedule(e).current);
      case None =>
    }
  }

  // ---------- Steps ----------

  datatype Op =
    | Sched(op: S.Op, ret: Word)
    | Exit(code: int, ret: Word)
    | Create(pd: Word, page: bool, entry: Word)
    | Malloc(size: nat, page: bool)
    | Free(ptr: nat)
    | Compute(regs: W.Regs, m: W.Store)

  /** Room on the current stack for a call of context_switch. */
  ghost predicate Room(w: W.Sys) {
    w.cur in w.areas && w.areas[w.cur].lo + 28 <= w.cpu.r.esp <= w.areas[w.cur].hi
  }

  /** Callers leave room on their stack, free only what is allocated and nobody's stack, write only where they may; and
      the heap stays below the top of the address space. Nothing is asked about whom schedule picks. */
  ghost predicate Legal(c: Config, k: State, op: Op)
    requires Inv(c, k)
  {
    match op
    case Sched(o, _) => !o.DoCreate? && !o.DoExit? && Room(k.w)
    case Exit(_, _) => Room(k.w)
    case Create(_, page, _) => H.NewEnd(k.h.blocks, k.h.hi, S.STACK_SIZE, page) < MEM - 64
    case Malloc(size, page) => H.NewEnd(k.h.blocks, k.h.hi, size, page) < MEM - 64
    case Free(ptr) =>
      && H.IsLive(k.h.blocks, ptr)
      && forall p :: 1 <= p < S.MAX && AliveAt(k.y.sched, p) ==> Top(k.y.sched, p) != ptr + S.STACK_SIZE
    case Compute(regs, m) => W.KeepsOff(k.w, m)
  }

  /** Whomever schedule picks, if it is not the caller, is suspended, its stack as it left it. */
  lemma PickedIsSuspended(c: Config, k: State, o: S.Op)
    requires Inv(c, k) && !o.DoCreate?
    ensures var q := S.Step(k.y, o).sched.current;
            q != k.w.cur ==> q in k.w.saved && q in k.w.areas && k.w.areas[q].Ok()
                             && W.Intact(k.w.areas, k.w.cpu.m, q, k.w.saved[q])
  {
    hide S.Inv, HeapOk, Stacks, W.Intact, ConfigOk, S.Step;
    Picked(k.y, o);
  }

  lemma Picked(y: S.Sys, o: S.Op)
    requires S.Inv(y.sched) && !o.DoCreate?
    ensures var q := S.Step(y, o).sched.current; q != y.sched.current ==> AliveAt(y.sched, q)
  {
    hide S.Schedule, S.QueueOk;
    match o {
      case DoExit(code) =>
        if y.sched.procs[y.sched.current].pid != 0 {
          ExitStates(y, code, 0);
        }
      case _ => PicksAlive(y, o);
    }
  }

  /** The call of context_switch at the end of schedule, if somebody else was picked. */
  ghost function SwitchIf(w: W.Sys, q: nat, ret: Word): W.Sys
    requires W.Inv(w) && (q != w.cur ==> q in w.saved && Room(w))
  {
    if q == w.cur then w else W.Step(w, W.SwitchTo(q, ret))
  }

  /** The same when the caller has exited. */
  ghost function ExitInto(w: W.Sys, q: nat, ret: Word): W.Sys
    requires W.Inv(w) && q in w.saved && Room(w)
  {
    W.Step(w, W.ExitTo(q, ret))
  }

  ghost function Step(c: Config, k: State, op: Op): State
    requires Inv(c, k) && Legal(c, k, op)
  {
    match op
    case Sched(o, ret) => SchedStep(c, k, o, ret)
    case Exit(code, ret) => ExitStep(c, k, code, ret)
    case Create(pd, page, entry) => CreateStep(c, k, pd, page, entry)
    case Malloc(size, page) =>
      k.(h := H.State(H.Malloc(k.h.blocks, k.h.hi, size, page).0, H.NewEnd(k.h.blocks, k.h.hi, size, page)))
    case Free(ptr) => k.(h := k.h.(blocks := H.Free(k.h.blocks, ptr)))
    case Compute(regs, m) => k.(w := k.w.(cpu := W.Cpu(regs, m)))
  }

  /** Yielding, sleeping and timer interrupts. */
  ghost function SchedStep(c: Config, k: State, o: S.Op, ret: Word): State
    requires Inv(c, k) && !o.DoCreate? && !o.DoExit? && Room(k.w)
  {
    PickedIsSuspended(c, k, o);
    var y := S.Step(k.y, o);
    State(y, SwitchIf(k.w, y.sched.current, ret), k.h)
  }

  /** process_exit: the stack is given back, and then left for good by the switch to the next process. */
  ghost function ExitStep(c: Config, k: State, code: int, ret: Word): State
    requires Inv(c, k) && Room(k.w)
  {
    var s := k.y.sched;
    if s.procs[s.current].pid == 0 then k else
    ExitStates(k.y, code, 0);
    PickedIsSuspended(c, k, S.DoExit(code));
    var y := S.Step(k.y, S.DoExit(code));
    State(y, ExitInto(k.w, y.sched.current, ret),
        k.h.(blocks := H.Free(k.h.blocks, Nat(Top(s, s.current) - S.STACK_SIZE))))
  }

  /** process_create: slot, page directory, stack, first frame. */
  ghost function CreateStep(c: Config, k: State, pd: Word, page: bool, entry: Word): State
    requires Inv(c, k) && H.NewEnd(k.h.blocks, k.h.hi, S.STACK_SIZE, page) < MEM - 64
  {
    var i := S.FreeSlot(k.y.sched.procs, 1);
    if i == S.MAX || pd == 0 then k.(y := S.Step(k.y, S.DoCreate(pd, 0))) else
    var (bs, ptr) := H.Malloc(k.h.blocks, k.h.hi, S.STACK_SIZE, page);
    var h := H.State(bs, H.NewEnd(k.h.blocks, k.h.hi, S.STACK_SIZE, page));
    if ptr == 0 then State(S.Step(k.y, S.DoCreate(pd, 0)), k.w, h) else
    CreateReady(c, k, pd, page, entry);
    State(S.Step(k.y, S.DoCreate(pd, ptr)), W.Step(k.w, W.Spawn(i, NewArea(c, i, ptr), entry, c.wrapper)), h)
  }

  function NewArea(c: Config, i: nat, ptr: nat): W.Area
    requires i < |c.cells|
  {
    W.Area(ptr, ptr + S.STACK_SIZE, c.cells[i])
  }

  // ---------- Creation ----------

  /** A successful creation adds one living process and changes nobody else. */
  lemma CreateStates(y: S.Sys, pd: Word, ptr: Word, p: nat)
    requires S.Inv(y.sched) && p < S.MAX && ptr + S.STACK_SIZE < MEM
    ensures var s, t, i := y.sched, S.Step(y, S.DoCreate(pd, ptr)).sched, S.FreeSlot(y.sched.procs, 1);
            var ok := i < S.MAX && pd != 0 && ptr != 0;
            && t.Ok() && t.current == s.current && 1 <= i <= S.MAX
            && (AliveAt(t, p) <==> AliveAt(s, p) || (ok && p == i)) && (i < S.MAX ==> !AliveAt(s, i))
            && (AliveAt(t, p) ==> Top(t, p) == if p == i then ptr + S.STACK_SIZE else Top(s, p))
            && (AliveAt(t, p) ==> Dir(t, p) == if p == i then pd else Dir(s, p))
  {
    hide S.QueueOk;
  }

  lemma NewStacks(c: Config, s: S.Sched, t: S.Sched, h: H.State, page: bool, i: nat)
    requires ConfigOk(c) && HeapOk(c, h) && Stacks(s, h.blocks) && |s.procs| == |t.procs| == S.MAX && 1 <= i < S.MAX
    requires var (r, ptr) := H.Malloc(h.blocks, h.hi, S.STACK_SIZE, page);
             ptr != 0
             && forall p :: 0 <= p < S.MAX && AliveAt(t, p) ==>
                  (p == i && Top(t, p) == ptr + S.STACK_SIZE) || (p != i && AliveAt(s, p) && Top(t, p) == Top(s, p))
    ensures Stacks(t, H.Malloc(h.blocks, h.hi, S.STACK_SIZE, page).0)
  {
    hide HasStack, H.Tiles, H.Malloc;
    var (r, ptr) := H.Malloc(h.blocks, h.hi, S.STACK_SIZE, page);
    MallocGivesStack(h.blocks, c.lo, h.hi, page);
    forall p | 1 <= p < S.MAX && AliveAt(t, p)
      ensures HasStack(r, Top(t, p)) && (p != i ==> HasStack(h.blocks, Top(t, p)))
    {
      if p != i {
        MallocKeepsStack(h.blocks, c.lo, h.hi, S.STACK_SIZE, page, Top(s, p));
      }
    }
  }

  lemma GrownHeap(c: Config, h: H.State, size: nat, page: bool)
    requires HeapOk(c, h) && H.NewEnd(h.blocks, h.hi, size, page) < MEM - 64
    ensures HeapOk(c, H.State(H.Malloc(h.blocks, h.hi, size, page).0, H.NewEnd(h.blocks, h.hi, size, page)))
  {
    H.MallocTiles(h.blocks, c.lo, h.hi, size, page);
  }

  /** What the new process needs for its stack to be handed over. */
  lemma CreateReady(c: Config, k: State, pd: Word, page: bool, entry: Word)
    requires Inv(c, k) && H.NewEnd(k.h.blocks, k.h.hi, S.STACK_SIZE, page) < MEM - 64
    requires S.FreeSlot(k.y.sched.procs, 1) < S.MAX && pd != 0
    requires H.Malloc(k.h.blocks, k.h.hi, S.STACK_SIZE, page).1 != 0
    ensures var i, ptr := S.FreeSlot(k.y.sched.procs, 1), H.Malloc(k.h.blocks, k.h.hi, S.STACK_SIZE, page).1;
            && ptr + S.STACK_SIZE < MEM && i < |c.cells|
            && W.Legal(k.w, W.Spawn(i, NewArea(c, i, ptr), entry, c.wrapper))
            && Stacks(S.Step(k.y, S.DoCreate(pd, ptr)).sched, H.Malloc(k.h.blocks, k.h.hi, S.STACK_SIZE, page).0)
  {
    hide S.Inv, W.Inv, HasStack, H.Tiles, H.Malloc, H.NewEnd, S.Step, S.FreeSlot, W.Apart, AreaOf, Stacks;
    var h, i := k.h, S.FreeSlot(k.y.sched.procs, 1);
    var (r, ptr) := H.Malloc(h.blocks, h.hi, S.STACK_SIZE, page);
    GrownHeap(c, h, S.STACK_SIZE, page);
    MallocGivesStack(h.blocks, c.lo, h.hi, page);
    StackWithin(r, c.lo, H.NewEnd(h.blocks, h.hi, S.STACK_SIZE, page), ptr + S.STACK_SIZE);
    var s, t := k.y.sched, S.Step(k.y, S.DoCreate(pd, ptr)).sched;
    CreateStates(k.y, pd, ptr, i);
    forall p: nat | p < S.MAX
      ensures (AliveAt(t, p) <==> AliveAt(s, p) || p == i) && !AliveAt(s, i) && 1 <= i
      ensures AliveAt(t, p) ==> Top(t, p) == if p == i then ptr + S.STACK_SIZE else Top(s, p)
    {
      CreateStates(k.y, pd, ptr, p);
    }
    NewStacks(c, s, t, h, page, i);
    NewLayout(c, s, t, H.State(r, H.NewEnd(h.blocks, h.hi, S.STACK_SIZE, page)), k.w.areas, i, ptr);
  }

  lemma NewLayout(c: Config, s: S.Sched, t: S.Sched, h: H.State, l: W.Layout, i: nat, ptr: nat)
    requires ConfigOk(c) && HeapOk(c, h) && Stacks(t, h.blocks) && |s.procs| == |t.procs| == S.MAX && 1 <= i < S.MAX
    requires forall p :: p in l ==> AliveAt(s, p) && l[p] == AreaOf(c, s, p)
    requires forall p :: AliveAt(s, p) ==> p in l
    requires forall p :: 0 <= p < S.MAX ==> (AliveAt(t, p) <==> AliveAt(s, p) || p == i)
    requires !AliveAt(s, i) && Top(t, i) == ptr + S.STACK_SIZE
    requires forall p :: 0 <= p < S.MAX && AliveAt(s, p) ==> Top(t, p) == Top(s, p)
    ensures var l' := l[i := NewArea(c, i, ptr)];
            && W.Apart(l') && l'[i].Ok() && (forall p :: p in l' <==> AliveAt(t, p))
            && forall p :: p in l' ==> l'[p] == AreaOf(c, t, p)
  {
    hide HasStack, H.Tiles, HeapOk, Stacks;
    var l' := l[i := NewArea(c, i, ptr)];
    AreasApart(c, t, h, l');
  }

  // ---------- The invariant is kept ----------

  lemma StacksSame(s: S.Sched, t: S.Sched, bs: seq<H.Block>)
    requires Stacks(s, bs)
    requires forall p: nat :: p < S.MAX && AliveAt(t, p) ==> AliveAt(s, p) && Top(t, p) == Top(s, p)
    ensures Stacks(t, bs)
  {
    hide HasStack;
  }

  lemma AreaSame(c: Config, s: S.Sched, t: S.Sched, p: nat)
    requires |c.cells| == |s.procs| == |t.procs| == S.MAX && p < S.MAX && Top(t, p) == Top(s, p)
    ensures AreaOf(c, t, p) == AreaOf(c, s, p)
  {
  }

  /** The switch half of a calm scheduling step. */
  lemma SwitchOkCalm(c: Config, s: S.Sched, t: S.Sched, w: W.Sys, ret: Word)
    requires |c.cells| == |s.procs| == |t.procs| == S.MAX && SwitchOk(c, s, w) && W.Inv(w) && Room(w)
    requires AliveAt(s, t.current)
    requires forall p: nat :: p < S.MAX ==> (AliveAt(t, p) <==> AliveAt(s, p)) && Top(t, p) == Top(s, p)
    ensures t.current != w.cur ==> t.current in w.saved
    ensures W.Inv(SwitchIf(w, t.current, ret)) && SwitchOk(c, t, SwitchIf(w, t.current, ret))
  {
    hide W.Inv, AreaOf, W.Step;
    var q := t.current;
    var v := SwitchIf(w, q, ret);
    if q != w.cur {
      W.StepInv(w, W.SwitchTo(q, ret));
      SwitchKeys(w, q, ret);
    }
    forall p | p in v.areas ensures v.areas[p] == AreaOf(c, t, p) {
      AreaSame(c, s, t, p);
    }
  }

  lemma SwitchKeys(w: W.Sys, q: nat, ret: Word)
    requires W.Inv(w) && W.CanSwitch(w, q)
    ensures var t := W.Step(w, W.SwitchTo(q, ret));
            t.cur == q && t.areas == w.areas && t.saved.Keys == w.saved.Keys - {q} + {w.cur}
  {
    W.SwitchCur(w, q, ret);
  }

  lemma SchedInv(c: Config, k: State, o: S.Op, ret: Word)
    requires Inv(c, k) && !o.DoCreate? && !o.DoExit? && Room(k.w)
    ensures Inv(c, SchedStep(c, k, o, ret))
  {
    hide S.Step, W.Inv, HeapOk, Stacks, AreaOf, SwitchIf, SwitchOk, ConfigOk, S.Inv;
    SizeOk(c);
    var s, t := k.y.sched, S.Step(k.y, o).sched;
    CalmStates(k.y, o, 0);
    forall p: nat | p < S.MAX ensures (AliveAt(t, p) <==> AliveAt(s, p)) && Top(t, p) == Top(s, p) {
      CalmStates(k.y, o, p);
    }
    PicksAlive(k.y, o);
    StacksSame(s, t, k.h.blocks);
    SwitchOkCalm(c, s, t, k.w, ret);
  }

  lemma SizeOk(c: Config)
    requires ConfigOk(c)
    ensures |c.cells| == S.MAX
  {
  }

  lemma ExitInv(c: Config, k: State, code: int, ret: Word)
    requires Inv(c, k) && Room(k.w)
    ensures Inv(c, ExitStep(c, k, code, ret))
  {
    hide S.Step, W.Inv, ExitInto, HeapOk, Stacks, AreaOf, SwitchOk, ConfigOk, S.Inv, H.Free;
    var s := k.y.sched;
    if s.procs[s.current].pid != 0 {
      SizeOk(c);
      var t := S.Step(k.y, S.DoExit(code)).sched;
      ExitStates(k.y, code, 0);
      forall p: nat | p < S.MAX ensures (AliveAt(t, p) <==> AliveAt(s, p) && p != s.current) && Top(t, p) == Top(s, p) {
        ExitStates(k.y, code, p);
      }
      StacksAfterExit(c, s, t, k.h);
      SwitchOkExit(c, s, t, k.w, ret);
    }
  }

  lemma StacksAfterExit(c: Config, s: S.Sched, t: S.Sched, h: H.State)
    requires HeapOk(c, h) && Stacks(s, h.blocks) && |s.procs| == |t.procs| == S.MAX && 1 <= s.current < S.MAX
    requires AliveAt(s, s.current)
    requires forall p: nat :: p < S.MAX ==>
             (AliveAt(t, p) <==> AliveAt(s, p) && p != s.current) && Top(t, p) == Top(s, p)
    ensures var g := h.(blocks := H.Free(h.blocks, Nat(Top(s, s.current) - S.STACK_SIZE)));
            HeapOk(c, g) && Stacks(t, g.blocks)
  {
    hide HasStack, H.Free, H.Tiles, H.IsLive;
    var ptr := Nat(Top(s, s.current) - S.STACK_SIZE);
    StackWithin(h.blocks, c.lo, h.hi, Top(s, s.current));
    H.FreeKeeps(h.blocks, c.lo, h.hi, ptr);
    forall p | 1 <= p < S.MAX && AliveAt(t, p) ensures HasStack(H.Free(h.blocks, ptr), Top(t, p)) {
      assert Top(s, p) != Top(s, s.current);
      FreeKeepsStack(h.blocks, c.lo, h.hi, ptr, Top(s, p));
    }
  }

  lemma SwitchOkExit(c: Config, s: S.Sched, t: S.Sched, w: W.Sys, ret: Word)
    requires |c.cells| == |s.procs| == |t.procs| == S.MAX && SwitchOk(c, s, w) && W.Inv(w) && Room(w)
    requires AliveAt(s, t.current) && t.current != s.current
    requires forall p: nat :: p < S.MAX ==>
             (AliveAt(t, p) <==> AliveAt(s, p) && p != s.current) && Top(t, p) == Top(s, p)
    ensures t.current in w.saved
    ensures W.Inv(ExitInto(w, t.current, ret)) && SwitchOk(c, t, ExitInto(w, t.current, ret))
  {
    hide W.Inv, AreaOf, W.Step;
    var v := W.Step(w, W.ExitTo(t.current, ret));
    W.StepInv(w, W.ExitTo(t.current, ret));
    W.ExitEffect(w, t.current, ret);
    forall p | p in v.areas ensures v.areas[p] == AreaOf(c, t, p) {
      AreaSame(c, s, t, p);
    }
  }

  lemma CreateInv(c: Config, k: State, pd: Word, page: bool, entry: Word)
    requires Inv(c, k) && Legal(c, k, Create(pd, page, entry))
    ensures Inv(c, CreateStep(c, k, pd, page, entry))
  {
    hide S.Step, W.Inv, W.Step, W.Legal, HeapOk, Stacks, AreaOf, SwitchOk, ConfigOk, S.Inv, H.Malloc, H.NewEnd,
         S.FreeSlot;
    SizeOk(c);
    var i := S.FreeSlot(k.y.sched.procs, 1);
    if i == S.MAX || pd == 0 {
      CreateFails(c, k, pd);
    } else {
      GrownHeap(c, k.h, S.STACK_SIZE, page);
      if H.Malloc(k.h.blocks, k.h.hi, S.STACK_SIZE, page).1 == 0 {
        CreateFails(c, k, pd);
        MallocStacks(c, S.Step(k.y, S.DoCreate(pd, 0)).sched, k.h, S.STACK_SIZE, page);
      } else {
        CreateReady(c, k, pd, page, entry);
        SwitchOkCreate(c, k, pd, page, entry);
      }
    }
  }

  /** Without a slot, a directory or a stack nobody new is alive. */
  lemma CreateFails(c: Config, k: State, pd: Word)
    requires Inv(c, k)
    ensures Inv(c, k.(y := S.Step(k.y, S.DoCreate(pd, 0))))
  {
    hide S.Step, W.Inv, HeapOk, Stacks, AreaOf, ConfigOk, S.Inv, S.FreeSlot;
    SizeOk(c);
    var s, t := k.y.sched, S.Step(k.y, S.DoCreate(pd, 0)).sched;
    CreateStates(k.y, pd, 0, 0);
    forall p: nat | p < S.MAX ensures (AliveAt(t, p) <==> AliveAt(s, p)) && (AliveAt(t, p) ==> Top(t, p) == Top(s, p)) {
      CreateStates(k.y, pd, 0, p);
    }
    StacksSame(s, t, k.h.blocks);
    forall p | p in k.w.areas ensures k.w.areas[p] == AreaOf(c, t, p) {
      AreaSame(c, s, t, p);
    }
  }

  lemma MallocStacks(c: Config, s: S.Sched, h: H.State, size: nat, page: bool)
    requires ConfigOk(c) && HeapOk(c, h) && Stacks(s, h.blocks)
    ensures Stacks(s, H.Malloc(h.blocks, h.hi, size, page).0)
  {
    hide HasStack, H.Malloc, H.Tiles;
    forall p | 1 <= p < S.MAX && AliveAt(s, p) ensures HasStack(H.Malloc(h.blocks, h.hi, size, page).0, Top(s, p)) {
      MallocKeepsStack(h.blocks, c.lo, h.hi, size, page, Top(s, p));
    }
  }

  lemma SwitchOkCreate(c: Config, k: State, pd: Word, page: bool, entry: Word)
    requires Inv(c, k) && H.NewEnd(k.h.blocks, k.h.hi, S.STACK_SIZE, page) < MEM - 64 && |c.cells| == S.MAX
    requires S.FreeSlot(k.y.sched.procs, 1) < S.MAX && pd != 0
    requires H.Malloc(k.h.blocks, k.h.hi, S.STACK_SIZE, page).1 != 0
    ensures var i, ptr := S.FreeSlot(k.y.sched.procs, 1), H.Malloc(k.h.blocks, k.h.hi, S.STACK_SIZE, page).1;
            && ptr + S.STACK_SIZE < MEM && W.Legal(k.w, W.Spawn(i, NewArea(c, i, ptr), entry, c.wrapper))
            && var t, v := S.Step(k.y, S.DoCreate(pd, ptr)).sched,
                W.Step(k.w, W.Spawn(i, NewArea(c, i, ptr), entry, c.wrapper));
               t.Ok() && W.Inv(v) && SwitchOk(c, t, v)
  {
    hide S.Step, W.Inv, W.Step, W.Legal, HeapOk, Stacks, AreaOf, ConfigOk, S.Inv, H.Malloc, H.NewEnd, S.FreeSlot;
    CreateReady(c, k, pd, page, entry);
    var i, ptr := S.FreeSlot(k.y.sched.procs, 1), H.Malloc(k.h.blocks, k.h.hi, S.STACK_SIZE, page).1;
    var s, t := k.y.sched, S.Step(k.y, S.DoCreate(pd, ptr)).sched;
    var area := NewArea(c, i, ptr);
    W.StepInv(k.w, W.Spawn(i, area, entry, c.wrapper));
    SpawnKeys(k.w, i, area, entry, c.wrapper);
    CreateStates(k.y, pd, ptr, i);
    forall p: nat | p < S.MAX
      ensures AliveAt(t, p) <==> AliveAt(s, p) || p == i
      ensures AliveAt(s, p) && p != i ==> AreaOf(c, t, p) == AreaOf(c, s, p)
    {
      CreateStates(k.y, pd, ptr, p);
      if AliveAt(s, p) && p != i { AreaSame(c, s, t, p); }
    }
    NewAreaIs(c, t, i, ptr);
    IdlePid(s);
    var v := W.Step(k.w, W.Spawn(i, area, entry, c.wrapper));
    forall p ensures p in v.saved <==> AliveAt(t, p) && p != v.cur {
      assert p in v.saved <==> p in v.saved.Keys;
    }
  }

  lemma NewAreaIs(c: Config, t: S.Sched, i: nat, ptr: nat)
    requires |c.cells| == |t.procs| == S.MAX && 1 <= i < S.MAX && Top(t, i) == ptr + S.STACK_SIZE
    ensures AreaOf(c, t, i) == NewArea(c, i, ptr)
  {
  }

  lemma SpawnKeys(w: W.Sys, p: nat, area: W.Area, entry: Word, wrapper: Word)
    requires W.Inv(w) && W.Legal(w, W.Spawn(p, area, entry, wrapper))
    ensures var t := W.Step(w, W.Spawn(p, area, entry, wrapper));
            t.cur == w.cur && t.areas == w.areas[p := area] && t.saved.Keys == w.saved.Keys + {p}
  {
  }

  lemma FreeInv(c: Config, k: State, ptr: nat)
    requires Inv(c, k) && Legal(c, k, Free(ptr))
    ensures Inv(c, Step(c, k, Free(ptr)))
  {
    hide S.Inv, W.Inv, HasStack, H.Free, H.Tiles, H.IsLive, SwitchOk, ConfigOk;
    var s, h := k.y.sched, k.h;
    H.FreeKeeps(h.blocks, c.lo, h.hi, ptr);
    forall p | 1 <= p < S.MAX && AliveAt(s, p) ensures HasStack(H.Free(h.blocks, ptr), Top(s, p)) {
      FreeKeepsStack(h.blocks, c.lo, h.hi, ptr, Top(s, p));
    }
  }

  /** Every step, by whoever is running, keeps the invariant; in particular every context_switch is to a process
      suspended on an intact stack of its own. */
  lemma StepInv(c: Config, k: State, op: Op)
    requires Inv(c, k) && Legal(c, k, op)
    ensures Inv(c, Step(c, k, op))
  {
    hide S.Inv, W.Inv, HeapOk, Stacks, SwitchOk, ConfigOk, SchedStep, ExitStep, CreateStep, H.Malloc, H.NewEnd, Room;
    match op {
      case Sched(o, ret) => SchedInv(c, k, o, ret);
      case Exit(code, ret) => ExitInv(c, k, code, ret);
      case Create(pd, page, entry) => CreateInv(c, k, pd, page, entry);
      case Malloc(size, page) =>
        GrownHeap(c, k.h, size, page);
        MallocStacks(c, k.y.sched, k.h, size, page);
      case Free(ptr) => FreeInv(c, k, ptr);
      case Compute(regs, m) => ComputeOk(c, k, regs, m);
    }
  }

  lemma ComputeOk(c: Config, k: State, regs: W.Regs, m: W.Store)
    requires Inv(c, k) && W.KeepsOff(k.w, m)
    ensures Inv(c, k.(w := k.w.(cpu := W.Cpu(regs, m))))
  {
    hide S.Inv, W.Inv, HeapOk, Stacks, ConfigOk;
    W.ComputeInv(k.w, regs, m);
  }

  // ---------- Runs ----------

  ghost predicate LegalRun(c: Config, k: State, ops: seq<Op>)
    requires Inv(c, k)
    decreases |ops|
  {
    ops == [] || (Legal(c, k, ops[0]) && (StepInv(c, k, ops[0]); LegalRun(c, Step(c, k, ops[0]), ops[1..])))
  }

  ghost function Run(c: Config, k: State, ops: seq<Op>): (t: State)
    requires Inv(c, k) && LegalRun(c, k, ops)
    ensures Inv(c, t)
    decreases |ops|
  {
    if ops == [] then k else
    StepInv(c, k, ops[0]);
    Run(c, Step(c, k, ops[0]), ops[1..])
  }

  /** Idle is current, on the boot stack; nobody else exists. */
  lemma BootInv(c: Config, k: State)
    requires ConfigOk(c) && S.Booted(k.y) && HeapOk(c, k.h)
    requires k.w.cur == 0 && k.w.saved == map[] && k.w.areas == map[0 := c.boot]
    ensures Inv(c, k)
  {
    hide HasStack, H.Tiles, W.Intact;
    S.ReachableInv(k.y, []);
    W.StartInv(k.w.areas, k.w.cpu, 0);
  }
}
