/** The stack-swapping context switch of src/switch.asm, and the frames src/process.c prepares for it. */
module Switch {
  import opened Machine

  /** Memory by byte address, one word per aligned address. */
  type Store = m: seq<Word> | |m| == MEM witness seq(MEM, _ => 0)

  datatype Regs = Regs(ebx: Word, esi: Word, edi: Word, ebp: Word, esp: Word, eip: Word)

  datatype Cpu = Cpu(r: Regs, m: Store)

  function Push(c: Cpu, w: Word): Cpu
    requires c.r.esp >= 4
  {
    Cpu(c.r.(esp := c.r.esp - 4), c.m[c.r.esp - 4 := w])
  }

  /** The caller's side: arguments new_esp and old_esp, then the return address. */
  function Call(c: Cpu, oldEsp: Word, newEsp: Word, ret: Word): Cpu
    requires c.r.esp >= 12
  {
    Push(Push(Push(c, newEsp), oldEsp), ret)
  }

  /** The four pushes of context_switch. */
  function Save(c: Cpu): Cpu
    requires c.r.esp >= 16
  {
    Push(Push(Push(Push(c, c.r.ebx), c.r.esi), c.r.edi), c.r.ebp)
  }

  /** The four pops and the ret. */
  function Restore(c: Cpu): Cpu
    requires c.r.esp + 20 < MEM
  {
    var sp := c.r.esp;
    Cpu(Regs(c.m[sp + 12], c.m[sp + 8], c.m[sp + 4], c.m[sp], sp + 20, c.m[sp + 16]), c.m)
  }

  /** The two moves in between: store the old stack pointer, load the new one. */
  function SwapStacks(c: Cpu): Cpu
    requires c.r.esp + 24 < MEM
  {
    var sp := c.r.esp;
    var m := c.m[c.m[sp + 20] := sp];
    Cpu(c.r.(esp := m[sp + 24]), m)
  }

  predicate Switchable(c: Cpu) {
    c.r.esp >= 16 && c.r.esp + 8 < MEM && SwapStacks(Save(c)).r.esp + 20 < MEM
  }

  function ContextSwitch(c: Cpu): Cpu
    requires Switchable(c)
  {
    Restore(SwapStacks(Save(c)))
  }

  /** The processor, executing context_switch instruction by instruction. */
  class Processor {
    var ebx: Word
    var esi: Word
    var edi: Word
    var ebp: Word
    var esp: Word
    var eip: Word
    var eax: Word
    const mem: array<Word>

    constructor (m: array<Word>)
      ensures mem == m
    {
      mem := m;
    }

    ghost function State(): Cpu
      requires mem.Length == MEM
      reads this, mem
    {
      Cpu(Regs(ebx, esi, edi, ebp, esp, eip), mem[..])
    }

    method DoPush(w: Word)
      requires mem.Length == MEM && esp >= 4
      modifies this`esp, mem
      ensures State() == Push(old(State()), w)
    {
      esp := esp - 4;
      mem[esp] := w;
    }

    method DoPop() returns (w: Word)
      requires mem.Length == MEM && esp + 4 < MEM
      modifies this`esp
      ensures w == mem[old(esp)] && esp == old(esp) + 4
    {
      w := mem[esp];
      esp := esp + 4;
    }

    method DoContextSwitch()
      requires mem.Length == MEM && Switchable(State())
      modifies this, mem
      ensures State() == ContextSwitch(old(State()))
    {
      hide Push, Restore;
      SaveKeeps(State());
      DoPush(ebx);
      DoPush(esi);
      DoPush(edi);
      DoPush(ebp);
      assert State() == Save(old(State()));
      eax := mem[esp + 20];
      mem[eax] := esp;
      esp := mem[esp + 24];
      assert State() == SwapStacks(Save(old(State())));
      DoRestore();
    }

    method DoRestore()
      requires mem.Length == MEM && esp + 20 < MEM
      modifies this
      ensures State() == Restore(old(State()))
    {
      ebp := DoPop();
      edi := DoPop();
      esi := DoPop();
      ebx := DoPop();
      eip := DoPop();
    }
  }

  lemma SaveKeeps(c: Cpu)
    requires c.r.esp >= 16
    ensures Push(c, c.r.ebx).r == c.r.(esp := c.r.esp - 4)
    ensures Push(Push(c, c.r.ebx), c.r.esi).r == c.r.(esp := c.r.esp - 8)
    ensures Push(Push(Push(c, c.r.ebx), c.r.esi), c.r.edi).r == c.r.(esp := c.r.esp - 12)
    ensures Save(c).r == c.r.(esp := c.r.esp - 16)
  {
  }

  // ---------- Processes and their stacks ----------

  /** Where a process keeps its stack, and where its saved stack pointer is kept. */
  datatype Area = Area(lo: nat, hi: nat, cell: nat) {
    predicate Ok() { 64 <= lo && lo + 28 <= hi && hi < MEM - 64 && cell < MEM }
    predicate Holds(x: nat) { lo <= x < hi }
  }

  /** The stacks in use, by process. */
  type Layout = map<nat, Area>

  /** Stacks do not overlap, and saved stack pointers are kept outside all of them, each in a place of its own. */
  ghost predicate Apart(l: Layout) {
    && (forall i :: i in l ==> l[i].Ok())
    && (forall i, j :: i in l && j in l && i != j ==>
          l[i].cell != l[j].cell && (l[i].hi <= l[j].lo || l[j].hi <= l[i].lo))
    && (forall i, j :: i in l && j in l ==> !l[i].Holds(l[j].cell))
  }

  /** What a suspended process must find again: its registers on return from context_switch, and memory as it was. */
  datatype Context = Context(regs: Regs, m: Store)

  datatype Sys = Sys(cpu: Cpu, cur: nat, saved: map<nat, Context>, areas: Layout)

  /** The frame at sp restores to r. */
  ghost predicate FrameAt(m: Store, sp: nat, r: Regs) {
    && sp + 20 < MEM && r.esp == sp + 20
    && m[sp] == r.ebp && m[sp + 4] == r.edi && m[sp + 8] == r.esi && m[sp + 12] == r.ebx && m[sp + 16] == r.eip
  }

  /** The stack of p, from its saved stack pointer up, is as it was when p was suspended. */
  ghost predicate Intact(l: Layout, m: Store, p: nat, k: Context)
    requires p in l && l[p].Ok()
  {
    && l[p].lo <= m[l[p].cell] && m[l[p].cell] + 20 <= l[p].hi
    && FrameAt(m, m[l[p].cell], k.regs)
    && forall x :: k.regs.esp <= x < l[p].hi ==> m[x] == k.m[x]
  }

  ghost predicate Inv(s: Sys) {
    && Apart(s.areas) && s.cur in s.areas && s.cur !in s.saved
    && forall p :: p in s.saved ==> p in s.areas && Intact(s.areas, s.cpu.m, p, s.saved[p])
  }

  /** Before anything is suspended only the layout matters. */
  lemma StartInv(l: Layout, cpu: Cpu, cur: nat)
    requires Apart(l) && cur in l
    ensures Inv(Sys(cpu, cur, map[], l))
  {
  }

  // ---------- Steps ----------

  datatype Op =
    | Compute(regs: Regs, m: Store)
    | SwitchTo(q: nat, ret: Word)
    | ExitTo(q: nat, ret: Word)
    | Spawn(p: nat, area: Area, entry: Word, wrapper: Word)

  /** The stack frame process_create builds at the top of a new stack. */
  function InitialFrame(m: Store, top: nat, entry: Word, wrapper: Word): Store
    requires 28 <= top < MEM
  {
    m[top - 4 := entry][top - 8 := 0][top - 12 := wrapper][top - 16 := 0][top - 20 := 0][top - 24 := 0][top - 28 := 0]
  }

  /** The current process is suspended or gone, q can be switched to, and there is room for one call of
      context_switch. */
  ghost predicate CanSwitch(s: Sys, q: nat) {
    q in s.saved && s.cur in s.areas && s.areas[s.cur].lo + 28 <= s.cpu.r.esp <= s.areas[s.cur].hi
  }

  /** m differs from memory only on the current stack and where there is no stack or saved stack pointer. */
  ghost predicate KeepsOff(s: Sys, m: Store) {
    forall x, p :: 0 <= x < MEM && p in s.areas && (x == s.areas[p].cell || (p != s.cur && s.areas[p].Holds(x))) ==>
      m[x] == s.cpu.m[x]
  }

  /** A running process may change its registers, its stack and anything that is nobody's stack or saved stack pointer.
      Only suspended processes are switched to. A new process gets a stack apart from all those in use, which may be
      memory that was the stack of a process that has exited. */
  ghost predicate Legal(s: Sys, op: Op) {
    match op
    case Compute(regs, m) => KeepsOff(s, m)
    case SwitchTo(q, ret) => CanSwitch(s, q)
    case ExitTo(q, ret) => CanSwitch(s, q)
    case Spawn(p, area, entry, wrapper) => p !in s.areas && area.Ok() && Apart(s.areas[p := area])
  }

  /** context_switch(&cur->esp, q->esp), called by the current process. */
  ghost function SwitchStep(s: Sys, q: nat, ret: Word): Sys
    requires Inv(s) && CanSwitch(s, q)
  {
    var l := s.areas;
    var called := Call(s.cpu, l[s.cur].cell, s.cpu.m[l[q].cell], ret);
    SwitchEffect(s, q, ret);
    var c := ContextSwitch(called);
    var gone := Context(s.cpu.r.(esp := s.cpu.r.esp - 8, eip := ret), c.m);
    Sys(c, q, (s.saved - {q})[s.cur := gone], l)
  }

  /** Memory after the switch: seven words below the old stack pointer, and the saved stack pointer. */
  ghost predicate Pushed(m: Store, m': Store, r: Regs, cell: nat, newEsp: Word, ret: Word) {
    && 28 <= r.esp < MEM && cell < MEM
    && m'[r.esp - 12] == ret && m'[r.esp - 16] == r.ebx && m'[r.esp - 20] == r.esi
    && m'[r.esp - 24] == r.edi && m'[r.esp - 28] == r.ebp && m'[cell] == r.esp - 28
    && forall x :: 0 <= x < MEM && !(r.esp - 28 <= x < r.esp) && x != cell ==> m'[x] == m[x]
  }

  lemma SaveEffect(c: Cpu, cell: Word, newEsp: Word, ret: Word)
    requires 28 <= c.r.esp && c.r.esp + 64 < MEM && !(c.r.esp - 28 <= cell < c.r.esp)
    ensures var called := Call(c, cell, newEsp, ret);
            && called.r.esp >= 16 && called.r.esp + 8 < MEM && Save(called).r.esp + 24 < MEM
            && SwapStacks(Save(called)).r.esp == newEsp
            && Pushed(c.m, SwapStacks(Save(called)).m, c.r, cell, newEsp, ret)
  {
    var called := Call(c, cell, newEsp, ret);
    SaveKeeps(called);
    var e := c.r.esp;
    var m := Save(called).m;
    assert m == c.m[e - 4 := newEsp][e - 8 := cell][e - 12 := ret][e - 16 := c.r.ebx]
                   [e - 20 := c.r.esi][e - 24 := c.r.edi][e - 28 := c.r.ebp];
  }

  lemma IntactRestores(l: Layout, c: Cpu, q: nat, k: Context)
    requires q in l && l[q].Ok() && Intact(l, c.m, q, k) && c.r.esp == c.m[l[q].cell]
    ensures c.r.esp + 20 < MEM && Restore(c).r == k.regs && Restore(c).m == c.m
  {
  }

  lemma SwitchEffect(s: Sys, q: nat, ret: Word)
    requires Inv(s) && CanSwitch(s, q)
    ensures var l := s.areas;
            var newEsp := s.cpu.m[l[q].cell];
            var called := Call(s.cpu, l[s.cur].cell, newEsp, ret);
            && Switchable(called)
            && Pushed(s.cpu.m, ContextSwitch(called).m, s.cpu.r, l[s.cur].cell, newEsp, ret)
            && ContextSwitch(called).r == s.saved[q].regs
  {
    hide Call, Save, SwapStacks, Pushed, Intact, Restore;
    var l := s.areas;
    var cell, newEsp := l[s.cur].cell, s.cpu.m[l[q].cell];
    SaveEffect(s.cpu, cell, newEsp, ret);
    var c := SwapStacks(Save(Call(s.cpu, cell, newEsp, ret)));
    StillIntact(l, s.cpu.m, c.m, s.cpu.r, s.cur, newEsp, ret, q, s.saved[q]);
    CellKept(l, s.cpu.m, c.m, s.cpu.r, s.cur, newEsp, ret, q);
    IntactRestores(l, c, q, s.saved[q]);
  }

  /** Switching away from cur does not touch anybody else's stack or saved stack pointer. */
  lemma CellKept(l: Layout, m: Store, m': Store, r: Regs, cur: nat, newEsp: Word, ret: Word, q: nat)
    requires Apart(l) && cur in l && q in l && q != cur && l[cur].lo + 28 <= r.esp <= l[cur].hi
    requires Pushed(m, m', r, l[cur].cell, newEsp, ret)
    ensures m'[l[q].cell] == m[l[q].cell]
    ensures forall x: nat :: l[q].Holds(x) ==> m'[x] == m[x]
  {
    assert !l[cur].Holds(l[q].cell) && !l[q].Holds(l[cur].cell);
  }

  /** A suspended process only depends on its own stack and saved stack pointer. */
  lemma IntactFrame(l: Layout, m: Store, m': Store, p: nat, k: Context)
    requires p in l && l[p].Ok() && Intact(l, m, p, k)
    requires m'[l[p].cell] == m[l[p].cell] && forall x: nat :: l[p].Holds(x) ==> m'[x] == m[x]
    ensures Intact(l, m', p, k)
  {
  }

  lemma StillIntact(l: Layout, m: Store, m': Store, r: Regs, cur: nat, newEsp: Word, ret: Word, q: nat, k: Context)
    requires Apart(l) && cur in l && q in l && q != cur && l[cur].lo + 28 <= r.esp <= l[cur].hi
    requires Pushed(m, m', r, l[cur].cell, newEsp, ret) && Intact(l, m, q, k)
    ensures Intact(l, m', q, k)
  {
    hide Pushed, Intact;
    CellKept(l, m, m', r, cur, newEsp, ret, q);
    IntactFrame(l, m, m', q, k);
  }

  ghost function Step(s: Sys, op: Op): Sys
    requires Inv(s) && Legal(s, op)
  {
    match op
    case Compute(regs, m) => s.(cpu := Cpu(regs, m))
    case SwitchTo(q, ret) => SwitchStep(s, q, ret)
    case ExitTo(q, ret) =>
      var t := SwitchStep(s, q, ret);
      t.(saved := t.saved - {s.cur}, areas := s.areas - {s.cur})
    case Spawn(p, area, entry, wrapper) =>
      var m := InitialFrame(s.cpu.m, area.hi, entry, wrapper)[area.cell := area.hi - 28];
      Sys(s.cpu.(m := m), s.cur, s.saved[p := Context(Regs(0, 0, 0, 0, area.hi - 8, wrapper), m)], s.areas[p := area])
  }

  lemma SwitchInv(s: Sys, q: nat, ret: Word)
    requires Inv(s) && CanSwitch(s, q)
    ensures Inv(SwitchStep(s, q, ret))
  {
    hide ContextSwitch, Call, Switchable, Pushed, Intact;
    SwitchEffect(s, q, ret);
    var l, t := s.areas, SwitchStep(s, q, ret);
    var newEsp := s.cpu.m[l[q].cell];
    forall p | p in t.saved ensures p in l && Intact(l, t.cpu.m, p, t.saved[p]) {
      if p == s.cur {
        SavedSelf(l, s.cpu.m, t.cpu.m, s.cpu.r, s.cur, newEsp, ret);
      } else {
        StillIntact(l, s.cpu.m, t.cpu.m, s.cpu.r, s.cur, newEsp, ret, p, s.saved[p]);
      }
    }
  }

  /** A suspended process does not care about the stacks of others. */
  lemma IntactLayout(l: Layout, l': Layout, m: Store, p: nat, k: Context)
    requires p in l && p in l' && l'[p] == l[p] && l[p].Ok()
    ensures Intact(l', m, p, k) <==> Intact(l, m, p, k)
  {
  }

  lemma ExitInv(s: Sys, q: nat, ret: Word)
    requires Inv(s) && Legal(s, ExitTo(q, ret))
    ensures Inv(Step(s, ExitTo(q, ret)))
  {
    hide SwitchStep, Intact, Apart;
    SwitchInv(s, q, ret);
    SwitchCur(s, q, ret);
    ApartLess(s.areas, s.cur);
    var v, t := SwitchStep(s, q, ret), Step(s, ExitTo(q, ret));
    AreasOk(v.areas);
    forall p | p in t.saved ensures p in t.areas && Intact(t.areas, t.cpu.m, p, t.saved[p]) {
      IntactLayout(v.areas, t.areas, t.cpu.m, p, t.saved[p]);
    }
  }

  lemma ExitEffect(s: Sys, q: nat, ret: Word)
    requires Inv(s) && CanSwitch(s, q)
    ensures var t := Step(s, ExitTo(q, ret));
            t.cur == q && t.areas == s.areas - {s.cur} && t.saved.Keys == s.saved.Keys - {q}
  {
    hide SwitchStep, Inv;
    SwitchCur(s, q, ret);
    InvCur(s);
  }

  lemma InvCur(s: Sys)
    requires Inv(s)
    ensures s.cur !in s.saved
  {
  }

  lemma ApartLess(l: Layout, k: nat)
    requires Apart(l)
    ensures Apart(l - {k})
  {
  }

  lemma AreasOk(l: Layout)
    requires Apart(l)
    ensures forall p :: p in l ==> l[p].Ok()
  {
  }

  lemma SwitchCur(s: Sys, q: nat, ret: Word)
    requires Inv(s) && CanSwitch(s, q)
    ensures var t := SwitchStep(s, q, ret);
            t.cur == q && t.areas == s.areas && t.saved.Keys == s.saved.Keys - {q} + {s.cur}
            && forall p :: p in s.saved && p != q ==> t.saved[p] == s.saved[p]
  {
    hide ContextSwitch, Call, Intact;
  }

  lemma SavedSelf(l: Layout, m: Store, m': Store, r: Regs, cur: nat, newEsp: Word, ret: Word)
    requires Apart(l) && cur in l && l[cur].lo + 28 <= r.esp <= l[cur].hi
    requires Pushed(m, m', r, l[cur].cell, newEsp, ret)
    ensures Intact(l, m', cur, Context(r.(esp := r.esp - 8, eip := ret), m'))
  {
  }

  lemma SpawnInv(s: Sys, p: nat, area: Area, entry: Word, wrapper: Word)
    requires Inv(s) && Legal(s, Spawn(p, area, entry, wrapper))
    ensures Inv(Step(s, Spawn(p, area, entry, wrapper)))
  {
    hide Intact, InitialFrame, Apart;
    var t := Step(s, Spawn(p, area, entry, wrapper));
    var l := t.areas;
    AreasOk(l);
    forall q | q in t.saved ensures q in l && Intact(l, t.cpu.m, q, t.saved[q]) {
      if q != p {
        SpawnElsewhere(l, s.cpu.m, t.cpu.m, p, entry, wrapper, q);
        IntactFrame(s.areas, s.cpu.m, t.cpu.m, q, s.saved[q]);
        IntactLayout(s.areas, l, t.cpu.m, q, s.saved[q]);
      } else {
        SpawnedIntact(l, s.cpu.m, t.cpu.m, p, entry, wrapper);
      }
    }
  }

  lemma SpawnElsewhere(l: Layout, m: Store, m': Store, p: nat, entry: Word, wrapper: Word, q: nat)
    requires Apart(l) && p in l && q in l && q != p
    requires m' == InitialFrame(m, l[p].hi, entry, wrapper)[l[p].cell := l[p].hi - 28]
    ensures m'[l[q].cell] == m[l[q].cell] && forall x: nat :: l[q].Holds(x) ==> m'[x] == m[x]
  {
    assert !l[p].Holds(l[q].cell) && !l[q].Holds(l[p].cell);
  }

  lemma SpawnedIntact(l: Layout, m: Store, m': Store, p: nat, entry: Word, wrapper: Word)
    requires Apart(l) && p in l
    requires m' == InitialFrame(m, l[p].hi, entry, wrapper)[l[p].cell := l[p].hi - 28]
    ensures Intact(l, m', p, Context(Regs(0, 0, 0, 0, l[p].hi - 8, wrapper), m'))
  {
    assert !l[p].Holds(l[p].cell);
  }

  lemma ComputeInv(s: Sys, regs: Regs, m: Store)
    requires Inv(s) && Legal(s, Compute(regs, m))
    ensures Inv(s.(cpu := Cpu(regs, m)))
  {
    hide Intact;
    var l := s.areas;
    forall p | p in s.saved ensures Intact(l, m, p, s.saved[p]) {
      assert m[l[p].cell] == s.cpu.m[l[p].cell];
      forall x: nat | l[p].Holds(x) ensures m[x] == s.cpu.m[x] {
      }
      IntactFrame(l, s.cpu.m, m, p, s.saved[p]);
    }
  }

  // ---------- Runs ----------

  ghost predicate Reaches(s: Sys, ops: seq<Op>, t: Sys)
    decreases |ops|
  {
    if ops == [] then s == t else Inv(s) && Legal(s, ops[0]) && Reaches(Step(s, ops[0]), ops[1..], t)
  }

  lemma StepInv(s: Sys, op: Op)
    requires Inv(s) && Legal(s, op)
    ensures Inv(Step(s, op))
  {
    hide Intact, Apart, SwitchStep, InitialFrame;
    match op {
      case Compute(regs, m) => ComputeInv(s, regs, m);
      case SwitchTo(q, ret) => SwitchInv(s, q, ret);
      case ExitTo(q, ret) => ExitInv(s, q, ret);
      case Spawn(p, area, entry, wrapper) => SpawnInv(s, p, area, entry, wrapper);
    }
  }

  /** The operation puts p on the processor. */
  predicate Resumes(op: Op, p: nat) {
    (op.SwitchTo? || op.ExitTo?) && op.q == p
  }

  lemma StepKeepsSaved(s: Sys, op: Op, p: nat)
    requires Inv(s) && Legal(s, op) && p in s.saved && !Resumes(op, p)
    ensures p in Step(s, op).saved && Step(s, op).saved[p] == s.saved[p]
    ensures p in s.areas && p in Step(s, op).areas && Step(s, op).areas[p] == s.areas[p]
  {
    hide Intact, Apart, SwitchStep, InitialFrame;
    if op.SwitchTo? || op.ExitTo? {
      SwitchCur(s, op.q, op.ret);
    }
  }

  /** However long a process stays suspended and whatever runs meanwhile, stacks of others coming and going, it is
      resumed as it was saved. */
  lemma {:induction false} ResumesAsSuspended(s: Sys, ops: seq<Op>, t: Sys, p: nat, last: Op)
    requires Inv(s) && p in s.saved && p in s.areas && Reaches(s, ops, t)
    requires forall op :: op in ops ==> !Resumes(op, p)
    requires Resumes(last, p) && Legal(t, last)
    ensures Inv(t) && p in t.saved && t.saved[p] == s.saved[p]
    ensures var u := Step(t, last);
            && u.cur == p && u.cpu.r == s.saved[p].regs
            && forall x :: s.saved[p].regs.esp <= x < s.areas[p].hi ==> u.cpu.m[x] == s.saved[p].m[x]
    decreases |ops|
  {
    hide Step, Intact, Apart;
    if ops == [] {
      ResumesNow(t, p, last);
    } else {
      assert ops[0] in ops;
      StepInv(s, ops[0]);
      StepKeepsSaved(s, ops[0], p);
      ResumesAsSuspended(Step(s, ops[0]), ops[1..], t, p, last);
    }
  }

  lemma ResumesNow(s: Sys, q: nat, last: Op)
    requires Inv(s) && Resumes(last, q) && Legal(s, last)
    ensures q in s.saved && q in s.areas
    ensures var u := Step(s, last);
            && u.cur == q && u.cpu.r == s.saved[q].regs
            && forall x :: s.saved[q].regs.esp <= x < s.areas[q].hi ==> u.cpu.m[x] == s.saved[q].m[x]
  {
    hide ContextSwitch, Call, Switchable, Pushed, Intact;
    var l, ret := s.areas, last.ret;
    SwitchEffect(s, q, ret);
    var u := SwitchStep(s, q, ret);
    StillIntact(l, s.cpu.m, u.cpu.m, s.cpu.r, s.cur, s.cpu.m[l[q].cell], ret, q, s.saved[q]);
    IntactStack(l, u.cpu.m, q, s.saved[q]);
  }

  lemma IntactStack(l: Layout, m: Store, p: nat, k: Context)
    requires p in l && l[p].Ok() && Intact(l, m, p, k)
    ensures forall x :: k.regs.esp <= x < l[p].hi ==> m[x] == k.m[x]
  {
  }

  /** A process that calls context_switch, in a run of any length before it is switched back to, returns from the call
      with the ebx, esi, edi, ebp and return address it had, and its stack from where it was called up untouched. */
  lemma SuspendAndResume(s: Sys, q: nat, ret: Word, ops: seq<Op>, t: Sys, last: Op)
    requires Inv(s) && Legal(s, SwitchTo(q, ret))
    requires Reaches(Step(s, SwitchTo(q, ret)), ops, t)
    requires forall op :: op in ops ==> !Resumes(op, s.cur)
    requires Inv(t) && Resumes(last, s.cur) && Legal(t, last)
    ensures var u := Step(t, last);
            && u.cur == s.cur && u.cpu.r == s.cpu.r.(esp := s.cpu.r.esp - 8, eip := ret)
            && forall x :: s.cpu.r.esp <= x < s.areas[s.cur].hi ==> u.cpu.m[x] == s.cpu.m[x]
  {
    hide Step, Reaches, Legal, Intact, Apart;
    var v := Step(s, SwitchTo(q, ret));
    StepInv(s, SwitchTo(q, ret));
    Suspended(s, q, ret);
    ResumesAsSuspended(v, ops, t, s.cur, last);
  }

  lemma Suspended(s: Sys, q: nat, ret: Word)
    requires Inv(s) && Legal(s, SwitchTo(q, ret))
    ensures var v := Step(s, SwitchTo(q, ret));
            && v.areas == s.areas
            && s.cur in v.saved && v.saved[s.cur].regs == s.cpu.r.(esp := s.cpu.r.esp - 8, eip := ret)
            && forall x :: s.cpu.r.esp <= x < s.areas[s.cur].hi ==> v.saved[s.cur].m[x] == s.cpu.m[x]
  {
    hide ContextSwitch, Call, Switchable, Intact;
    SwitchEffect(s, q, ret);
    assert !s.areas[s.cur].Holds(s.areas[s.cur].cell);
  }

  /** The first dispatch of a new process, however late, enters process_wrapper with its registers zero and the entry
      function as its argument, above a return address of zero. */
  lemma FirstDispatch(s: Sys, p: nat, area: Area, entry: Word, wrapper: Word, ops: seq<Op>, t: Sys, last: Op)
    requires Inv(s) && Legal(s, Spawn(p, area, entry, wrapper))
    requires Reaches(Step(s, Spawn(p, area, entry, wrapper)), ops, t)
    requires forall op :: op in ops ==> !Resumes(op, p)
    requires Inv(t) && Resumes(last, p) && Legal(t, last)
    ensures area.Ok()
    ensures var u := Step(t, last).cpu;
            u.r == Regs(0, 0, 0, 0, area.hi - 8, wrapper) && u.m[area.hi - 8] == 0 && u.m[area.hi - 4] == entry
  {
    hide Step, Reaches, Legal, Intact;
    StepInv(s, Spawn(p, area, entry, wrapper));
    Spawned(s, p, area, entry, wrapper);
    ResumesAsSuspended(Step(s, Spawn(p, area, entry, wrapper)), ops, t, p, last);
  }

  lemma Spawned(s: Sys, p: nat, area: Area, entry: Word, wrapper: Word)
    requires Inv(s) && Legal(s, Spawn(p, area, entry, wrapper))
    ensures var v := Step(s, Spawn(p, area, entry, wrapper));
            && area.Ok() && v.areas == s.areas[p := area]
            && p in v.saved && v.saved[p].regs == Regs(0, 0, 0, 0, area.hi - 8, wrapper)
            && v.saved[p].m[area.hi - 8] == 0 && v.saved[p].m[area.hi - 4] == entry
  {
    hide Intact;
    var l := s.areas[p := area];
    assert l[p] == area && !l[p].Holds(l[p].cell);
    hide Apart, Inv;
  }
}
