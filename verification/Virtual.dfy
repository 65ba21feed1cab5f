/** context_switch of src/switch.asm as schedule calls it: the directory of the next process is loaded first, so the
    call is pushed on the old stack, and the frame popped from the new one, through the page tables of the next
    process. */
module Virtual {
  import opened Machine
  import opened PmmSpec
  import opened Memory
  import opened PagingSpec
  import opened Mmu
  import W = Switch

  // ---------- The instructions, under directory d of the tables t; None is a page fault ----------

  function Ld(t: Ram, d: nat, phys: W.Store, x: nat): Option<Word>
    requires d < PAGES
  {
    if x >= MEM then None else
    match Lookup(t, d, x)
    case None => None
    case Some(p) => Some(phys[p])
  }

  function St(t: Ram, d: nat, phys: W.Store, x: nat, w: Word): Option<W.Store>
    requires d < PAGES
  {
    if x >= MEM then None else
    match Lookup(t, d, x)
    case None => None
    case Some(p) => (var m: W.Store := phys[p := w]; Some(m))
  }

  /** Pushes, one after the other, by a processor whose memory is physical memory. */
  function PushAll(t: Ram, d: nat, c: W.Cpu, ws: seq<Word>): Option<W.Cpu>
    requires d < PAGES
    decreases |ws|
  {
    if ws == [] then Some(c)
    else if c.r.esp < 4 then None
    else
      match St(t, d, c.m, c.r.esp - 4, ws[0])
      case None => None
      case Some(m) => PushAll(t, d, W.Cpu(c.r.(esp := c.r.esp - 4), m), ws[1..])
  }

  /** The four pops and the ret. */
  function Pops(t: Ram, d: nat, c: W.Cpu): Option<W.Cpu>
    requires d < PAGES
  {
    var sp, m := c.r.esp, c.m;
    var ebp, edi, esi := Ld(t, d, m, sp), Ld(t, d, m, sp + 4), Ld(t, d, m, sp + 8);
    var ebx, eip := Ld(t, d, m, sp + 12), Ld(t, d, m, sp + 16);
    if ebp.None? || edi.None? || esi.None? || ebx.None? || eip.None? || sp + 20 >= MEM then None else
    Some(W.Cpu(W.Regs(ebx.value, esi.value, edi.value, ebp.value, sp + 20, eip.value), m))
  }

  function Words(r: W.Regs, cell: Word, newEsp: Word, ret: Word): seq<Word> {
    [newEsp, cell, ret, r.ebx, r.esi, r.edi, r.ebp]
  }

  /** context_switch(cell, newEsp), call included. */
  function SwitchThrough(t: Ram, d: nat, c: W.Cpu, cell: Word, newEsp: Word, ret: Word): Option<W.Cpu>
    requires d < PAGES
  {
    match PushAll(t, d, c, Words(c.r, cell, newEsp, ret))
    case None => None
    case Some(a) => Swap(t, d, a)
  }

  /** From the load of the first argument on. */
  function Swap(t: Ram, d: nat, a: W.Cpu): Option<W.Cpu>
    requires d < PAGES
  {
    var sp := a.r.esp;
    match Ld(t, d, a.m, sp + 20)
    case None => None
    case Some(eax) =>
      match St(t, d, a.m, eax, sp)
      case None => None
      case Some(m) =>
        match Ld(t, d, m, sp + 24)
        case None => None
        case Some(n) => Pops(t, d, W.Cpu(a.r.(esp := n), m))
  }

  // ---------- Flat memory and where it really is ----------

  /** fr gives each page of the flat memory a frame of its own; directory d maps it there, or not at all. */
  ghost predicate Partly(t: Ram, d: nat, fr: map<nat, nat>) {
    && d < PAGES
    && (forall p :: p in fr ==> p < PAGES && fr[p] < PAGES)
    && (forall p, q :: p in fr && q in fr && p != q ==> fr[p] != fr[q])
    && (forall p :: p in fr ==> FrameOf(t, d, p) == None || FrameOf(t, d, p) == Some(fr[p]))
  }

  predicate Here(t: Ram, d: nat, x: nat)
    requires d < PAGES
  {
    x < MEM && Lookup(t, d, x).Some?
  }

  /** Physical memory holds the flat memory m on the pages of fr. */
  ghost predicate Agree(phys: W.Store, m: W.Store, fr: map<nat, nat>)
    requires forall p :: p in fr ==> fr[p] < PAGES
  {
    forall x: Word :: x / PAGE in fr ==> phys[AddressIn(fr[x / PAGE], x)] == m[x]
  }

  lemma LookupPage(t: Ram, d: nat, x: Word)
    requires d < PAGES
    ensures x / PAGE < PAGES
    ensures Lookup(t, d, x) == match FrameOf(t, d, x / PAGE) case None => None case Some(f) => Some(AddressIn(f, x))
  {
    hide Ent, Present, SlotOf, IndexOf;
    var y := x / PAGE * PAGE;
    PageStart(x / PAGE);
    SamePage(x, y);
    if Lookup(t, d, y).Some? {
      StartOfFrame(t, d, y);
    }
  }

  lemma StartOfFrame(t: Ram, d: nat, y: Word)
    requires d < PAGES && y % PAGE == 0 && Lookup(t, d, y).Some?
    ensures FrameNo(Lookup(t, d, y).value) == FrameNo(Ent(t, FrameNo(Ent(t, d, SlotOf(y))), IndexOf(y)))
  {
    hide Ent;
  }

  lemma SameAddress(fr: map<nat, nat>, x: Word, y: Word)
    requires x / PAGE in fr && y / PAGE in fr && forall p :: p in fr ==> fr[p] < PAGES
    requires forall p, q :: p in fr && q in fr && p != q ==> fr[p] != fr[q]
    ensures AddressIn(fr[x / PAGE], x) == AddressIn(fr[y / PAGE], y) <==> x == y
  {
    AddressParts(fr[x / PAGE], x);
    AddressParts(fr[y / PAGE], y);
  }

  lemma AddressParts(f: nat, x: Word)
    requires f < PAGES
    ensures AddressIn(f, x) / PAGE == f && AddressIn(f, x) % PAGE == x % PAGE
  {
  }

  lemma LdIs(t: Ram, d: nat, fr: map<nat, nat>, phys: W.Store, m: W.Store, x: Word)
    requires Partly(t, d, fr) && Agree(phys, m, fr) && x / PAGE in fr
    ensures Ld(t, d, phys, x) == if Here(t, d, x) then Some(m[x]) else None
  {
    hide Lookup;
    LookupPage(t, d, x);
  }

  lemma StIs(t: Ram, d: nat, fr: map<nat, nat>, phys: W.Store, m: W.Store, x: Word, w: Word)
    requires Partly(t, d, fr) && Agree(phys, m, fr) && x / PAGE in fr
    ensures !Here(t, d, x) ==> St(t, d, phys, x, w) == None
    ensures Here(t, d, x) ==> St(t, d, phys, x, w).Some? && Agree(St(t, d, phys, x, w).value, m[x := w], fr)
  {
    hide Lookup, AddressIn;
    LookupPage(t, d, x);
    if Here(t, d, x) {
      var phys' := St(t, d, phys, x, w).value;
      forall y: Word | y / PAGE in fr ensures phys'[AddressIn(fr[y / PAGE], y)] == m[x := w][y] {
        SameAddress(fr, x, y);
      }
    }
  }

  // ---------- The switch through the tables is the flat one ----------

  function PushList(c: W.Cpu, ws: seq<Word>): W.Cpu
    requires c.r.esp >= 4 * |ws|
    decreases |ws|
  {
    if ws == [] then c else PushList(W.Push(c, ws[0]), ws[1..])
  }

  /** The n words below esp are all mapped. */
  ghost predicate HereBelow(t: Ram, d: nat, esp: nat, n: nat)
    requires d < PAGES && esp >= 4 * n
    decreases n
  {
    n == 0 || (Here(t, d, esp - 4) && HereBelow(t, d, esp - 4, n - 1))
  }

  ghost predicate Covered(fr: map<nat, nat>, esp: nat, n: nat)
    requires esp >= 4 * n
    decreases n
  {
    n == 0 || ((esp - 4) / PAGE in fr && Covered(fr, esp - 4, n - 1))
  }

  lemma {:induction false} PushAllIs(t: Ram, d: nat, fr: map<nat, nat>, c: W.Cpu, m: W.Store, ws: seq<Word>)
    requires Partly(t, d, fr) && Agree(c.m, m, fr) && c.r.esp >= 4 * |ws| && Covered(fr, c.r.esp, |ws|)
    ensures PushAll(t, d, c, ws).Some? <==> HereBelow(t, d, c.r.esp, |ws|)
    ensures PushAll(t, d, c, ws).Some? ==>
              var a, b := PushAll(t, d, c, ws).value, PushList(W.Cpu(c.r, m), ws);
              a.r == b.r && Agree(a.m, b.m, fr)
    decreases |ws|
  {
    hide Partly, Agree, Here, St;
    if ws != [] {
      PartlyParts(t, d, fr);
      StIs(t, d, fr, c.m, m, c.r.esp - 4, ws[0]);
      if Here(t, d, c.r.esp - 4) {
        var phys := St(t, d, c.m, c.r.esp - 4, ws[0]).value;
        PushAllIs(t, d, fr, W.Cpu(c.r.(esp := c.r.esp - 4), phys), m[c.r.esp - 4 := ws[0]], ws[1..]);
      }
    }
  }

  lemma PartlyParts(t: Ram, d: nat, fr: map<nat, nat>)
    requires Partly(t, d, fr)
    ensures d < PAGES && forall p :: p in fr ==> fr[p] < PAGES
  {
  }

  /** Everything context_switch touches is mapped: seven words below the stack pointer, the saved stack pointer, and the
      five words it pops. */
  ghost predicate AllHere(t: Ram, d: nat, esp: nat, cell: nat, newEsp: nat)
    requires d < PAGES && esp >= 28
  {
    HereBelow(t, d, esp, 7) && Here(t, d, cell) && FrameHere(t, d, newEsp)
  }

  ghost predicate FrameHere(t: Ram, d: nat, sp: nat)
    requires d < PAGES
  {
    Here(t, d, sp) && Here(t, d, sp + 4) && Here(t, d, sp + 8) && Here(t, d, sp + 12) && Here(t, d, sp + 16)
  }

  /** All of it lies on pages of the flat memory. */
  ghost predicate AllCovered(fr: map<nat, nat>, esp: nat, cell: nat, newEsp: nat)
    requires esp >= 28
  {
    && Covered(fr, esp, 7) && cell / PAGE in fr
    && newEsp / PAGE in fr && (newEsp + 4) / PAGE in fr && (newEsp + 8) / PAGE in fr
    && (newEsp + 12) / PAGE in fr && (newEsp + 16) / PAGE in fr
  }

  lemma PopsIs(t: Ram, d: nat, fr: map<nat, nat>, c: W.Cpu, m: W.Store)
    requires Partly(t, d, fr) && Agree(c.m, m, fr) && c.r.esp + 20 < MEM
    requires var sp := c.r.esp;
             && sp / PAGE in fr && (sp + 4) / PAGE in fr && (sp + 8) / PAGE in fr
             && (sp + 12) / PAGE in fr && (sp + 16) / PAGE in fr
    ensures Pops(t, d, c).Some? <==> FrameHere(t, d, c.r.esp)
    ensures Pops(t, d, c).Some? ==> Pops(t, d, c).value == W.Cpu(W.Restore(W.Cpu(c.r, m)).r, c.m)
  {
    hide Partly, Agree, Here, Ld;
    PartlyParts(t, d, fr);
    var sp := c.r.esp;
    LdIs(t, d, fr, c.m, m, sp);
    LdIs(t, d, fr, c.m, m, sp + 4);
    LdIs(t, d, fr, c.m, m, sp + 8);
    LdIs(t, d, fr, c.m, m, sp + 12);
    LdIs(t, d, fr, c.m, m, sp + 16);
  }

  /** The call and the four pushes, flat. */
  lemma CallAndSave(c: W.Cpu, cell: Word, newEsp: Word, ret: Word)
    requires c.r.esp >= 28
    ensures PushList(c, Words(c.r, cell, newEsp, ret)) == W.Save(W.Call(c, cell, newEsp, ret))
    ensures var a := W.Save(W.Call(c, cell, newEsp, ret));
            a.r.esp == c.r.esp - 28 && a.m[c.r.esp - 8] == cell && a.m[c.r.esp - 4] == newEsp
  {
    var ws := Words(c.r, cell, newEsp, ret);
    PushFirst(c, newEsp, [cell, ret, c.r.ebx, c.r.esi, c.r.edi, c.r.ebp]);
    var c1 := W.Push(c, newEsp);
    PushFirst(c1, cell, [ret, c.r.ebx, c.r.esi, c.r.edi, c.r.ebp]);
    var c2 := W.Push(c1, cell);
    PushFirst(c2, ret, [c.r.ebx, c.r.esi, c.r.edi, c.r.ebp]);
    var c3 := W.Push(c2, ret);
    PushFirst(c3, c.r.ebx, [c.r.esi, c.r.edi, c.r.ebp]);
    var c4 := W.Push(c3, c.r.ebx);
    PushFirst(c4, c.r.esi, [c.r.edi, c.r.ebp]);
    var c5 := W.Push(c4, c.r.esi);
    PushFirst(c5, c.r.edi, [c.r.ebp]);
    PushFirst(W.Push(c5, c.r.edi), c.r.ebp, []);
  }

  lemma PushFirst(c: W.Cpu, w: Word, ws: seq<Word>)
    requires c.r.esp >= 4 * (|ws| + 1)
    ensures PushList(c, [w] + ws) == PushList(W.Push(c, w), ws) && (ws == [] ==> PushList(c, [w]) == W.Push(c, w))
    ensures W.Push(c, w).r == c.r.(esp := c.r.esp - 4)
  {
    assert ([w] + ws)[1..] == ws;
    assert ws == [] ==> [w] + ws == [w];
  }

  lemma SwapIs(t: Ram, d: nat, fr: map<nat, nat>, a: W.Cpu, m: W.Store, cell: Word, newEsp: Word)
    requires Partly(t, d, fr) && Agree(a.m, m, fr) && a.r.esp + 28 < MEM && newEsp + 20 < MEM
    requires m[a.r.esp + 20] == cell && m[a.r.esp + 24] == newEsp && !(a.r.esp <= cell < a.r.esp + 28)
    requires AllCovered(fr, a.r.esp + 28, cell, newEsp) && HereBelow(t, d, a.r.esp + 28, 7)
    ensures Swap(t, d, a).Some? <==> Here(t, d, cell) && FrameHere(t, d, newEsp)
    ensures W.SwapStacks(W.Cpu(a.r, m)).r.esp + 20 < MEM
    ensures Swap(t, d, a).Some? ==>
              var b := W.Restore(W.SwapStacks(W.Cpu(a.r, m)));
              Swap(t, d, a).value.r == b.r && Agree(Swap(t, d, a).value.m, b.m, fr)
  {
    hide Partly, Agree, Here, Ld, St, Pops, FrameHere, W.Restore;
    PartlyParts(t, d, fr);
    var sp := a.r.esp;
    StackCovered(t, d, fr, sp);
    LdIs(t, d, fr, a.m, m, sp + 20);
    StIs(t, d, fr, a.m, m, cell, sp);
    if Here(t, d, cell) {
      var phys := St(t, d, a.m, cell, sp).value;
      LdIs(t, d, fr, phys, m[cell := sp], sp + 24);
      PopsIs(t, d, fr, W.Cpu(a.r.(esp := newEsp), phys), m[cell := sp]);
      RestoreKeeps(W.SwapStacks(W.Cpu(a.r, m)));
    }
  }

  lemma RestoreKeeps(c: W.Cpu)
    requires c.r.esp + 20 < MEM
    ensures W.Restore(c).m == c.m
    ensures forall r: W.Regs :: r.esp == c.r.esp ==> W.Restore(W.Cpu(r, c.m)).r == W.Restore(c).r
  {
  }

  lemma StackCovered(t: Ram, d: nat, fr: map<nat, nat>, sp: nat)
    requires d < PAGES && Covered(fr, sp + 28, 7) && HereBelow(t, d, sp + 28, 7)
    ensures (sp + 24) / PAGE in fr && (sp + 20) / PAGE in fr && Here(t, d, sp + 24) && Here(t, d, sp + 20)
  {
    hide Here;
    assert Covered(fr, sp + 24, 6) && HereBelow(t, d, sp + 24, 6);
  }

  /** Run through the tables of the next process, context_switch goes through if and only if those tables map everything
      it touches; and then it does what the flat one does. */
  lemma SwitchThroughIs(t: Ram, d: nat, fr: map<nat, nat>, c: W.Cpu, m: W.Store, cell: Word, newEsp: Word, ret: Word)
    requires Partly(t, d, fr) && Agree(c.m, m, fr) && 28 <= c.r.esp && c.r.esp + 64 < MEM && newEsp + 20 < MEM
    requires AllCovered(fr, c.r.esp, cell, newEsp) && !(c.r.esp - 28 <= cell < c.r.esp)
    ensures W.Switchable(W.Call(W.Cpu(c.r, m), cell, newEsp, ret))
    ensures SwitchThrough(t, d, c, cell, newEsp, ret).Some? <==> AllHere(t, d, c.r.esp, cell, newEsp)
    ensures SwitchThrough(t, d, c, cell, newEsp, ret).Some? ==>
              var u, b := SwitchThrough(t, d, c, cell, newEsp, ret).value,
                          W.ContextSwitch(W.Call(W.Cpu(c.r, m), cell, newEsp, ret));
              u.r == b.r && Agree(u.m, b.m, fr)
  {
    hide Partly, Agree, Here, Swap, PushAll, PushList, HereBelow, FrameHere, W.Save, W.Call, W.SwapStacks, W.Restore,
         Covered;
    PartlyParts(t, d, fr);
    W.SaveEffect(W.Cpu(c.r, m), cell, newEsp, ret);
    var ws := Words(c.r, cell, newEsp, ret);
    PushAllIs(t, d, fr, c, m, ws);
    CallAndSave(W.Cpu(c.r, m), cell, newEsp, ret);
    if HereBelow(t, d, c.r.esp, 7) {
      var a, b := PushAll(t, d, c, ws).value, W.Save(W.Call(W.Cpu(c.r, m), cell, newEsp, ret));
      SwapIs(t, d, fr, a, b.m, cell, newEsp);
    }
  }

  /** Stores, one after the other. */
  function StoreAll(t: Ram, d: nat, phys: W.Store, ws: seq<(nat, Word)>): Option<W.Store>
    requires d < PAGES
    decreases |ws|
  {
    if ws == [] then Some(phys) else
    match St(t, d, phys, ws[0].0, ws[0].1)
    case None => None
    case Some(m) => StoreAll(t, d, m, ws[1..])
  }

  function PutAll(m: W.Store, ws: seq<(nat, Word)>): W.Store
    requires forall j :: 0 <= j < |ws| ==> ws[j].0 < MEM
    decreases |ws|
  {
    if ws == [] then m else PutAll(m[ws[0].0 := ws[0].1], ws[1..])
  }

  lemma {:induction false} StoreAllIs(t: Ram, d: nat, fr: map<nat, nat>, phys: W.Store, m: W.Store,
                                      ws: seq<(nat, Word)>)
    requires Partly(t, d, fr) && Agree(phys, m, fr)
    requires forall j :: 0 <= j < |ws| ==> ws[j].0 < MEM && ws[j].0 / PAGE in fr && Here(t, d, ws[j].0)
    ensures StoreAll(t, d, phys, ws).Some? && Agree(StoreAll(t, d, phys, ws).value, PutAll(m, ws), fr)
    decreases |ws|
  {
    hide Partly, Agree, Here, St;
    PartlyParts(t, d, fr);
    if ws != [] {
      StIs(t, d, fr, phys, m, ws[0].0, ws[0].1);
      StoreAllIs(t, d, fr, St(t, d, phys, ws[0].0, ws[0].1).value, m[ws[0].0 := ws[0].1], ws[1..]);
    }
  }

  /** What process_create stores for a stack that ends at top. */
  function FrameWords(top: Word, cell: Word, entry: Word, wrapper: Word): seq<(nat, Word)>
    requires top >= 28
  {
    [(top - 4, entry), (top - 8, 0), (top - 12, wrapper), (top - 16, 0)]
    + [(top - 20, 0), (top - 24, 0), (top - 28, 0), (cell, top - 28)]
  }

  lemma FrameWordsIs(m: W.Store, top: Word, cell: Word, entry: Word, wrapper: Word)
    requires top >= 28
    ensures PutAll(m, FrameWords(top, cell, entry, wrapper)) == W.InitialFrame(m, top, entry, wrapper)[cell := top - 28]
  {
    var a := [(top - 4, entry), (top - 8, 0), (top - 12, wrapper), (top - 16, 0)];
    var b := [(top - 20, 0), (top - 24, 0), (top - 28, 0), (cell, top - 28)];
    PutFour(m, a, b);
    var m4: W.Store := m[top - 4 := entry][top - 8 := 0][top - 12 := wrapper][top - 16 := 0];
    assert b + [] == b;
    PutFour(m4, b, []);
  }

  lemma PutFour(m: W.Store, a: seq<(nat, Word)>, b: seq<(nat, Word)>)
    requires |a| == 4 && (forall j :: 0 <= j < 4 ==> a[j].0 < MEM) && forall j :: 0 <= j < |b| ==> b[j].0 < MEM
    ensures PutAll(m, a + b) == PutAll(m[a[0].0 := a[0].1][a[1].0 := a[1].1][a[2].0 := a[2].1][a[3].0 := a[3].1], b)
  {
    var ws := a + b;
    assert ws[1..][1..][1..][1..] == b;
    var m1: W.Store := m[a[0].0 := a[0].1];
    var m2: W.Store := m1[a[1].0 := a[1].1];
    var m3: W.Store := m2[a[2].0 := a[2].1];
    assert PutAll(m, ws) == PutAll(m1, ws[1..]);
    assert PutAll(m1, ws[1..]) == PutAll(m2, ws[1..][1..]);
    assert PutAll(m2, ws[1..][1..]) == PutAll(m3, ws[1..][1..][1..]);
  }
}
